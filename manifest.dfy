/** `Manifest.parse` and `Manifest.get_options_namespace`
    (craftr/core/manifest.py). The manifest arrives as decoded JSON; the
    checks the JSON schema makes are the predicate `SchemaValid`; `Version`,
    `VersionCriteria` and `pyutils.import_` are parameters. */
module ManifestParse {
  import opened Base
  import opened Json
  import opened PackageName
  import opened Options
  import opened UrlLoading

  /** What `pyutils.import_` yields for a qualified type name, as far as
      `parse` looks at it: one of the option classes, the URL loader class,
      one of the abstract bases `BaseOption` and `BaseLoader` (which pass
      the `issubclass` test but cannot be instantiated), another class, or
      no class at all (`ImportError`, or not a `type`). */
  datatype PyType =
    | OptionClass(kind: OptionKind)
    | LoaderClass
    | AbstractOptionBase
    | AbstractLoaderBase
    | OtherClass
    | NoType

  /** `Version(s)` and `VersionCriteria(s)` succeed, and what `import_`
      finds outside the `_aliases` table. */
  datatype ParseEnv = ParseEnv(versionOk: string -> bool, criteriaOk: string -> bool, importOther: string -> PyType)

  const AliasPrefix: string := "craftr.core.manifest._aliases."

  /** A type name without a dot is looked up in `_aliases`. */
  function Qualify(typeName: string): (q: string)
    ensures '.' in typeName ==> q == typeName
    ensures '.' !in typeName ==> q == AliasPrefix + typeName
  {
    if '.' in typeName then typeName else AliasPrefix + typeName
  }

  /** The `_aliases` namespace: `bool`, `triplet`, `string` and `url`. */
  function Alias(attr: string): Option<PyType> {
    if attr == "bool" then Some(OptionClass(BoolOption))
    else if attr == "triplet" then Some(OptionClass(TripletOption))
    else if attr == "string" then Some(OptionClass(StringOption))
    else if attr == "url" then Some(LoaderClass)
    else None
  }

  /** `pyutils.import_` of the qualified type name. A name without a dot
      is an attribute of `_aliases`: one of the table, or nothing that is an
      option or loader class. The two abstract bases are found under their
      own module; any other dotted name is whatever `importOther` finds. */
  function Lookup(typeName: string, env: ParseEnv): PyType {
    if typeName == "craftr.core.manifest.BaseOption" then AbstractOptionBase
    else if typeName == "craftr.core.manifest.BaseLoader" then AbstractLoaderBase
    else if '.' in typeName then env.importOther(typeName)
    else match Alias(typeName)
      case Some(t) => t
      case None => NoType
  }

  /** The reasons `parse` gives in `InvalidManifest`. */
  datatype Invalid =
    | SchemaViolation
    | BadName(name: string)
    | BadCriteria(key: string, value: string)
    | BadOptionType(typeName: string)
    | BadOptionArguments(key: string)
    | BadLoaderType(typeName: string)
    | DuplicateLoader(name: string)
    | UnexpectedField(field: string)

  /** `InvalidManifest`, or an exception `parse` does not translate: a
      `KeyError` from a missing `type` or `name`, the `TypeError` of a loader
      constructor, the `ValueError` of `Version`. */
  datatype ParseFault =
    | InvalidManifest(reason: Invalid)
    | KeyErrorRaised(key: string)
    | LoaderArgumentsError(name: string)
    | VersionRejected(version: string)

  /** A parsed manifest; `version` has been accepted by `Version`, the
      dependency values by `VersionCriteria`. */
  datatype Manifest = Manifest(
    name: string,
    version: string,
    main: string,
    projectDir: string,
    author: Option<string>,
    url: Option<string>,
    dependencies: seq<(string, string)>,
    options: seq<(string, OptionDecl)>,
    loaders: seq<LoaderDecl>)

  predicate StrOrAbsent(fields: seq<(string, Json)>, key: string) {
    Get(fields, key).None? || Get(fields, key).value.JStr?
  }

  predicate DependenciesShape(d: Option<Json>) {
    d.None? || (d.value.JObj? && forall i :: 0 <= i < |d.value.fields| ==> d.value.fields[i].1.JStr?)
  }

  predicate OptionsShape(d: Option<Json>) {
    d.None? || (d.value.JObj? && forall i :: 0 <= i < |d.value.fields| ==>
      d.value.fields[i].1.JObj? && StrOrAbsent(d.value.fields[i].1.fields, "type"))
  }

  predicate LoadersShape(d: Option<Json>) {
    d.None? || (d.value.JArr? && forall i :: 0 <= i < |d.value.items| ==>
      d.value.items[i].JObj? && StrOrAbsent(d.value.items[i].fields, "name") && StrOrAbsent(d.value.items[i].fields, "type"))
  }

  /** `jsonschema.validate(data, Manifest.Schema)`. */
  predicate SchemaValid(doc: Json) {
    && doc.JObj?
    && Get(doc.fields, "name").Some? && Get(doc.fields, "version").Some?
    && StrOrAbsent(doc.fields, "name") && StrOrAbsent(doc.fields, "version")
    && StrOrAbsent(doc.fields, "main") && StrOrAbsent(doc.fields, "project_dir")
    && StrOrAbsent(doc.fields, "author") && StrOrAbsent(doc.fields, "url")
    && DependenciesShape(Get(doc.fields, "dependencies"))
    && OptionsShape(Get(doc.fields, "options"))
    && LoadersShape(Get(doc.fields, "loaders"))
  }

  function DependencyEntries(doc: Json): seq<(string, Json)>
    requires SchemaValid(doc)
  {
    match Get(doc.fields, "dependencies")
    case None => []
    case Some(d) => d.fields
  }

  function OptionEntries(doc: Json): seq<(string, Json)>
    requires SchemaValid(doc)
  {
    match Get(doc.fields, "options")
    case None => []
    case Some(d) => d.fields
  }

  function LoaderItems(doc: Json): seq<Json>
    requires SchemaValid(doc)
  {
    match Get(doc.fields, "loaders")
    case None => []
    case Some(d) => d.items
  }

  /** One entry of `data['dependencies']`: `VersionCriteria(value)`. */
  function DependencyStep(env: ParseEnv): ((string, Json)) --> Result<(string, string), ParseFault> {
    (entry: (string, Json)) requires entry.1.JStr? =>
      if env.criteriaOk(entry.1.s) then Ok((entry.0, entry.1.s))
      else Err(InvalidManifest(BadCriteria(entry.0, entry.1.s)))
  }

  /** Keyword arguments the option classes take besides the name. */
  const OptionArguments: set<string> := {"default", "inherit", "help"}

  /** Keyword arguments `UrlLoader` takes besides the name. */
  const LoaderArguments: set<string> := {"urls", "unpack_exclude"}

  predicate OptionValueShape(value: Json) {
    value.JObj? && StrOrAbsent(value.fields, "type")
  }

  /** One entry of `data['options']`: the `str` shorthand, `pop('type')`,
      the type lookup and `option_type(key, **value)`. */
  function ParseOption(key: string, value: Json, env: ParseEnv): Result<OptionDecl, ParseFault>
    requires value.JStr? || OptionValueShape(value)
  {
    var obj := if value.JStr? then [("type", value)] else value.fields;
    match Get(obj, "type")
    case None => Err(KeyErrorRaised("type"))
    case Some(t) =>
      var rest := Remove(obj, "type");
      match Lookup(t.s, env)
      case OptionClass(kind) =>
        if KeysWithin(rest, OptionArguments) then
          Ok(OptionDecl(kind, key, GetOr(rest, "inherit", JBool(true)), GetOr(rest, "default", KindDefault(kind))))
        else Err(InvalidManifest(BadOptionArguments(key)))
      // instantiating the abstract base raises `TypeError`, whatever the arguments
      case AbstractOptionBase => Err(InvalidManifest(BadOptionArguments(key)))
      case _ => Err(InvalidManifest(BadOptionType(Qualify(t.s))))
  }

  /** One entry of `data['options']`, paired with its key. */
  function OptionStep(env: ParseEnv): ((string, Json)) --> Result<(string, OptionDecl), ParseFault> {
    (entry: (string, Json)) requires entry.1.JStr? || OptionValueShape(entry.1) =>
      var option :- ParseOption(entry.0, entry.1, env);
      Ok((entry.0, option))
  }

  predicate LoaderShape(item: Json) {
    item.JObj? && StrOrAbsent(item.fields, "name") && StrOrAbsent(item.fields, "type")
  }

  /** One item of the `loaders` list: `pop('name')`, `pop('type')`, the
      duplicate check against `taken`, the type lookup and
      `loader_type(name, **loader_data)`. */
  function ParseLoader(item: Json, taken: set<string>, env: ParseEnv): Result<LoaderDecl, ParseFault>
    requires LoaderShape(item)
  {
    var obj := item.fields;
    match Get(obj, "name")
    case None => Err(KeyErrorRaised("name"))
    case Some(n) =>
      var withoutName := Remove(obj, "name");
      GetRemove(obj, "name", "type");
      match Get(withoutName, "type")
      case None => Err(KeyErrorRaised("type"))
      case Some(t) =>
        if n.s in taken then Err(InvalidManifest(DuplicateLoader(n.s)))
        else
          var rest := Remove(withoutName, "type");
          // instantiating the abstract base raises `TypeError`, whatever the arguments
          if Lookup(t.s, env) == AbstractLoaderBase then Err(LoaderArgumentsError(n.s))
          else if Lookup(t.s, env) != LoaderClass then Err(InvalidManifest(BadLoaderType(Qualify(t.s))))
          else if KeysWithin(rest, LoaderArguments) && Get(rest, "urls").Some? then
            Ok(LoaderDecl(n.s, GetOr(rest, "urls", JNull), GetOr(rest, "unpack_exclude", JArr([]))))
          else Err(LoaderArgumentsError(n.s))
  }

  /** One item of the popped `loaders` list, checked against the names in
      `taken`. As written, `taken_loader_names` is never added to, so every
      item is checked against the empty set. */
  function LoaderStep(taken: set<string>, env: ParseEnv): Json --> Result<LoaderDecl, ParseFault> {
    (item: Json) requires LoaderShape(item) => ParseLoader(item, taken, env)
  }

  /** The keyword arguments `Manifest.__init__` takes. */
  const ManifestFields: set<string> := {"name", "version", "main", "project_dir", "author", "url", "dependencies", "options", "loaders"}

  function StrOr(fields: seq<(string, Json)>, key: string, default: string): string
    requires StrOrAbsent(fields, key)
  {
    match Get(fields, key)
    case None => default
    case Some(v) => v.s
  }

  function OptStr(fields: seq<(string, Json)>, key: string): Option<string>
    requires StrOrAbsent(fields, key)
  {
    match Get(fields, key)
    case None => None
    case Some(v) => Some(v.s)
  }

  /** `Manifest(**data)`: unexpected keys raise `TypeError`, which `parse`
      turns into `InvalidManifest`; then `Version(version)` may raise. */
  function Construct(doc: Json, deps: seq<(string, string)>, options: seq<(string, OptionDecl)>, loaders: seq<LoaderDecl>, env: ParseEnv): Result<Manifest, ParseFault>
    requires SchemaValid(doc)
  {
    var version := Get(doc.fields, "version").value.s;
    match FirstKeyOutside(doc.fields, ManifestFields)
    case Some(k) => Err(InvalidManifest(UnexpectedField(k)))
    case None =>
      if !env.versionOk(version) then Err(VersionRejected(version))
      else Ok(Manifest(
        Get(doc.fields, "name").value.s, version,
        StrOr(doc.fields, "main", "Craftrfile"), StrOr(doc.fields, "project_dir", "."),
        OptStr(doc.fields, "author"), OptStr(doc.fields, "url"),
        deps, options, loaders))
  }

  /** `Manifest.parse(file)` for an already decoded document. */
  function ParseSpec(doc: Json, env: ParseEnv): (r: Result<Manifest, ParseFault>)
    ensures r.Ok? ==> SchemaValid(doc)
  {
    if !SchemaValid(doc) then Err(InvalidManifest(SchemaViolation))
    else
      var name := Get(doc.fields, "name").value.s;
      if Validate(JStr(name)).Some? then Err(InvalidManifest(BadName(name)))
      else
        var deps :- Collect(DependencyEntries(doc), 0, [], DependencyStep(env));
        var options :- Collect(OptionEntries(doc), 0, [], OptionStep(env));
        var loaders :- Collect(LoaderItems(doc), 0, [], LoaderStep({}, env));
        Construct(doc, deps, options, loaders, env)
  }

  // ---------------------------------------------------------------------
  // What a manifest must look like to be accepted, stated per entry.

  predicate OptionAcceptable(value: Json, env: ParseEnv) {
    && value.JObj?
    && Get(value.fields, "type").Some? && Get(value.fields, "type").value.JStr?
    && Lookup(Get(value.fields, "type").value.s, env).OptionClass?
    && KeysWithin(value.fields, OptionArguments + {"type"})
  }

  predicate LoaderAcceptable(item: Json, env: ParseEnv) {
    && item.JObj?
    && Get(item.fields, "name").Some? && Get(item.fields, "name").value.JStr?
    && Get(item.fields, "type").Some? && Get(item.fields, "type").value.JStr?
    && Lookup(Get(item.fields, "type").value.s, env) == LoaderClass
    && Get(item.fields, "urls").Some?
    && KeysWithin(item.fields, LoaderArguments + {"type"} + {"name"})
  }

  /** Every dependency's criteria string parses. */
  predicate DependenciesOk(doc: Json, env: ParseEnv)
    requires SchemaValid(doc)
  {
    forall i :: 0 <= i < |DependencyEntries(doc)| ==> env.criteriaOk(DependencyEntries(doc)[i].1.s)
  }

  /** Every option entry is acceptable. */
  predicate OptionsOk(doc: Json, env: ParseEnv)
    requires SchemaValid(doc)
  {
    forall i :: 0 <= i < |OptionEntries(doc)| ==> OptionAcceptable(OptionEntries(doc)[i].1, env)
  }

  /** Every loader item is acceptable. */
  predicate LoadersOk(doc: Json, env: ParseEnv)
    requires SchemaValid(doc)
  {
    forall i :: 0 <= i < |LoaderItems(doc)| ==> LoaderAcceptable(LoaderItems(doc)[i], env)
  }

  predicate Acceptable(doc: Json, env: ParseEnv) {
    && SchemaValid(doc)
    && PatternMatches(Get(doc.fields, "name").value.s)
    && DependenciesOk(doc, env)
    && OptionsOk(doc, env)
    && LoadersOk(doc, env)
    && KeysWithin(doc.fields, ManifestFields)
    && env.versionOk(Get(doc.fields, "version").value.s)
  }

  lemma ParseOptionOutcome(key: string, value: Json, env: ParseEnv)
    requires OptionValueShape(value)
    ensures ParseOption(key, value, env).Ok? <==> OptionAcceptable(value, env)
    ensures ParseOption(key, value, env).Ok? ==>
      var opt := ParseOption(key, value, env).value;
      && opt.name == key
      && OptionClass(opt.kind) == Lookup(Get(value.fields, "type").value.s, env)
      && opt.inherit == GetOr(value.fields, "inherit", JBool(true))
      && opt.default == GetOr(value.fields, "default", KindDefault(opt.kind))
  {
    var obj := value.fields;
    KeysWithinRemove(obj, "type", OptionArguments);
    GetRemove(obj, "type", "inherit");
    GetRemove(obj, "type", "default");
  }

  lemma ParseLoaderOutcome(item: Json, env: ParseEnv)
    requires LoaderShape(item)
    ensures ParseLoader(item, {}, env).Ok? <==> LoaderAcceptable(item, env)
    ensures ParseLoader(item, {}, env).Ok? ==>
      var l := ParseLoader(item, {}, env).value;
      && Get(item.fields, "name") == Some(JStr(l.name))
      && l.urls == GetOr(item.fields, "urls", JNull)
      && l.unpackExclude == GetOr(item.fields, "unpack_exclude", JArr([]))
  {
    var obj := item.fields;
    var withoutName := Remove(obj, "name");
    GetRemove(obj, "name", "type");
    KeysWithinRemove(obj, "name", LoaderArguments + {"type"});
    KeysWithinRemove(withoutName, "type", LoaderArguments);
    GetRemove(obj, "name", "urls");
    GetRemove(withoutName, "type", "urls");
    GetRemove(obj, "name", "unpack_exclude");
    GetRemove(withoutName, "type", "unpack_exclude");
  }

  /** The dependency loop succeeds exactly when every criteria string is
      accepted, and keeps the entries in order. */
  lemma DependenciesAccepted(deps: seq<(string, Json)>, env: ParseEnv)
    requires forall k :: 0 <= k < |deps| ==> deps[k].1.JStr?
    ensures var r := Collect(deps, 0, [], DependencyStep(env));
      && (r.Ok? <==> forall k :: 0 <= k < |deps| ==> env.criteriaOk(deps[k].1.s))
      && (r.Ok? ==> |r.value| == |deps| && forall k :: 0 <= k < |deps| ==> r.value[k] == (deps[k].0, deps[k].1.s))
  {
    CollectAll(deps, DependencyStep(env));
  }

  /** The option loop succeeds exactly when every entry is acceptable, and
      yields one option per entry, in order, named by its key. */
  lemma OptionsAccepted(opts: seq<(string, Json)>, env: ParseEnv)
    requires forall k :: 0 <= k < |opts| ==> OptionValueShape(opts[k].1)
    ensures var r := Collect(opts, 0, [], OptionStep(env));
      && (r.Ok? <==> forall k :: 0 <= k < |opts| ==> OptionAcceptable(opts[k].1, env))
      && (r.Ok? ==> |r.value| == |opts| && forall k :: 0 <= k < |opts| ==> r.value[k].0 == opts[k].0 && r.value[k].1.name == opts[k].0)
  {
    CollectAll(opts, OptionStep(env));
    forall k | 0 <= k < |opts|
      ensures OptionStep(env)(opts[k]).Ok? <==> OptionAcceptable(opts[k].1, env)
      ensures OptionStep(env)(opts[k]).Ok? ==> OptionStep(env)(opts[k]).value.0 == opts[k].0 && OptionStep(env)(opts[k]).value.1.name == opts[k].0
    {
      OptionStepOutcome(opts[k], env);
    }
  }

  lemma OptionStepOutcome(entry: (string, Json), env: ParseEnv)
    requires OptionValueShape(entry.1)
    ensures OptionStep(env)(entry).Ok? <==> OptionAcceptable(entry.1, env)
    ensures OptionStep(env)(entry).Ok? ==> OptionStep(env)(entry).value.0 == entry.0 && OptionStep(env)(entry).value.1.name == entry.0
  {
    ParseOptionOutcome(entry.0, entry.1, env);
  }

  /** The loader loop succeeds exactly when every item is acceptable, and
      yields one loader per item, in order, with the item's name. */
  lemma LoadersAccepted(items: seq<Json>, env: ParseEnv)
    requires forall k :: 0 <= k < |items| ==> LoaderShape(items[k])
    ensures var r := Collect(items, 0, [], LoaderStep({}, env));
      && (r.Ok? <==> forall k :: 0 <= k < |items| ==> LoaderAcceptable(items[k], env))
      && (r.Ok? ==> |r.value| == |items| && forall k :: 0 <= k < |items| ==> Get(items[k].fields, "name") == Some(JStr(r.value[k].name)))
  {
    CollectAll(items, LoaderStep({}, env));
    forall k | 0 <= k < |items|
      ensures LoaderStep({}, env)(items[k]).Ok? <==> LoaderAcceptable(items[k], env)
      ensures LoaderStep({}, env)(items[k]).Ok? ==> Get(items[k].fields, "name") == Some(JStr(LoaderStep({}, env)(items[k]).value.name))
    {
      LoaderStepOutcome(items[k], env);
    }
  }

  lemma LoaderStepOutcome(item: Json, env: ParseEnv)
    requires LoaderShape(item)
    ensures LoaderStep({}, env)(item).Ok? <==> LoaderAcceptable(item, env)
    ensures LoaderStep({}, env)(item).Ok? ==> Get(item.fields, "name") == Some(JStr(LoaderStep({}, env)(item).value.name))
  {
    ParseLoaderOutcome(item, env);
  }

  /** `parse` is all or nothing: it returns a manifest exactly when every
      check passes. */
  lemma ParseAcceptsExactly(doc: Json, env: ParseEnv)
    ensures ParseSpec(doc, env).Ok? <==> Acceptable(doc, env)
  {
    if SchemaValid(doc) {
      DependenciesAccepted(DependencyEntries(doc), env);
      OptionsAccepted(OptionEntries(doc), env);
      LoadersAccepted(LoaderItems(doc), env);
    }
  }

  /** The first checks of `parse`: a schema violation is reported first,
      then a name the pattern refuses. */
  lemma ParseEarlyFailures(doc: Json, env: ParseEnv)
    ensures !SchemaValid(doc) ==> ParseSpec(doc, env) == Err(InvalidManifest(SchemaViolation))
    ensures SchemaValid(doc) && !PatternMatches(Get(doc.fields, "name").value.s) ==>
      ParseSpec(doc, env) == Err(InvalidManifest(BadName(Get(doc.fields, "name").value.s)))
  {
  }

  /** With schema and name in order, the first dependency whose criteria
      do not parse is reported. */
  lemma ParseFirstBadDependency(doc: Json, env: ParseEnv)
    requires SchemaValid(doc) && PatternMatches(Get(doc.fields, "name").value.s)
    requires !DependenciesOk(doc, env)
    ensures var deps := DependencyEntries(doc);
      exists k :: 0 <= k < |deps| && !env.criteriaOk(deps[k].1.s)
        && (forall j :: 0 <= j < k ==> env.criteriaOk(deps[j].1.s))
        && ParseSpec(doc, env) == Err(InvalidManifest(BadCriteria(deps[k].0, deps[k].1.s)))
  {
    var deps := DependencyEntries(doc);
    DependenciesAccepted(deps, env);
    CollectFirstFailure(deps, 0, [], DependencyStep(env));
  }

  /** With the dependencies in order too, the first refused option is
      reported with the error its conversion raises. */
  lemma ParseFirstBadOption(doc: Json, env: ParseEnv)
    requires SchemaValid(doc) && PatternMatches(Get(doc.fields, "name").value.s)
    requires DependenciesOk(doc, env) && !OptionsOk(doc, env)
    ensures var opts := OptionEntries(doc);
      exists k :: 0 <= k < |opts| && !OptionAcceptable(opts[k].1, env)
        && (forall j :: 0 <= j < k ==> OptionAcceptable(opts[j].1, env))
        && ParseOption(opts[k].0, opts[k].1, env).Err?
        && ParseSpec(doc, env) == Err(ParseOption(opts[k].0, opts[k].1, env).error)
  {
    var opts := OptionEntries(doc);
    DependenciesAccepted(DependencyEntries(doc), env);
    OptionsAccepted(opts, env);
    CollectFirstFailure(opts, 0, [], OptionStep(env));
    var k :| 0 <= k < |opts| && OptionStep(env)(opts[k]).Err? && Collect(opts, 0, [], OptionStep(env)).error == OptionStep(env)(opts[k]).error
             && forall j :: 0 <= j < k ==> OptionStep(env)(opts[j]).Ok?;
    OptionStepOutcome(opts[k], env);
    forall j | 0 <= j < k
      ensures OptionAcceptable(opts[j].1, env)
    {
      OptionStepOutcome(opts[j], env);
    }
  }

  /** With the options in order too, the first refused loader is reported
      with the error its construction raises. */
  lemma ParseFirstBadLoader(doc: Json, env: ParseEnv)
    requires SchemaValid(doc) && PatternMatches(Get(doc.fields, "name").value.s)
    requires DependenciesOk(doc, env) && OptionsOk(doc, env) && !LoadersOk(doc, env)
    ensures var items := LoaderItems(doc);
      exists k :: 0 <= k < |items| && !LoaderAcceptable(items[k], env)
        && (forall j :: 0 <= j < k ==> LoaderAcceptable(items[j], env))
        && ParseLoader(items[k], {}, env).Err?
        && ParseSpec(doc, env) == Err(ParseLoader(items[k], {}, env).error)
  {
    var items := LoaderItems(doc);
    DependenciesAccepted(DependencyEntries(doc), env);
    OptionsAccepted(OptionEntries(doc), env);
    LoadersAccepted(items, env);
    CollectFirstFailure(items, 0, [], LoaderStep({}, env));
    var k :| 0 <= k < |items| && LoaderStep({}, env)(items[k]).Err? && Collect(items, 0, [], LoaderStep({}, env)).error == LoaderStep({}, env)(items[k]).error
             && forall j :: 0 <= j < k ==> LoaderStep({}, env)(items[j]).Ok?;
    LoaderStepOutcome(items[k], env);
    forall j | 0 <= j < k
      ensures LoaderAcceptable(items[j], env)
    {
      LoaderStepOutcome(items[j], env);
    }
  }

  /** With every entry in order, the first field `Manifest.__init__` does
      not take is reported, and only then a version that does not parse. */
  lemma ParseLateFailures(doc: Json, env: ParseEnv)
    requires SchemaValid(doc) && PatternMatches(Get(doc.fields, "name").value.s)
    requires DependenciesOk(doc, env) && OptionsOk(doc, env) && LoadersOk(doc, env)
    ensures !KeysWithin(doc.fields, ManifestFields) ==>
      ParseSpec(doc, env) == Err(InvalidManifest(UnexpectedField(FirstKeyOutside(doc.fields, ManifestFields).value)))
    ensures KeysWithin(doc.fields, ManifestFields) && !env.versionOk(Get(doc.fields, "version").value.s) ==>
      ParseSpec(doc, env) == Err(VersionRejected(Get(doc.fields, "version").value.s))
  {
    DependenciesAccepted(DependencyEntries(doc), env);
    OptionsAccepted(OptionEntries(doc), env);
    LoadersAccepted(LoaderItems(doc), env);
  }

  /** A parsed manifest keeps the declared entries in their order: one
      dependency per declared one, one option per declared key (named by
      the key), one loader per declared loader. */
  lemma ParsedEntriesInOrder(doc: Json, env: ParseEnv)
    requires ParseSpec(doc, env).Ok?
    ensures SchemaValid(doc)
    ensures var m := ParseSpec(doc, env).value;
      && Get(doc.fields, "name") == Some(JStr(m.name))
      && PatternMatches(m.name)
      && |m.dependencies| == |DependencyEntries(doc)|
      && (forall k :: 0 <= k < |m.dependencies| ==> DependencyEntries(doc)[k] == (m.dependencies[k].0, JStr(m.dependencies[k].1)))
      && |m.options| == |OptionEntries(doc)|
      && (forall k :: 0 <= k < |m.options| ==> m.options[k].0 == OptionEntries(doc)[k].0 && m.options[k].1.name == OptionEntries(doc)[k].0)
      && |m.loaders| == |LoaderItems(doc)|
      && (forall k :: 0 <= k < |m.loaders| ==> Get(LoaderItems(doc)[k].fields, "name") == Some(JStr(m.loaders[k].name)))
  {
    DependenciesAccepted(DependencyEntries(doc), env);
    OptionsAccepted(OptionEntries(doc), env);
    LoadersAccepted(LoaderItems(doc), env);
  }

  /** The duplicate-name check never fires: `taken_loader_names` stays
      empty, so two loaders with the same name are both kept. */
  lemma DuplicateLoaderNeverReported(items: seq<Json>, env: ParseEnv, name: string)
    requires forall k :: 0 <= k < |items| ==> LoaderShape(items[k])
    ensures Collect(items, 0, [], LoaderStep({}, env)) != Err(InvalidManifest(DuplicateLoader(name)))
  {
    if Collect(items, 0, [], LoaderStep({}, env)).Err? {
      CollectFirstFailure(items, 0, [], LoaderStep({}, env));
    }
  }

  /** Two loaders that share a name are both kept. */
  lemma DuplicateLoadersKept(env: ParseEnv)
    ensures var item := JObj([("name", JStr("src")), ("type", JStr("url")), ("urls", JArr([]))]);
      Collect([item, item], 0, [], LoaderStep({}, env)) == Ok([LoaderDecl("src", JArr([]), JArr([])), LoaderDecl("src", JArr([]), JArr([]))])
  {
    var item := JObj([("name", JStr("src")), ("type", JStr("url")), ("urls", JArr([]))]);
    assert Remove(item.fields, "name") == [("type", JStr("url")), ("urls", JArr([]))];
    assert Remove(Remove(item.fields, "name"), "type") == [("urls", JArr([]))];
    var loader := LoaderDecl("src", JArr([]), JArr([]));
    assert ParseLoader(item, {}, env) == Ok(loader);
    assert LoaderStep({}, env)(item) == Ok(loader);
    assert Collect([item, item], 2, [loader, loader], LoaderStep({}, env)) == Ok([loader, loader]);
    assert [item, item][1] == item && [loader] + [loader] == [loader, loader];
    assert Collect([item, item], 1, [loader], LoaderStep({}, env)) == Ok([loader, loader]);
    assert [item, item][0] == item && [] + [loader] == [loader];
  }

  /** The schema requires every option value to be an object, so the `str`
      shorthand of `parse` is never taken. */
  lemma OptionShorthandUnreachable(doc: Json)
    requires SchemaValid(doc)
    ensures forall k :: 0 <= k < |OptionEntries(doc)| ==> !OptionEntries(doc)[k].1.JStr?
  {
  }

  /** An option without `type` escapes as `KeyError` and a loader without
      `urls` as `TypeError`, neither turned into `InvalidManifest`; `"url"`
      as an option type names the loader class, not an option class, and is
      refused with `InvalidManifest`. */
  lemma UntranslatedFailures(env: ParseEnv)
    ensures ParseOption("X", JObj([("default", JStr("a"))]), env) == Err(KeyErrorRaised("type"))
    ensures ParseOption("X", JObj([("type", JStr("url"))]), env) == Err(InvalidManifest(BadOptionType(AliasPrefix + "url")))
    ensures ParseLoader(JObj([("name", JStr("src")), ("type", JStr("url"))]), {}, env) == Err(LoaderArgumentsError("src"))
  {
    assert Remove([("type", JStr("url"))], "type") == [];
    assert Remove(Remove([("name", JStr("src")), ("type", JStr("url"))], "name"), "type") == [];
  }

  /** The abstract bases named as types pass the subclass test, and their
      instantiation raises `TypeError`: for an option it becomes
      `InvalidManifest`, for a loader it escapes. */
  lemma AbstractBasesRefused(env: ParseEnv)
    ensures ParseOption("X", JObj([("type", JStr("craftr.core.manifest.BaseOption"))]), env) == Err(InvalidManifest(BadOptionArguments("X")))
    ensures ParseLoader(JObj([("name", JStr("x")), ("type", JStr("craftr.core.manifest.BaseLoader")), ("urls", JArr([JStr("u")]))]), {}, env)
            == Err(LoaderArgumentsError("x"))
  {
    assert Remove(Remove([("name", JStr("x")), ("type", JStr("craftr.core.manifest.BaseLoader")), ("urls", JArr([JStr("u")]))], "name"), "type") == [("urls", JArr([JStr("u")]))];
  }

  // ---------------------------------------------------------------------
  // The method, with the loops of `parse`.

  method ParseDependencies(deps: seq<(string, Json)>, env: ParseEnv) returns (r: Result<seq<(string, string)>, ParseFault>)
    requires forall k :: 0 <= k < |deps| ==> deps[k].1.JStr?
    ensures r == Collect(deps, 0, [], DependencyStep(env))
  {
    var converted := [];
    var i := 0;
    while i < |deps|
      invariant 0 <= i <= |deps|
      invariant Collect(deps, i, converted, DependencyStep(env)) == Collect(deps, 0, [], DependencyStep(env))
      decreases |deps| - i
    {
      var (key, value) := deps[i];
      if !env.criteriaOk(value.s) {
        return Err(InvalidManifest(BadCriteria(key, value.s)));
      }
      converted := converted + [(key, value.s)];
      i := i + 1;
    }
    return Ok(converted);
  }

  method ParseOptions(opts: seq<(string, Json)>, env: ParseEnv) returns (r: Result<seq<(string, OptionDecl)>, ParseFault>)
    requires forall k :: 0 <= k < |opts| ==> OptionValueShape(opts[k].1)
    ensures r == Collect(opts, 0, [], OptionStep(env))
  {
    var converted := [];
    var i := 0;
    while i < |opts|
      invariant 0 <= i <= |opts|
      invariant Collect(opts, i, converted, OptionStep(env)) == Collect(opts, 0, [], OptionStep(env))
      decreases |opts| - i
    {
      var option := ParseOption(opts[i].0, opts[i].1, env);
      if option.Err? {
        return Err(option.error);
      }
      converted := converted + [(opts[i].0, option.value)];
      i := i + 1;
    }
    return Ok(converted);
  }

  method ParseLoaders(items: seq<Json>, env: ParseEnv) returns (r: Result<seq<LoaderDecl>, ParseFault>)
    requires forall k :: 0 <= k < |items| ==> LoaderShape(items[k])
    ensures r == Collect(items, 0, [], LoaderStep({}, env))
  {
    var loaders := [];
    var taken: set<string> := {};
    var i := 0;
    while i < |items|
      invariant 0 <= i <= |items|
      invariant Collect(items, i, loaders, LoaderStep(taken, env)) == Collect(items, 0, [], LoaderStep({}, env))
      decreases |items| - i
    {
      var loader := ParseLoader(items[i], taken, env);
      if loader.Err? {
        return Err(loader.error);
      }
      loaders := loaders + [loader.value];
      i := i + 1;
    }
    return Ok(loaders);
  }

  method Parse(doc: Json, env: ParseEnv) returns (r: Result<Manifest, ParseFault>)
    ensures r == ParseSpec(doc, env)
    ensures r.Ok? <==> Acceptable(doc, env)
  {
    ParseAcceptsExactly(doc, env);
    if !SchemaValid(doc) {
      return Err(InvalidManifest(SchemaViolation));
    }
    var name := Get(doc.fields, "name").value.s;
    if Validate(JStr(name)).Some? {
      return Err(InvalidManifest(BadName(name)));
    }
    var deps := ParseDependencies(DependencyEntries(doc), env);
    if deps.Err? {
      return Err(deps.error);
    }
    var options := ParseOptions(OptionEntries(doc), env);
    if options.Err? {
      return Err(options.error);
    }
    var loaders := ParseLoaders(LoaderItems(doc), env);
    if loaders.Err? {
      return Err(loaders.error);
    }
    return Construct(doc, deps.value, options.value, loaders.value, env);
  }

  // ---------------------------------------------------------------------
  // `get_options_namespace`.

  predicate DistinctOptionKeys(options: seq<(string, OptionDecl)>) {
    forall i, j :: 0 <= i < j < |options| ==> options[i].0 != options[j].0
  }

  /** The attributes `get_options_namespace` sets, one option after the
      other: a later `setattr` of the same key overwrites an earlier one. */
  function Namespace(pkg: string, options: seq<(string, OptionDecl)>, provider: map<string, Json>): map<string, Json>
    decreases |options|
  {
    if options == [] then map[]
    else
      var last := options[|options| - 1];
      Namespace(pkg, options[..|options| - 1], provider)[last.0 := Resolve(pkg, last.1, provider).value]
  }

  /** The errors the loop appends, in the order of the options. */
  function OptionErrors(pkg: string, options: seq<(string, OptionDecl)>, provider: map<string, Json>): seq<OptionError>
    decreases |options|
  {
    if options == [] then []
    else
      var res := Resolve(pkg, options[|options| - 1].1, provider);
      OptionErrors(pkg, options[..|options| - 1], provider) + (if res.error.Some? then [res.error.value] else [])
  }

  /** The namespace has one attribute per option key. */
  lemma {:induction false} NamespaceKeys(pkg: string, options: seq<(string, OptionDecl)>, provider: map<string, Json>)
    ensures Namespace(pkg, options, provider).Keys == set entry | entry in options :: entry.0
    decreases |options|
  {
    if options != [] {
      var n := |options| - 1;
      NamespaceKeys(pkg, options[..n], provider);
      assert options == options[..n] + [options[n]];
      assert (set entry | entry in options :: entry.0) == (set entry | entry in options[..n] :: entry.0) + {options[n].0};
    }
  }

  /** Each attribute holds the resolved value of the option with that key. */
  lemma {:induction false} NamespaceValues(pkg: string, options: seq<(string, OptionDecl)>, provider: map<string, Json>)
    requires DistinctOptionKeys(options)
    ensures forall k :: 0 <= k < |options| ==>
      options[k].0 in Namespace(pkg, options, provider) && Namespace(pkg, options, provider)[options[k].0] == Resolve(pkg, options[k].1, provider).value
    decreases |options|
  {
    if options != [] {
      var n := |options| - 1;
      var init := options[..n];
      NamespaceValues(pkg, init, provider);
      forall k | 0 <= k < n
        ensures init[k] == options[k] && options[k].0 != options[n].0
      {
      }
    }
  }

  /** Every error entry names an option of the manifest whose raw value
      failed to convert; there is at most one per option. */
  lemma {:induction false} OptionErrorsBound(pkg: string, options: seq<(string, OptionDecl)>, provider: map<string, Json>)
    ensures |OptionErrors(pkg, options, provider)| <= |options|
    ensures forall e :: e in OptionErrors(pkg, options, provider) ==>
      (exists k :: 0 <= k < |options| && e.option == options[k].1) && Coerce(e.option, e.value).Err?
    decreases |options|
  {
    if options != [] {
      var n := |options| - 1;
      var init := options[..n];
      OptionErrorsBound(pkg, init, provider);
      ResolveOutcomes(pkg, options[n].1, provider);
      var res := Resolve(pkg, options[n].1, provider);
      var front := OptionErrors(pkg, init, provider);
      forall e | e in OptionErrors(pkg, options, provider)
        ensures (exists k :: 0 <= k < |options| && e.option == options[k].1) && Coerce(e.option, e.value).Err?
      {
        if e in front {
          var k :| 0 <= k < |init| && e.option == init[k].1;
          assert e.option == options[k].1;
        } else {
          assert res.error.Some? && e == res.error.value;
        }
      }
    }
  }

  /** One pass of the loop body: the provider's value for `option`, its
      conversion, and the error entry when the conversion raises. */
  method ResolveOption(pkg: string, option: OptionDecl, provider: map<string, Json>) returns (value: Json, error: Option<OptionError>)
    ensures Resolution(value, error) == Resolve(pkg, option, provider)
  {
    error := None;
    var raw := RawValue(pkg, option, provider);
    if raw.None? || raw.value.JNull? {
      value := option.default;
    } else {
      var coerced := Coerce(option, raw.value);
      if coerced.Ok? {
        value := coerced.value;
      } else {
        error := Some(OptionError(option, raw.value, coerced.error));
        value := option.default;
      }
    }
  }

  /** `get_options_namespace(provider, errors)`: the attributes of the
      returned namespace, and `errors` after the call. */
  method GetOptionsNamespace(m: Manifest, provider: map<string, Json>, errors: seq<OptionError>) returns (ns: map<string, Json>, errorsOut: seq<OptionError>)
    requires DistinctOptionKeys(m.options)
    ensures ns == Namespace(m.name, m.options, provider)
    ensures ns.Keys == set entry | entry in m.options :: entry.0
    ensures forall k :: 0 <= k < |m.options| ==> ns[m.options[k].0] == Resolve(m.name, m.options[k].1, provider).value
    ensures errorsOut == errors + OptionErrors(m.name, m.options, provider)
  {
    ns := map[];
    errorsOut := errors;
    var i := 0;
    while i < |m.options|
      invariant 0 <= i <= |m.options|
      invariant ns == Namespace(m.name, m.options[..i], provider)
      invariant errorsOut == errors + OptionErrors(m.name, m.options[..i], provider)
      decreases |m.options| - i
    {
      var (key, option) := m.options[i];
      var value, error := ResolveOption(m.name, option, provider);
      assert m.options[..i + 1][..i] == m.options[..i];
      if error.Some? {
        errorsOut := errorsOut + [error.value];
      }
      ns := ns[key := value];
      i := i + 1;
    }
    assert m.options[..i] == m.options;
    NamespaceKeys(m.name, m.options, provider);
    NamespaceValues(m.name, m.options, provider);
  }
}
