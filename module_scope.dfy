/** What a module script reaches through its locals: `Module._resolve`,
    `get`, `defined`, `setdefault`, `target`, `get_namespace` and
    `load_module` of craftr/runtime.py, and the text of `NoSuchModule`. */
module ModuleScope {
  import opened Base
  import opened Json
  import opened Text
  import opened Targets
  import opened RuntimeStore
  import opened Loading

  // ----- NoSuchModule.__str__ -----

  /** `repr(module)`: by identifier once it has one, else by file. */
  function ModuleRepr(mod: ModuleRec): string {
    if mod.identifier != "" then "<Module '" + mod.identifier + "'>" else "<Module at '" + mod.filename + "'>"
  }

  function ModeText(mode: Mode): string {
    if mode == GetMode then "does not exist" else "could not be found"
  }

  /** `str(NoSuchModule(name, required_by, mode))`; an empty `required_by`
      is false and leaves the requiring module out. */
  function NoSuchModuleMessage(name: string, requiredBy: Option<string>, mode: Mode): string {
    "'" + name + "' " + (RequiredByText(requiredBy) + ModeText(mode))
  }

  function RequiredByText(requiredBy: Option<string>): string {
    if requiredBy.Some? && requiredBy.value != "" then "(required by '" + requiredBy.value + "') " else ""
  }

  /** The text before the first quote. */
  function UpToQuote(s: string): (r: string)
    ensures |r| <= |s|
  {
    if s == [] || s[0] == '\'' then [] else [s[0]] + UpToQuote(s[1..])
  }

  lemma {:induction false} UpToQuoteAppend(a: string, b: string)
    requires '\'' !in a
    ensures UpToQuote(a + "'" + b) == a
  {
    if a != [] {
      assert (a + "'" + b)[1..] == a[1..] + "'" + b;
      UpToQuoteAppend(a[1..], b);
    }
  }

  /** Reads the name, the requiring module and the mode back from a
      message. */
  function ParseNoSuchModule(msg: string): Option<(string, Option<string>, Mode)> {
    if msg == [] || msg[0] != '\'' then None
    else
      var name := UpToQuote(msg[1..]);
      if |msg| < |name| + 3 || msg[|name| + 1..|name| + 3] != "' " then None
      else ParseRest(name, msg[|name| + 3..])
  }

  /** The part after `'<name>' `: the requiring module, if any, and the
      mode. */
  function ParseRest(name: string, rest: string): Option<(string, Option<string>, Mode)> {
    var mode := if EndsWith(rest, ModeText(GetMode)) then GetMode else LoadMode;
    if !EndsWith(rest, ModeText(mode)) then None
    else
      var body := rest[..|rest| - |ModeText(mode)|];
      if body == "" then Some((name, None, mode))
      else if |body| >= 17 && body[..14] == "(required by '" && body[|body| - 3..] == "') " then
        Some((name, Some(body[14..|body| - 3]), mode))
      else None
  }

  lemma ParseName(name: string, rest: string)
    requires '\'' !in name
    ensures ParseNoSuchModule("'" + name + "' " + rest) == ParseRest(name, rest)
  {
    var msg := "'" + name + "' " + rest;
    assert msg[1..] == name + "'" + (" " + rest);
    UpToQuoteAppend(name, " " + rest);
    assert msg[|name| + 1..|name| + 3] == "' ";
    assert msg[|name| + 3..] == rest;
  }

  lemma ParseMode(name: string, body: string, mode: Mode)
    ensures ParseRest(name, body + ModeText(mode)) ==
      if body == "" then Some((name, None, mode))
      else if |body| >= 17 && body[..14] == "(required by '" && body[|body| - 3..] == "') " then
        Some((name, Some(body[14..|body| - 3]), mode))
      else None
  {
    var rest := body + ModeText(mode);
    assert EndsWith(rest, ModeText(mode));
    if mode == LoadMode {
      assert rest[|rest| - 1] == 'd';
      assert !EndsWith(rest, ModeText(GetMode));
    }
    assert rest[..|rest| - |ModeText(mode)|] == body;
  }

  /** The message names the module, the module that required it and
      whether it was looked up or searched for, so that different errors
      read differently (for names without quotes). */
  lemma MessageParses(name: string, requiredBy: Option<string>, mode: Mode)
    requires '\'' !in name && requiredBy != Some("")
    ensures ParseNoSuchModule(NoSuchModuleMessage(name, requiredBy, mode)) == Some((name, requiredBy, mode))
  {
    var body := RequiredByText(requiredBy);
    ParseName(name, body + ModeText(mode));
    ParseMode(name, body, mode);
    if requiredBy.Some? {
      RequiredByParses(requiredBy.value);
    }
  }

  lemma RequiredByParses(r: string)
    requires r != ""
    ensures var body := RequiredByText(Some(r));
      |body| >= 17 && body[..14] == "(required by '" && body[|body| - 3..] == "') " && body[14..|body| - 3] == r
  {
    var body := RequiredByText(Some(r));
    assert body[..14] == "(required by '";
    assert body[14..|body| - 3] == r;
  }

  lemma MessageInjective(n1: string, r1: Option<string>, m1: Mode, n2: string, r2: Option<string>, m2: Mode)
    requires '\'' !in n1 && '\'' !in n2 && r1 != Some("") && r2 != Some("")
    requires NoSuchModuleMessage(n1, r1, m1) == NoSuchModuleMessage(n2, r2, m2)
    ensures n1 == n2 && r1 == r2 && m1 == m2
  {
    MessageParses(n1, r1, m1);
    MessageParses(n2, r2, m2);
  }

  // ----- Module._resolve -----

  /** `getattr` along `path`, from `obj` on. */
  function Walk(s: Store, obj: Value, path: seq<string>): Result<Value, RuntimeFault> {
    if path == [] then Ok(obj)
    else
      var prev :- Walk(s, obj, path[..|path| - 1]);
      match GetAttr(s, prev, path[|path| - 1])
      case None => Err(AttributeMissing(path[|path| - 1]))
      case Some(v) => Ok(v)
  }

  /** Walking a dotted path is walking its first part, then the rest. */
  lemma {:induction false} WalkConcat(s: Store, obj: Value, p: seq<string>, q: seq<string>)
    ensures Walk(s, obj, p + q) == (match Walk(s, obj, p) case Ok(mid) => Walk(s, mid, q) case Err(e) => Err(e))
    decreases |q|
  {
    if q == [] {
      assert p + q == p;
    } else {
      assert (p + q)[..|p + q| - 1] == p + q[..|q| - 1];
      WalkConcat(s, obj, p, q[..|q| - 1]);
    }
  }

  /** The locals entity of module `m`. */
  function Locals(s: Store, m: nat): Value
    requires m < |s.mods|
  {
    EntityRef(s.mods[m].locals)
  }

  /** `_resolve(varname)`: the object named by all but the last part, and
      the last part. */
  function Resolve(s: Store, m: nat, varname: string): Result<(Value, string), RuntimeFault>
    requires m < |s.mods|
  {
    var parts := Split(varname, '.');
    var obj :- Walk(s, Locals(s, m), parts[..|parts| - 1]);
    Ok((obj, parts[|parts| - 1]))
  }

  /** A name without dots is looked up in the module's locals. */
  lemma ResolvePlain(s: Store, m: nat, varname: string)
    requires m < |s.mods| && '.' !in varname
    ensures Resolve(s, m, varname) == Ok((Locals(s, m), varname))
  {
    assert Split(varname, '.') == [varname];
  }

  /** `a.b.c` names attribute `c` of what `a.b` names. */
  lemma ResolveDotted(s: Store, m: nat, prefix: string, last: string)
    requires m < |s.mods| && '.' !in prefix && '.' !in last
    ensures Resolve(s, m, prefix + "." + last) ==
      match GetAttr(s, Locals(s, m), prefix) case None => Err(AttributeMissing(prefix)) case Some(o) => Ok((o, last))
  {
    var name := prefix + "." + last;
    assert name[..|prefix|] == prefix && name[|prefix|] == '.' && name[|prefix| + 1..] == last;
    FirstIndexAt(name, '.', |prefix|);
    assert Split(last, '.') == [last];
    assert Split(name, '.') == [prefix] + Split(last, '.');
    assert Split(name, '.')[..1] == [prefix];
    assert [prefix][..0] == [];
    assert Walk(s, Locals(s, m), [prefix]) ==
      match GetAttr(s, Locals(s, m), prefix) case None => Err(AttributeMissing(prefix)) case Some(o) => Ok(o);
  }

  // ----- get, defined, setdefault -----

  /** `get(name, default, check_globals)`, `None` standing for the
      `NotImplemented` default. */
  function GetSpec(s: Store, m: nat, name: string, default: Option<Value>, checkGlobals: bool): Result<Value, RuntimeFault>
    requires m < |s.mods|
  {
    var (obj, key) :- Resolve(s, m, name);
    match GetAttr(s, obj, key)
    case Some(v) => Ok(v)
    case None =>
      if default.None? then Err(AttributeMissing(key))
      else if checkGlobals && obj == Locals(s, m) then
        match GetAttr(s, Locals(s, m), "G")
        case None => Ok(default.value)
        case Some(g) => (match GetAttr(s, g, key) case Some(v) => Ok(v) case None => Ok(default.value))
      else Ok(default.value)
  }

  /** `defined(varname)`. */
  function Defined(s: Store, m: nat, varname: string): bool
    requires m < |s.mods|
  {
    match Resolve(s, m, varname)
    case Err(_) => false
    case Ok((obj, key)) => GetAttr(s, obj, key).Some?
  }

  /** A name is defined exactly when `get` without a default finds it. */
  lemma DefinedIffFound(s: Store, m: nat, varname: string, checkGlobals: bool)
    requires m < |s.mods|
    ensures Defined(s, m, varname) <==> GetSpec(s, m, varname, None, checkGlobals).Ok?
  {
  }

  /** A defined name is returned whatever the default; an undefined one
      raises without a default, and the globals are consulted only with a
      default, and only for a name of the module's own scope. */
  lemma GetOutcome(s: Store, m: nat, name: string, default: Option<Value>, checkGlobals: bool)
    requires m < |s.mods| && Resolve(s, m, name).Ok?
    ensures var (obj, key) := Resolve(s, m, name).value;
      var r := GetSpec(s, m, name, default, checkGlobals);
      && (GetAttr(s, obj, key).Some? ==> r == Ok(GetAttr(s, obj, key).value))
      && (GetAttr(s, obj, key).None? && default.None? ==> r == Err(AttributeMissing(key)))
      && (GetAttr(s, obj, key).None? && default.Some? ==>
            r.Ok? && (r.value != default.value ==>
              checkGlobals && obj == Locals(s, m) && GetAttr(s, Locals(s, m), "G").Some?
              && GetAttr(s, GetAttr(s, Locals(s, m), "G").value, key) == Some(r.value)))
  {
  }

  /** The value `setdefault` keeps: the existing one, else the global one
      (for a name of the module's own scope), else the default. */
  function DefaultValue(s: Store, m: nat, obj: Value, key: string, default: Value, checkGlobals: bool): Value
    requires m < |s.mods|
  {
    match GetAttr(s, obj, key)
    case Some(v) => v
    case None =>
      if checkGlobals && obj == Locals(s, m) then
        match GetAttr(s, Locals(s, m), "G")
        case None => default
        case Some(g) => (match GetAttr(s, g, key) case Some(v) => v case None => default)
      else default
  }

  /** `setattr(obj, key, value)` on an entity. */
  function SetOn(s: Store, obj: Value, key: string, v: Value): Outcome<()> {
    match Deref(s, obj)
    case None => Outcome(Err(AttributeMissing(key)), s)
    case Some(e) => Outcome(Ok(()), SetAttr(s, e, key, v))
  }

  /** `setdefault(name, default, check_globals, set_global)`. */
  function SetDefaultSpec(s: Store, m: nat, name: string, default: Value, checkGlobals: bool, setGlobal: bool): (o: Outcome<Value>)
    requires m < |s.mods|
    ensures |o.store.entities| == |s.entities| && o.store == s.(entities := o.store.entities)
  {
    match Resolve(s, m, name)
    case Err(e) => Outcome(Err(e), s)
    case Ok((obj, key)) =>
      var v := DefaultValue(s, m, obj, key, default, checkGlobals);
      var o1 := SetOn(s, obj, key, v);
      if o1.result.Err? then Outcome(Err(o1.result.error), o1.store)
      else if !setGlobal then Outcome(Ok(v), o1.store)
      else
        var g := GetAttr(o1.store, Locals(s, m), "G");
        if g.None? then Outcome(Err(AttributeMissing("G")), o1.store)
        else
          var o2 := SetOn(o1.store, g.value, key, v);
          Outcome(if o2.result.Err? then Err(o2.result.error) else Ok(v), o2.store)
  }

  /** Every attribute of `s` is still there, with its value, in `r`. */
  predicate AttrsKept(s: Store, r: Store) {
    && |s.entities| <= |r.entities|
    && (forall e, k :: 0 <= e < |s.entities| && k in s.entities[e].attrs ==>
          k in r.entities[e].attrs && r.entities[e].attrs[k] == s.entities[e].attrs[k])
    && (forall n :: n in s.namespaces ==> n in r.namespaces && r.namespaces[n] == s.namespaces[n])
  }

  lemma GetAttrKept(s: Store, r: Store, obj: Value, key: string)
    requires AttrsKept(s, r) && GetAttr(s, obj, key).Some?
    ensures GetAttr(r, obj, key) == GetAttr(s, obj, key)
  {
  }

  /** A path that could be walked still leads to the same object once
      attributes were only added. */
  lemma {:induction false} WalkKept(s: Store, r: Store, obj: Value, path: seq<string>)
    requires AttrsKept(s, r) && Walk(s, obj, path).Ok?
    ensures Walk(r, obj, path) == Walk(s, obj, path)
    decreases |path|
  {
    if path != [] {
      WalkKept(s, r, obj, path[..|path| - 1]);
      GetAttrKept(s, r, Walk(s, obj, path[..|path| - 1]).value, path[|path| - 1]);
    }
  }

  lemma SetOnKeeps(s: Store, obj: Value, key: string, v: Value)
    requires GetAttr(s, obj, key).None? || GetAttr(s, obj, key) == Some(v)
    ensures AttrsKept(s, SetOn(s, obj, key, v).store)
  {
  }

  /** After `setdefault` (not writing the globals), the name is defined
      and `get` reads the value it returned. */
  lemma SetDefaultThenGet(s: Store, m: nat, name: string, default: Value, checkGlobals: bool, d: Option<Value>)
    requires m < |s.mods|
    ensures var o := SetDefaultSpec(s, m, name, default, checkGlobals, false);
      o.result.Ok? ==> |o.store.mods| == |s.mods| && GetSpec(o.store, m, name, d, checkGlobals) == Ok(o.result.value)
  {
    var o := SetDefaultSpec(s, m, name, default, checkGlobals, false);
    if o.result.Ok? {
      var parts := Split(name, '.');
      var (obj, key) := Resolve(s, m, name).value;
      var v := DefaultValue(s, m, obj, key, default, checkGlobals);
      SetOnKeeps(s, obj, key, v);
      WalkKept(s, o.store, Locals(s, m), parts[..|parts| - 1]);
      assert Locals(o.store, m) == Locals(s, m);
      assert Resolve(o.store, m, name) == Resolve(s, m, name);
    }
  }

  /** A value that already exists is kept: `setdefault` on a defined name
      returns it and changes nothing. */
  lemma SetDefaultKeepsExisting(s: Store, m: nat, name: string, default: Value, checkGlobals: bool)
    requires m < |s.mods| && Defined(s, m, name)
    ensures var (obj, key) := Resolve(s, m, name).value;
      SetDefaultSpec(s, m, name, default, checkGlobals, false) == Outcome(Ok(GetAttr(s, obj, key).value), s)
  {
    var (obj, key) := Resolve(s, m, name).value;
    var e := Deref(s, obj).value;
    assert SetAttr(s, e, key, s.entities[e].attrs[key]) == s by {
      assert s.entities[e].attrs[key := s.entities[e].attrs[key]] == s.entities[e].attrs;
      assert s.entities[e := s.entities[e]] == s.entities;
    }
  }

  /** With `set_global`, an existing value stays where it is and is also
      written to the globals: the store changes only by `G.key := value`,
      or `setdefault` raises when `G` is missing or not an entity. */
  lemma SetDefaultGlobalKeepsExisting(s: Store, m: nat, name: string, default: Value, checkGlobals: bool)
    requires m < |s.mods| && Defined(s, m, name)
    ensures var (obj, key) := Resolve(s, m, name).value;
      var v := GetAttr(s, obj, key).value;
      var o := SetDefaultSpec(s, m, name, default, checkGlobals, true);
      match GetAttr(s, Locals(s, m), "G")
      case None => o == Outcome(Err(AttributeMissing("G")), s)
      case Some(g) =>
        (match Deref(s, g)
         case None => o == Outcome(Err(AttributeMissing(key)), s)
         case Some(e) => o == Outcome(Ok(v), SetAttr(s, e, key, v)))
  {
    var (obj, key) := Resolve(s, m, name).value;
    var e := Deref(s, obj).value;
    assert SetAttr(s, e, key, s.entities[e].attrs[key]) == s by {
      assert s.entities[e].attrs[key := s.entities[e].attrs[key]] == s.entities[e].attrs;
      assert s.entities[e := s.entities[e]] == s.entities;
    }
  }

  /** `set_global` returns what the plain call returns and leaves that
      value in the globals under the key. */
  lemma SetDefaultWritesGlobals(s: Store, m: nat, name: string, default: Value, checkGlobals: bool)
    requires m < |s.mods|
    ensures var o := SetDefaultSpec(s, m, name, default, checkGlobals, true);
      var plain := SetDefaultSpec(s, m, name, default, checkGlobals, false);
      o.result.Ok? ==>
        && plain.result == o.result
        && Resolve(s, m, name).Ok?
        && var g := GetAttr(plain.store, Locals(s, m), "G");
        && g.Some?
        && GetAttr(o.store, g.value, Resolve(s, m, name).value.1) == Some(o.result.value)
  {
  }

  /** Called twice, `setdefault` returns the same value and the second
      call changes nothing. */
  lemma SetDefaultIdempotent(s: Store, m: nat, name: string, default: Value, checkGlobals: bool)
    requires m < |s.mods|
    ensures var o := SetDefaultSpec(s, m, name, default, checkGlobals, false);
      o.result.Ok? ==> |o.store.mods| == |s.mods| && SetDefaultSpec(o.store, m, name, default, checkGlobals, false) == o
  {
    var o := SetDefaultSpec(s, m, name, default, checkGlobals, false);
    if o.result.Ok? {
      SetDefaultThenGet(s, m, name, default, checkGlobals, None);
      SetDefaultKeepsExisting(o.store, m, name, default, checkGlobals);
    }
  }

  // ----- Module.target -----

  /** `target(name, **kwargs)` with the built-in `Target` class: the name
      must not be bound in the module's locals yet; the target is stored
      in `targets` and bound to its name. */
  function TargetDeclSpec(s: Store, m: nat, name: string, kwargs: Kwargs, validVar: string -> bool): (o: Outcome<Value>)
    requires Wf(s) && m < |s.mods|
    ensures Wf(o.store) && |o.store.mods| == |s.mods|
  {
    var loc := s.mods[m].locals;
    if name == "" then Outcome(Err(AssignedNameUnavailable), s)
    else if name in s.entities[loc].attrs then Outcome(Err(TargetOverridesLocal(name)), s)
    else match TargetSpec(m, name, Remove(kwargs, "target_class"), validVar)
      case Err(f) => Outcome(Err(TargetRejected(f)), s)
      case Ok(t) =>
        var s1 := s.(mods := s.mods[m := s.mods[m].(targets := s.mods[m].targets[name := t])]);
        Outcome(Ok(TargetRef(m, name)), SetAttr(s1, loc, name, TargetRef(m, name)))
  }

  /** A declaration succeeds exactly when the name is non-empty, not bound
      in the module yet and the target accepts its arguments; the target is
      then stored under its name. Nothing changes when the declaration is
      refused. */
  lemma TargetDeclOutcome(s: Store, m: nat, name: string, kwargs: Kwargs, validVar: string -> bool)
    requires Wf(s) && m < |s.mods| && '.' !in name
    ensures var o := TargetDeclSpec(s, m, name, kwargs, validVar);
      && (o.result.Ok? <==>
            name != "" && !Defined(s, m, name) && TargetSpec(m, name, Remove(kwargs, "target_class"), validVar).Ok?)
      && (o.result.Err? ==> o.store == s)
      && (o.result.Ok? ==>
            && o.result.value == TargetRef(m, name)
            && |o.store.mods| == |s.mods|
            && name in o.store.mods[m].targets
            && Ok(o.store.mods[m].targets[name]) == TargetSpec(m, name, Remove(kwargs, "target_class"), validVar))
  {
    ResolvePlain(s, m, name);
  }

  /** A declared target is bound in the locals under its name. */
  lemma TargetDeclBound(s: Store, m: nat, name: string, kwargs: Kwargs, validVar: string -> bool)
    requires Wf(s) && m < |s.mods|
    ensures var o := TargetDeclSpec(s, m, name, kwargs, validVar);
      o.result.Ok? ==>
        && |o.store.mods| == |s.mods| && Locals(o.store, m) == Locals(s, m)
        && GetAttr(o.store, Locals(o.store, m), name) == Some(TargetRef(m, name))
  {
    var o := TargetDeclSpec(s, m, name, kwargs, validVar);
    if o.result.Ok? {
      var loc := s.mods[m].locals;
      var t := TargetSpec(m, name, Remove(kwargs, "target_class"), validVar).value;
      var s1 := s.(mods := s.mods[m := s.mods[m].(targets := s.mods[m].targets[name := t])]);
      assert o.store == SetAttr(s1, loc, name, TargetRef(m, name));
      assert o.store.entities[loc].attrs[name] == TargetRef(m, name);
    }
  }

  /** A declared target is found by `get`, and declaring it again is
      refused. */
  lemma TargetDeclBinds(s: Store, m: nat, name: string, kwargs: Kwargs, validVar: string -> bool)
    requires Wf(s) && m < |s.mods| && '.' !in name
    ensures var o := TargetDeclSpec(s, m, name, kwargs, validVar);
      o.result.Ok? ==>
        && GetSpec(o.store, m, name, None, false) == Ok(TargetRef(m, name))
        && TargetDeclSpec(o.store, m, name, kwargs, validVar).result == Err(TargetOverridesLocal(name))
  {
    var o := TargetDeclSpec(s, m, name, kwargs, validVar);
    if o.result.Ok? {
      TargetDeclBound(s, m, name, kwargs, validVar);
      ResolvePlain(o.store, m, name);
    }
  }

  // ----- Module.get_namespace -----

  /** `Module.get_namespace(name)`: the session's namespace, with the root
      namespace bound in the module's locals under its own name. */
  function ModuleGetNamespaceSpec(s: Store, validIdent: string -> bool, m: nat, name: string): (o: Outcome<Value>)
    requires Wf(s) && m < |s.mods|
    ensures Wf(o.store) && o.store.mods == s.mods && o.store.modules == s.modules
    ensures o.store.idcache == s.idcache && o.store.filecache == s.filecache
  {
    var g := GetNamespaceSpec(s, validIdent, name);
    if g.result.Err? then g
    else
      var root := Split(name, '.')[0];
      var r := GetNamespaceSpec(g.store, validIdent, root);
      if r.result.Err? then Outcome(Err(r.result.error), r.store)
      else Outcome(g.result, SetAttr(r.store, s.mods[m].locals, root, r.result.value))
  }

  /** Afterwards the root namespace is bound in the locals and the result
      is the namespace asked for. */
  lemma ModuleGetNamespaceBinds(s: Store, validIdent: string -> bool, m: nat, name: string)
    requires Wf(s) && m < |s.mods|
    ensures var o := ModuleGetNamespaceSpec(s, validIdent, m, name);
      var root := Split(name, '.')[0];
      && (o.result.Ok? <==> validIdent(name) && validIdent(root))
      && (o.result.Ok? ==> o.result.value == NsProxy(name) && GetAttr(o.store, Locals(o.store, m), root) == Some(NsProxy(root)))
  {
    if validIdent(name) {
      NamespaceExists(s, validIdent, name);
      var g := GetNamespaceSpec(s, validIdent, name);
      var root := Split(name, '.')[0];
      if validIdent(root) {
        NamespaceExists(g.store, validIdent, root);
        var r := GetNamespaceSpec(g.store, validIdent, root);
        assert r.result == Ok(NsProxy(root));
        var loc := s.mods[m].locals;
        var st := SetAttr(r.store, loc, root, NsProxy(root));
        assert st.entities[loc].attrs[root] == NsProxy(root);
        assert ModuleGetNamespaceSpec(s, validIdent, m, name) == Outcome(Ok(NsProxy(name)), st);
      }
    }
  }

  lemma ModuleGetNamespaceKeeps(s: Store, validIdent: string -> bool, m: nat, name: string)
    requires Coherent(s) && m < |s.mods|
    ensures var o := ModuleGetNamespaceSpec(s, validIdent, m, name);
      Coherent(o.store) && Grows(s, o.store)
  {
    var o := ModuleGetNamespaceSpec(s, validIdent, m, name);
    GetNamespaceGrows(s, validIdent, name);
    var g := GetNamespaceSpec(s, validIdent, name);
    if g.result.Ok? {
      var root := Split(name, '.')[0];
      BindRootGrows(g.store, validIdent, m, root);
      var r := GetNamespaceSpec(g.store, validIdent, root);
      var st := if r.result.Err? then r.store else SetAttr(r.store, s.mods[m].locals, root, r.result.value);
      assert o.store == st;
      GrowsTransitive(s, g.store, st);
    }
  }

  /** Creating the root namespace and binding it in the locals. */
  lemma BindRootGrows(t: Store, validIdent: string -> bool, m: nat, root: string)
    requires Coherent(t) && m < |t.mods|
    ensures var r := GetNamespaceSpec(t, validIdent, root);
      var st := if r.result.Err? then r.store else SetAttr(r.store, t.mods[m].locals, root, r.result.value);
      Coherent(st) && Grows(t, st)
  {
    GetNamespaceGrows(t, validIdent, root);
    var r := GetNamespaceSpec(t, validIdent, root);
    if r.result.Ok? {
      SetAttrKeeps(r.store, t.mods[m].locals, root, r.result.value);
      GrowsTransitive(t, r.store, SetAttr(r.store, t.mods[m].locals, root, r.result.value));
    }
  }

  // ----- Module.load_module -----

  /** The module name `load_module` accepts: a string, or a namespace
      entity (directly or through its proxy), whose id after `ns:` is the
      name. */
  function NameOf(s: Store, v: Value): Result<string, RuntimeFault> {
    match v
    case Data(JStr(n)) => Ok(n)
    case NsProxy(_) | EntityRef(_) =>
      (match Deref(s, v)
       case None => Err(ExpectedNameOrNamespace)
       case Some(e) =>
         var eid := s.entities[e].entityId;
         if StartsWith(eid, "ns:") then Ok(eid[3..]) else Err(NotNamespaceEntity(eid)))
    case _ => Err(ExpectedNameOrNamespace)
  }

  /** The first precondition the entity's attributes do not already
      satisfy. */
  function FirstConflict(attrs: map<string, Value>, pre: seq<(string, Value)>): (r: Option<nat>)
    ensures r.Some? ==> r.value < |pre|
  {
    if pre == [] then None
    else if pre[0].0 !in attrs || attrs[pre[0].0] != pre[0].1 then Some(0)
    else match FirstConflict(attrs, pre[1..])
      case None => None
      case Some(i) => Some(i + 1)
  }

  predicate Satisfies(attrs: map<string, Value>, p: (string, Value)) {
    p.0 in attrs && attrs[p.0] == p.1
  }

  /** The conflict reported is the first precondition not satisfied, and
      there is none exactly when all are. */
  lemma {:induction false} FirstConflictIsFirst(attrs: map<string, Value>, pre: seq<(string, Value)>)
    ensures FirstConflict(attrs, pre).None? <==> forall i :: 0 <= i < |pre| ==> Satisfies(attrs, pre[i])
    ensures FirstConflict(attrs, pre).Some? ==>
      var i := FirstConflict(attrs, pre).value;
      !Satisfies(attrs, pre[i]) && forall j :: 0 <= j < i ==> Satisfies(attrs, pre[j])
  {
    if pre != [] {
      FirstConflictIsFirst(attrs, pre[1..]);
      assert forall i :: 1 <= i < |pre| ==> pre[i] == pre[1..][i - 1];
    }
  }

  /** `setattr(ns, key, value)` for each precondition, in order. */
  function SetAll(s: Store, e: nat, pre: seq<(string, Value)>): (r: Store)
    requires e < |s.entities|
    ensures |r.entities| == |s.entities|
    decreases |pre|
  {
    if pre == [] then s else SetAll(SetAttr(s, e, pre[0].0, pre[0].1), e, pre[1..])
  }

  /** Every precondition is set, the last one of a key winning; no other
      attribute of the entity changes. */
  lemma SetAllSets(s: Store, e: nat, pre: seq<(string, Value)>)
    requires e < |s.entities|
    ensures var r := SetAll(s, e, pre);
      && (forall k :: k in r.entities[e].attrs <==> k in s.entities[e].attrs || exists i :: 0 <= i < |pre| && pre[i].0 == k)
      && (forall i :: 0 <= i < |pre| && (forall j :: i < j < |pre| ==> pre[j].0 != pre[i].0) ==>
            r.entities[e].attrs[pre[i].0] == pre[i].1)
      && (forall k :: k in s.entities[e].attrs && (forall i :: 0 <= i < |pre| ==> pre[i].0 != k) ==>
            r.entities[e].attrs[k] == s.entities[e].attrs[k])
  {
    SetAllKeys(s, e, pre);
    SetAllLastWins(s, e, pre);
    SetAllKeepsOthers(s, e, pre);
  }

  lemma SetAllKeys(s: Store, e: nat, pre: seq<(string, Value)>)
    requires e < |s.entities|
    ensures var r := SetAll(s, e, pre);
      forall k :: k in r.entities[e].attrs <==> k in s.entities[e].attrs || exists i :: 0 <= i < |pre| && pre[i].0 == k
  {
    SetAllAttrs(s, e, pre);
    AssignAllKeys(s.entities[e].attrs, pre);
  }

  lemma SetAllLastWins(s: Store, e: nat, pre: seq<(string, Value)>)
    requires e < |s.entities|
    ensures var r := SetAll(s, e, pre);
      forall i :: 0 <= i < |pre| && (forall j :: i < j < |pre| ==> pre[j].0 != pre[i].0) ==>
        pre[i].0 in r.entities[e].attrs && r.entities[e].attrs[pre[i].0] == pre[i].1
  {
    SetAllAttrs(s, e, pre);
    AssignAllLastWins(s.entities[e].attrs, pre);
  }

  /** The attributes `setattr` leaves after each precondition in turn. */
  function AssignAll(attrs: map<string, Value>, pre: seq<(string, Value)>): map<string, Value>
    decreases |pre|
  {
    if pre == [] then attrs else AssignAll(attrs[pre[0].0 := pre[0].1], pre[1..])
  }

  lemma {:induction false} SetAllAttrs(s: Store, e: nat, pre: seq<(string, Value)>)
    requires e < |s.entities|
    ensures SetAll(s, e, pre).entities[e].attrs == AssignAll(s.entities[e].attrs, pre)
    decreases |pre|
  {
    if pre != [] {
      SetAllAttrs(SetAttr(s, e, pre[0].0, pre[0].1), e, pre[1..]);
    }
  }

  lemma {:induction false} AssignAllLastWins(attrs: map<string, Value>, pre: seq<(string, Value)>)
    ensures var r := AssignAll(attrs, pre);
      forall i :: 0 <= i < |pre| && (forall j :: i < j < |pre| ==> pre[j].0 != pre[i].0) ==>
        pre[i].0 in r && r[pre[i].0] == pre[i].1
    decreases |pre|
  {
    if pre != [] {
      var a1 := attrs[pre[0].0 := pre[0].1];
      var rest := pre[1..];
      var r := AssignAll(attrs, pre);
      assert r == AssignAll(a1, rest);
      AssignAllLastWins(a1, rest);
      forall i | 0 <= i < |pre| && (forall j :: i < j < |pre| ==> pre[j].0 != pre[i].0)
        ensures pre[i].0 in r && r[pre[i].0] == pre[i].1
      {
        if i == 0 {
          HeadKeyUnused(pre);
          AssignAllKeeps(a1, rest, pre[0].0);
        } else {
          TailLast(pre, i);
        }
      }
    }
  }

  lemma HeadKeyUnused(pre: seq<(string, Value)>)
    requires pre != [] && forall j :: 0 < j < |pre| ==> pre[j].0 != pre[0].0
    ensures forall l :: 0 <= l < |pre[1..]| ==> pre[1..][l].0 != pre[0].0
  {
    forall l | 0 <= l < |pre[1..]|
      ensures pre[1..][l].0 != pre[0].0
    {
      assert pre[1..][l] == pre[l + 1];
    }
  }

  lemma TailLast(pre: seq<(string, Value)>, i: nat)
    requires 0 < i < |pre| && forall j :: i < j < |pre| ==> pre[j].0 != pre[i].0
    ensures pre[1..][i - 1] == pre[i]
    ensures forall j :: i - 1 < j < |pre[1..]| ==> pre[1..][j].0 != pre[1..][i - 1].0
  {
    forall j | i - 1 < j < |pre[1..]|
      ensures pre[1..][j].0 != pre[1..][i - 1].0
    {
      assert pre[1..][j] == pre[j + 1];
    }
  }

  /** The keys after the assignments: the old ones and every key assigned. */
  lemma {:induction false} AssignAllKeys(attrs: map<string, Value>, pre: seq<(string, Value)>)
    ensures forall k :: k in AssignAll(attrs, pre) <==> k in attrs || exists i :: 0 <= i < |pre| && pre[i].0 == k
    decreases |pre|
  {
    if pre != [] {
      var a1 := attrs[pre[0].0 := pre[0].1];
      AssignAllKeys(a1, pre[1..]);
      assert AssignAll(attrs, pre) == AssignAll(a1, pre[1..]);
      forall k
        ensures k in AssignAll(attrs, pre) <==> k in attrs || exists i :: 0 <= i < |pre| && pre[i].0 == k
      {
        if k in AssignAll(attrs, pre) && k !in attrs && k != pre[0].0 {
          var i :| 0 <= i < |pre[1..]| && pre[1..][i].0 == k;
          assert pre[i + 1].0 == k;
        }
        if k != pre[0].0 && k !in attrs && exists i :: 0 <= i < |pre| && pre[i].0 == k {
          var i :| 0 <= i < |pre| && pre[i].0 == k;
          assert pre[1..][i - 1].0 == k;
        }
      }
    }
  }

  /** A key none of the preconditions names keeps its attribute. */
  lemma {:induction false} AssignAllKeeps(attrs: map<string, Value>, pre: seq<(string, Value)>, k: string)
    requires k in attrs && forall i :: 0 <= i < |pre| ==> pre[i].0 != k
    ensures k in AssignAll(attrs, pre) && AssignAll(attrs, pre)[k] == attrs[k]
    decreases |pre|
  {
    if pre != [] {
      AssignAllKeeps(attrs[pre[0].0 := pre[0].1], pre[1..], k);
    }
  }

  lemma SetAllKeepsOthers(s: Store, e: nat, pre: seq<(string, Value)>)
    requires e < |s.entities|
    ensures var r := SetAll(s, e, pre);
      forall k :: k in s.entities[e].attrs && (forall i :: 0 <= i < |pre| ==> pre[i].0 != k) ==>
        k in r.entities[e].attrs && r.entities[e].attrs[k] == s.entities[e].attrs[k]
  {
    SetAllAttrs(s, e, pre);
    forall k | k in s.entities[e].attrs && (forall i :: 0 <= i < |pre| ==> pre[i].0 != k)
      ensures k in AssignAll(s.entities[e].attrs, pre)
      ensures AssignAll(s.entities[e].attrs, pre)[k] == s.entities[e].attrs[k]
    {
      AssignAllKeeps(s.entities[e].attrs, pre, k);
    }
  }

  /** `SetAll` changes the attributes of entity `e` and nothing else. */
  lemma {:induction false} SetAllElsewhere(s: Store, e: nat, pre: seq<(string, Value)>)
    requires e < |s.entities|
    ensures var r := SetAll(s, e, pre);
      && r == s.(entities := r.entities)
      && r.entities[e].entityId == s.entities[e].entityId
      && (forall x :: 0 <= x < |s.entities| && x != e ==> r.entities[x] == s.entities[x])
    decreases |pre|
  {
    if pre != [] {
      SetAllElsewhere(SetAttr(s, e, pre[0].0, pre[0].1), e, pre[1..]);
    }
  }

  /** Preconditions with distinct keys, once set, are satisfied. */
  lemma SetAllSatisfies(s: Store, e: nat, pre: seq<(string, Value)>)
    requires e < |s.entities| && forall i, j :: 0 <= i < j < |pre| ==> pre[i].0 != pre[j].0
    ensures FirstConflict(SetAll(s, e, pre).entities[e].attrs, pre).None?
  {
    SetAllSets(s, e, pre);
    FirstConflictIsFirst(SetAll(s, e, pre).entities[e].attrs, pre);
  }

  /** `Module.load_module(name, **preconditions)` of module `m`: a module
      already loaded must satisfy the preconditions; otherwise they are set
      on its namespace first. The module is then loaded (searched for if
      need be, and registered), its root namespace bound in `m`'s locals,
      and its locals returned. */
  function ModuleLoadSpec(s: Store, env: Env, m: nat, nameArg: Value, pre: seq<(string, Value)>): (o: Outcome<Value>)
    requires Wf(s) && m < |s.mods|
    ensures Wf(o.store) && |s.mods| <= |o.store.mods|
  {
    match NameOf(s, nameArg)
    case Err(f) => Outcome(Err(f), s)
    case Ok(name) =>
      var p := Prepared(s, env.validIdent, name, pre);
      if p.result.Err? then Outcome(Err(p.result.error), p.store)
      else
        var l := LoadModuleSpec(p.store, env, name, Some(ModuleRepr(s.mods[m])), true, true);
        if l.result.Err? then Outcome(Err(l.result.error), l.store)
        else
          var loaded := l.store.mods[l.result.value].locals;
          var n := ModuleGetNamespaceSpec(l.store, env.validIdent, m, Split(name, '.')[0]);
          if n.result.Err? then Outcome(Err(n.result.error), n.store)
          else Outcome(Ok(EntityRef(loaded)), n.store)
  }

  /** The precondition step: checked against a loaded module, or set on
      the namespace of one not loaded yet. */
  function Prepared(s: Store, validIdent: string -> bool, name: string, pre: seq<(string, Value)>): (o: Outcome<()>)
    requires Wf(s)
    ensures Wf(o.store) && o.store.mods == s.mods && o.store.modules == s.modules
    ensures o.store.idcache == s.idcache && o.store.filecache == s.filecache
  {
    if name in s.modules then
      var mod := s.mods[s.modules[name]];
      match FirstConflict(s.entities[mod.locals].attrs, pre)
      case None => Outcome(Ok(()), s)
      case Some(i) => Outcome(Err(PreconditionConflict(mod.identifier, pre[i].0, pre[i].1)), s)
    else
      var g := GetNamespaceSpec(s, validIdent, name);
      if g.result.Err? then Outcome(Err(g.result.error), g.store)
      else
        NamespaceExists(s, validIdent, name);
        var e := g.store.namespaces[name];
        SetAllElsewhere(g.store, e, pre);
        Outcome(Ok(()), SetAll(g.store, e, pre))
  }

  /** For a module already loaded, `load_module` fails exactly when a
      precondition is missing from its locals or has another value, and
      names the first such one. */
  lemma PreconditionConflictIff(s: Store, env: Env, m: nat, name: string, pre: seq<(string, Value)>)
    requires Wf(s) && m < |s.mods| && name in s.modules
    ensures var mod := s.mods[s.modules[name]];
      var o := ModuleLoadSpec(s, env, m, Data(JStr(name)), pre);
      && ((o.result.Err? && o.result.error.PreconditionConflict?) <==>
            exists i :: 0 <= i < |pre| && !Satisfies(s.entities[mod.locals].attrs, pre[i]))
      && (o.result.Err? && o.result.error.PreconditionConflict? ==>
            exists i :: 0 <= i < |pre| && o.result.error == PreconditionConflict(mod.identifier, pre[i].0, pre[i].1)
              && !Satisfies(s.entities[mod.locals].attrs, pre[i]))
  {
    var mod := s.mods[s.modules[name]];
    FirstConflictIsFirst(s.entities[mod.locals].attrs, pre);
    var p := Prepared(s, env.validIdent, name, pre);
    if p.result.Ok? {
      LoadNeverConflicts(p.store, env, name, Some(ModuleRepr(s.mods[m])));
      var l := LoadModuleSpec(p.store, env, name, Some(ModuleRepr(s.mods[m])), true, true);
    }
  }

  /** A registered module is returned as it is. */
  lemma LoadNeverConflicts(s: Store, env: Env, name: string, requiredBy: Option<string>)
    requires Wf(s) && name in s.modules
    ensures var l := LoadModuleSpec(s, env, name, requiredBy, true, true);
      l.store == s && (l.result.Err? <==> !env.validIdent(name))
  {
  }

  /** Loading through a module keeps the caches coherent; the result is
      the locals of the registered module of that name, and the root of
      the name is bound in the loading module's locals. */
  lemma ModuleLoadBinds(s: Store, env: Env, m: nat, nameArg: Value, pre: seq<(string, Value)>)
    requires Coherent(s) && m < |s.mods|
    ensures var o := ModuleLoadSpec(s, env, m, nameArg, pre);
      && Coherent(o.store) && Grows(s, o.store)
      && (o.result.Ok? ==>
            var name := NameOf(s, nameArg).value;
            var root := Split(name, '.')[0];
            && name in o.store.modules
            && o.result.value == EntityRef(o.store.mods[o.store.modules[name]].locals)
            && o.store.mods[o.store.modules[name]].identifier == name
            && GetAttr(o.store, Locals(o.store, m), root) == Some(NsProxy(root)))
  {
    var o := ModuleLoadSpec(s, env, m, nameArg, pre);
    if NameOf(s, nameArg).Ok? {
      var name := NameOf(s, nameArg).value;
      PreparedKeeps(s, env.validIdent, name, pre);
      var p := Prepared(s, env.validIdent, name, pre);
      if p.result.Ok? {
        var req := Some(ModuleRepr(s.mods[m]));
        LoadModuleKeeps(p.store, env, name, req, true, true);
        var l := LoadModuleSpec(p.store, env, name, req, true, true);
        GrowsTransitive(s, p.store, l.store);
        if l.result.Ok? {
          var root := Split(name, '.')[0];
          ModuleGetNamespaceKeeps(l.store, env.validIdent, m, root);
          ModuleGetNamespaceBinds(l.store, env.validIdent, m, root);
          GrowsTransitive(s, l.store, ModuleGetNamespaceSpec(l.store, env.validIdent, m, root).store);
        }
      }
    }
  }

  lemma PreparedKeeps(s: Store, validIdent: string -> bool, name: string, pre: seq<(string, Value)>)
    requires Coherent(s)
    ensures var p := Prepared(s, validIdent, name, pre);
      Coherent(p.store) && Grows(s, p.store)
  {
    var p := Prepared(s, validIdent, name, pre);
    if name !in s.modules {
      GetNamespaceGrows(s, validIdent, name);
      var g := GetNamespaceSpec(s, validIdent, name);
      if g.result.Ok? {
        NamespaceExists(s, validIdent, name);
        SetAllElsewhere(g.store, g.store.namespaces[name], pre);
        assert Grows(g.store, p.store);
        GrowsTransitive(s, g.store, p.store);
      }
    }
    SameModulesKeep(s, p.store);
  }
}
