/** The string handling of the command line in `craftr/__main__.py`: module
    specs `name[:version]`, the `-<version>` suffix of a module name, the
    flattening of a configuration file into `section.option` keys, the
    `-d key[=value]` overrides and the qualification of target names given
    to `craftr build`. `Version(s)` and `VersionCriteria(s)` are library
    code; whether they accept a string is a parameter. */
module Cli {
  import opened Base
  import opened Text

  /** What `parse_module_spec` returns as the version: a `Version` or,
      when that raised `ValueError`, a `VersionCriteria`. */
  datatype VersionSpec = ExactVersion(text: string) | Criteria(text: string)

  datatype CliError =
    | InvalidModuleSpec(spec: string)    // more than one ':'
    | InvalidCriteria(text: string)      // `VersionCriteria(text)` raised too

  /** `Version(parts[1])`, falling back to `VersionCriteria(parts[1])`. */
  function VersionOf(text: string, versionOk: string -> bool, criteriaOk: string -> bool): (r: Result<VersionSpec, CliError>)
    ensures r.Ok? ==> r.value.text == text
    ensures r.Ok? && r.value.ExactVersion? <==> versionOk(text)
    ensures r.Err? <==> !versionOk(text) && !criteriaOk(text)
  {
    if versionOk(text) then Ok(ExactVersion(text))
    else if criteriaOk(text) then Ok(Criteria(text))
    else Err(InvalidCriteria(text))
  }

  /** The outcome of `parse_module_spec` for a name and a version outcome. */
  function Named(name: string, v: Result<VersionSpec, CliError>): Result<(string, VersionSpec), CliError> {
    match v
    case Err(e) => Err(e)
    case Ok(spec) => Ok((name, spec))
  }

  /** `parse_module_spec(spec)`: `spec.split(':')` must give one or two
      parts; a missing version is `'*'`. */
  function ParseModuleSpec(spec: string, versionOk: string -> bool, criteriaOk: string -> bool): (r: Result<(string, VersionSpec), CliError>)
    ensures r.Ok? ==> (':' !in r.value.0
      && (spec == r.value.0 + ":" + r.value.1.text || (spec == r.value.0 && r.value.1.text == "*")))
    ensures r.Err? ==> (r.error == InvalidModuleSpec(spec)
      || (r.error.InvalidCriteria? && !versionOk(r.error.text) && !criteriaOk(r.error.text)))
  {
    var parts := Split(spec, ':');
    JoinSplit(spec, ':');
    assert |parts| == 2 ==> Join(parts, ':') == parts[0] + [':'] + Join(parts[1..], ':');
    if |parts| > 2 then Err(InvalidModuleSpec(spec))
    else
      var text := if |parts| == 1 then "*" else parts[1];
      Named(parts[0], VersionOf(text, versionOk, criteriaOk))
  }

  lemma SplitTwo(a: string, b: string)
    requires ':' !in a && ':' !in b
    ensures Split(a + ":" + b, ':') == [a, b]
  {
    assert Join([a, b], ':') == a + ":" + b by {
      assert Join([a, b][1..], ':') == b;
    }
    SplitJoin([a, b], ':');
  }

  /** A module name alone names the module in any version. */
  lemma ParseModuleSpecBare(name: string, versionOk: string -> bool, criteriaOk: string -> bool)
    requires ':' !in name
    ensures ParseModuleSpec(name, versionOk, criteriaOk) == Named(name, VersionOf("*", versionOk, criteriaOk))
  {
  }

  /** `name:version` gives back the name and the version text. */
  lemma ParseModuleSpecPair(name: string, version: string, versionOk: string -> bool, criteriaOk: string -> bool)
    requires ':' !in name && ':' !in version
    ensures ParseModuleSpec(name + ":" + version, versionOk, criteriaOk) == Named(name, VersionOf(version, versionOk, criteriaOk))
  {
    SplitTwo(name, version);
  }

  /** The spec is refused as malformed exactly when it holds two or more
      colons; a parsed spec is the name, or the name and the version text
      joined by ':'. */
  lemma ParseModuleSpecShape(spec: string, versionOk: string -> bool, criteriaOk: string -> bool)
    ensures var r := ParseModuleSpec(spec, versionOk, criteriaOk);
      (r == Err(InvalidModuleSpec(spec)) <==> |Split(spec, ':')| > 2)
      && (r.Ok? ==> ':' !in r.value.0
                    && (spec == r.value.0 || spec == r.value.0 + ":" + r.value.1.text))
  {
    var parts := Split(spec, ':');
    JoinSplit(spec, ':');
    if |parts| == 2 {
      assert Join(parts, ':') == parts[0] + [':'] + Join(parts[1..], ':');
    }
  }

  /** `get_volatile_module_version(name)` as written: `name.rpartition('-')`
      always has a head and a tail, so a name without '-' is tried as a
      version in full and, when it is one, comes back with an empty name.
      (The `len(parts) != 2` branch cannot be taken.) */
  function VolatileVersionAsWritten(name: string, versionOk: string -> bool): (r: (string, Option<string>))
    ensures r.1.None? ==> r.0 == name
  {
    var (head, tail) := RPartition(name, '-');
    if versionOk(tail) then (head, Some(tail)) else (name, None)
  }

  /** As written, a name with no hyphen that reads as a version loses its
      name: `"1.0"` becomes `("", Version("1.0"))`. */
  lemma VolatileVersionLosesName(name: string, versionOk: string -> bool)
    requires name != "" && '-' !in name && versionOk(name)
    ensures VolatileVersionAsWritten(name, versionOk) == ("", Some(name))
    ensures VolatileVersionAsWritten(name, versionOk).0 != name
  {
  }

  /** `get_volatile_module_version` as its documentation describes it: only
      a version suffixed with '-' is split off. */
  function VolatileVersion(name: string, versionOk: string -> bool): (r: (string, Option<string>))
    ensures match r.1
      case None => r.0 == name
      case Some(v) => name == r.0 + "-" + v && '-' !in v && versionOk(v)
  {
    if '-' !in name then (name, None)
    else VolatileVersionAsWritten(name, versionOk)
  }

  /** The suffix split off is a version without '-' and the name is
      exactly what precedes it; otherwise the name is kept whole. */
  lemma VolatileVersionSplits(name: string, versionOk: string -> bool)
    ensures var r := VolatileVersion(name, versionOk);
      match r.1
      case None => r.0 == name
      case Some(v) => name == r.0 + "-" + v && '-' !in v && versionOk(v)
  {
  }

  /** Appending `-<version>` to a name and splitting it again gives both
      back. */
  lemma VolatileVersionRoundTrip(name: string, version: string, versionOk: string -> bool)
    requires '-' !in version && versionOk(version)
    ensures VolatileVersion(name + "-" + version, versionOk) == (name, Some(version))
  {
    RPartitionAppend(name, version, '-');
    assert (name + "-" + version)[|name|] == '-';
  }

  /** The two agree whenever the name holds a '-'. */
  lemma VolatileVersionAgrees(name: string, versionOk: string -> bool)
    ensures VolatileVersion(name, versionOk) == VolatileVersionAsWritten(name, versionOk)
            <==> '-' in name || !versionOk(name)
  {
  }

  // ---------------------------------------------------------------------
  // read_config_file

  /** A configuration file as `configparser` reads it: its sections in
      order, each with its options and their values in order. */
  datatype ConfigFile = ConfigFile(sections: seq<(string, seq<(string, string)>)>)

  /** The key an option is stored under: `'{}.{}'.format(section, option)`. */
  function Key(section: string, option: string): string {
    section + "." + option
  }

  /** The assignments of one section, in order. */
  function SectionPairs(section: string, options: seq<(string, string)>): (ps: seq<(string, string)>)
    ensures |ps| == |options|
    ensures forall j :: 0 <= j < |options| ==> ps[j] == (Key(section, options[j].0), options[j].1)
  {
    seq(|options|, j requires 0 <= j < |options| => (Key(section, options[j].0), options[j].1))
  }

  /** The assignments of the whole file, section after section. */
  function Entries(sections: seq<(string, seq<(string, string)>)>): seq<(string, string)> {
    if |sections| == 0 then []
    else
      var last := sections[|sections| - 1];
      Entries(sections[..|sections| - 1]) + SectionPairs(last.0, last.1)
  }

  /** The dictionary that a sequence of assignments `result[k] = v` leaves. */
  function Assigned(ps: seq<(string, string)>): map<string, string> {
    if |ps| == 0 then map[]
    else Assigned(ps[..|ps| - 1])[ps[|ps| - 1].0 := ps[|ps| - 1].1]
  }

  /** What `read_config_file` returns; `None` is a path that is not a file. */
  function ReadConfig(file: Option<ConfigFile>): map<string, string> {
    match file
    case None => map[]
    case Some(c) => Assigned(Entries(c.sections))
  }

  /** A key is assigned exactly when some assignment names it. */
  lemma {:induction false} AssignedKeys(ps: seq<(string, string)>, k: string)
    ensures k in Assigned(ps) <==> exists j :: 0 <= j < |ps| && ps[j].0 == k
    decreases |ps|
  {
    if |ps| > 0 {
      var init := ps[..|ps| - 1];
      AssignedKeys(init, k);
      if exists j :: 0 <= j < |init| && init[j].0 == k {
        var j :| 0 <= j < |init| && init[j].0 == k;
        assert ps[j].0 == k;
      }
      if exists j :: 0 <= j < |ps| && ps[j].0 == k {
        var j :| 0 <= j < |ps| && ps[j].0 == k;
        if j < |init| {
          assert init[j].0 == k;
        }
      }
    }
  }

  /** The value of a key is the one of the last assignment that names it. */
  lemma {:induction false} AssignedLastWins(ps: seq<(string, string)>, j: nat)
    requires j < |ps|
    requires forall l :: j < l < |ps| ==> ps[l].0 != ps[j].0
    ensures ps[j].0 in Assigned(ps) && Assigned(ps)[ps[j].0] == ps[j].1
    decreases |ps|
  {
    if j < |ps| - 1 {
      var init := ps[..|ps| - 1];
      AssignedLastWins(init, j);
    }
  }

  /** Every entry of the file is found among its assignments and every
      assignment comes from an entry. */
  lemma {:induction false} EntriesFrom(sections: seq<(string, seq<(string, string)>)>, p: (string, string))
    ensures p in Entries(sections) <==>
      exists i, j :: 0 <= i < |sections| && 0 <= j < |sections[i].1|
        && p == (Key(sections[i].0, sections[i].1[j].0), sections[i].1[j].1)
    decreases |sections|
  {
    if |sections| > 0 {
      var n := |sections| - 1;
      var init := sections[..n];
      EntriesFrom(init, p);
      var tail := SectionPairs(sections[n].0, sections[n].1);
      assert Entries(sections) == Entries(init) + tail;
      if p in tail {
        var j :| 0 <= j < |tail| && tail[j] == p;
        assert p == (Key(sections[n].0, sections[n].1[j].0), sections[n].1[j].1);
      }
      if exists i, j :: 0 <= i < |sections| && 0 <= j < |sections[i].1| && p == (Key(sections[i].0, sections[i].1[j].0), sections[i].1[j].1) {
        var i, j :| 0 <= i < |sections| && 0 <= j < |sections[i].1|
          && p == (Key(sections[i].0, sections[i].1[j].0), sections[i].1[j].1);
        if i < n {
          assert init[i] == sections[i];
        } else {
          assert tail[j] == p;
        }
      }
    }
  }

  /** An assigned key holds the value of one of the assignments naming it. */
  lemma {:induction false} AssignedFrom(ps: seq<(string, string)>, k: string)
    requires k in Assigned(ps)
    ensures (k, Assigned(ps)[k]) in ps
    decreases |ps|
  {
    var init := ps[..|ps| - 1];
    if ps[|ps| - 1].0 != k {
      AssignedFrom(init, k);
      assert (k, Assigned(init)[k]) in init;
    }
  }

  /** `read_config_file`: a key `section.option` for every option of every
      section, holding the value of one such option, and nothing else. */
  lemma ReadConfigKeys(c: ConfigFile, k: string)
    ensures k in ReadConfig(Some(c)) <==>
      exists i, j :: 0 <= i < |c.sections| && 0 <= j < |c.sections[i].1|
        && k == Key(c.sections[i].0, c.sections[i].1[j].0)
    ensures k in ReadConfig(Some(c)) ==>
      exists i, j :: 0 <= i < |c.sections| && 0 <= j < |c.sections[i].1|
        && k == Key(c.sections[i].0, c.sections[i].1[j].0)
        && ReadConfig(Some(c))[k] == c.sections[i].1[j].1
  {
    var ps := Entries(c.sections);
    AssignedKeys(ps, k);
    if k in ReadConfig(Some(c)) {
      AssignedFrom(ps, k);
      EntriesFrom(c.sections, (k, Assigned(ps)[k]));
    } else {
      forall i, j | 0 <= i < |c.sections| && 0 <= j < |c.sections[i].1|
        ensures k != Key(c.sections[i].0, c.sections[i].1[j].0)
      {
        var p := (Key(c.sections[i].0, c.sections[i].1[j].0), c.sections[i].1[j].1);
        EntriesFrom(c.sections, p);
        assert p in ps;
      }
    }
  }

  /** `read_config_file(filename)`: the nested loops over the sections and
      their options, writing `result['section.option']` in turn. */
  method ReadConfigFile(file: Option<ConfigFile>) returns (result: map<string, string>)
    ensures result == ReadConfig(file)
  {
    result := map[];
    if file.None? {
      return;
    }
    var sections := file.value.sections;
    var i := 0;
    assert sections[..0] == [];
    while i < |sections|
      invariant 0 <= i <= |sections|
      invariant result == Assigned(Entries(sections[..i]))
      decreases |sections| - i
    {
      assert sections[..i + 1][..i] == sections[..i];
      result := ReadSection(Entries(sections[..i]), result, sections[i].0, sections[i].1);
      i := i + 1;
    }
    assert sections[..i] == sections;
  }

  /** The inner loop of `read_config_file`, over the options of one section. */
  method ReadSection(ghost before: seq<(string, string)>, result0: map<string, string>, section: string, options: seq<(string, string)>)
    returns (result: map<string, string>)
    requires result0 == Assigned(before)
    ensures result == Assigned(before + SectionPairs(section, options))
  {
    result := result0;
    var j := 0;
    assert before + SectionPairs(section, options[..0]) == before;
    while j < |options|
      invariant 0 <= j <= |options|
      invariant result == Assigned(before + SectionPairs(section, options[..j]))
      decreases |options| - j
    {
      ghost var ps := before + SectionPairs(section, options[..j + 1]);
      assert ps[..|ps| - 1] == before + SectionPairs(section, options[..j]);
      result := result[Key(section, options[j].0) := options[j].1];
      j := j + 1;
    }
    assert options[..j] == options;
  }

  // ---------------------------------------------------------------------
  // the -d loop

  /** One `-d item` as written: `key, sep, value = item.partition('=')`;
      without '=' the value is set to `'true'` and then dropped, with an
      empty value the key is popped, otherwise it is stored. */
  function DefineAsWritten(options: map<string, string>, item: string): (r: map<string, string>)
    ensures '=' in item ==> r == Define(options, item)
    ensures '=' !in item ==> r == options
  {
    var (key, sep, value) := Partition(item, '=');
    if !sep then options
    else if value == "" then options - {key}
    else options[key := value]
  }

  /** The items that hold a '=', in order. */
  function WithValue(items: seq<string>): (r: seq<string>)
    ensures forall i :: 0 <= i < |r| ==> '=' in r[i]
  {
    if |items| == 0 then []
    else if '=' in items[|items| - 1] then WithValue(items[..|items| - 1]) + [items[|items| - 1]]
    else WithValue(items[..|items| - 1])
  }

  /** The `-d` loop as written: the intended loop over the items that hold
      a '=', the others being dropped. */
  function DefinesAsWritten(options: map<string, string>, items: seq<string>): (r: map<string, string>)
    ensures r == Defines(options, WithValue(items))
  {
    if |items| == 0 then options
    else
      var init := items[..|items| - 1];
      var last := items[|items| - 1];
      assert '=' in last ==> (WithValue(init) + [last])[..|WithValue(init)|] == WithValue(init);
      DefineAsWritten(DefinesAsWritten(options, init), last)
  }

  /** The key one `-d` item names: the text before its first '='. */
  function DefineKey(item: string): string {
    Partition(item, '=').0
  }

  /** One `-d item` as intended: `-d key` stores `'true'`. */
  function Define(options: map<string, string>, item: string): (r: map<string, string>)
    ensures var (key, sep, value) := Partition(item, '=');
      (key in r <==> !sep || value != "")
      && (!sep ==> r[key] == "true")
      && (sep && value != "" ==> r[key] == value)
      && (forall k :: k != key ==> (k in r <==> k in options))
      && (forall k :: k != key && k in r ==> r[k] == options[k])
  {
    var (key, sep, value) := Partition(item, '=');
    if !sep then options[key := "true"]
    else if value == "" then options - {key}
    else options[key := value]
  }

  function Defines(options: map<string, string>, items: seq<string>): map<string, string> {
    if |items| == 0 then options
    else Define(Defines(options, items[..|items| - 1]), items[|items| - 1])
  }

  /** As written, `-d key` without '=' changes nothing, where the intended
      loop stores `'true'`. */
  lemma DefineFlagDropped(options: map<string, string>, item: string)
    requires '=' !in item
    ensures DefineAsWritten(options, item) == options
    ensures Define(options, item)[item] == "true"
  {
  }

  /** The two loops agree on items that all hold a '='. */
  lemma {:induction false} DefinesAgree(options: map<string, string>, items: seq<string>)
    requires forall i :: 0 <= i < |items| ==> '=' in items[i]
    ensures DefinesAsWritten(options, items) == Defines(options, items)
    decreases |items|
  {
    if |items| > 0 {
      DefinesAgree(options, items[..|items| - 1]);
    }
  }

  /** A key no item names keeps its entry. */
  lemma {:induction false} DefinesKeep(options: map<string, string>, items: seq<string>, k: string)
    requires forall i :: 0 <= i < |items| ==> DefineKey(items[i]) != k
    ensures k in Defines(options, items) <==> k in options
    ensures k in options ==> Defines(options, items)[k] == options[k]
    decreases |items|
  {
    if |items| > 0 {
      DefinesKeep(options, items[..|items| - 1], k);
    }
  }

  /** The last item naming a key decides it. */
  lemma {:induction false} DefinesLastWins(options: map<string, string>, items: seq<string>, i: nat)
    requires i < |items|
    requires forall l :: i < l < |items| ==> DefineKey(items[l]) != DefineKey(items[i])
    ensures var k := DefineKey(items[i]);
      (k in Defines(options, items) <==> k in Define(options, items[i]))
      && (k in Defines(options, items) ==> Defines(options, items)[k] == Define(options, items[i])[k])
    decreases |items|
  {
    if i < |items| - 1 {
      DefinesLastWins(options, items[..|items| - 1], i);
    }
  }

  /** The options of a build session: `session.options`. */
  class SessionOptions {
    var options: map<string, string>

    constructor (initial: map<string, string>)
      ensures options == initial
    {
      options := initial;
    }

    /** `session.options.update(config)`. */
    method Update(config: map<string, string>)
      modifies this
      ensures options == old(options) + config
    {
      options := options + config;
    }

    /** The `-d` loop of `build.execute`, as intended. */
    method ApplyDefines(items: seq<string>)
      modifies this
      ensures options == Defines(old(options), items)
    {
      var i := 0;
      while i < |items|
        invariant 0 <= i <= |items|
        invariant options == Defines(old(options), items[..i])
        decreases |items| - i
      {
        assert items[..i + 1][..i] == items[..i];
        var (key, sep, value) := Partition(items[i], '=');
        if !sep {
          options := options[key := "true"];
        } else if value == "" {
          options := options - {key};
        } else {
          options := options[key := value];
        }
        i := i + 1;
      }
      assert items[..i] == items;
    }
  }

  /** Lines 149-157 of `build.execute`: the configuration file first, then
      the `-d` items over it. */
  method Configure(session: SessionOptions, file: Option<ConfigFile>, items: seq<string>)
    modifies session
    ensures session.options == Defines(old(session.options) + ReadConfig(file), items)
  {
    var config := ReadConfigFile(file);
    session.Update(config);
    session.ApplyDefines(items);
  }

  // ---------------------------------------------------------------------
  // target qualification

  /** A target request: the module to look up, the version to look it up
      with (`None` is `'*'`) and the target's name in that module. */
  datatype TargetRequest = TargetRequest(moduleName: string, version: Option<string>, target: string)

  /** The first half of the loop body over `args.targets`: a name without
      '.' or with a leading '.' is relative to the current package and
      pinned to its version; the text before the last '.' then names the
      module and the text after it the target. */
  function Located(target: string, package: string, version: string): (string, string, Option<string>) {
    var (full, pinned) :=
      if '.' !in target then (package + "." + target, Some(version))
      else if StartsWith(target, ".") then (package + target, Some(version))
      else (target, None);
    var (moduleName, name) := RPartition(full, '.');
    (moduleName, name, pinned)
  }

  /** The loop body over `args.targets` as written: an unpinned module name
      goes through `get_volatile_module_version` as written. */
  function QualifyTargetAsWritten(target: string, package: string, version: string, versionOk: string -> bool): (r: TargetRequest)
    ensures '.' !in r.target
  {
    var (moduleName, name, pinned) := Located(target, package, version);
    if pinned.Some? then TargetRequest(moduleName, pinned, name)
    else
      var (m, v) := VolatileVersionAsWritten(moduleName, versionOk);
      TargetRequest(m, v, name)
  }

  /** The loop body over `args.targets` with the intended
      `get_volatile_module_version`, which splits off only a version that
      follows a '-'. */
  function QualifyTarget(target: string, package: string, version: string, versionOk: string -> bool): (r: TargetRequest)
    ensures '.' !in r.target
  {
    var (moduleName, name, pinned) := Located(target, package, version);
    if pinned.Some? then TargetRequest(moduleName, pinned, name)
    else
      var (m, v) := VolatileVersion(moduleName, versionOk);
      TargetRequest(m, v, name)
  }

  /** The two differ exactly on an absolute target whose module part has no
      '-' and reads as a version in full. */
  lemma QualifyAgrees(target: string, package: string, version: string, versionOk: string -> bool)
    ensures var (moduleName, _, pinned) := Located(target, package, version);
      QualifyTargetAsWritten(target, package, version, versionOk) == QualifyTarget(target, package, version, versionOk)
      <==> pinned.Some? || '-' in moduleName || !versionOk(moduleName)
  {
    var (moduleName, name, pinned) := Located(target, package, version);
    if pinned.None? {
      VolatileVersionAgrees(moduleName, versionOk);
    }
  }

  /** `craftr build 1.0.x`, when `1.0` reads as a version: as written the
      module name is lost and `x` is looked up in a module named `''`. */
  lemma QualifyLosesModule(package: string, version: string, versionOk: string -> bool)
    requires versionOk("1.0")
    ensures QualifyTargetAsWritten("1.0.x", package, version, versionOk) == TargetRequest("", Some("1.0"), "x")
    ensures QualifyTarget("1.0.x", package, version, versionOk) == TargetRequest("1.0", None, "x")
  {
    assert "1.0.x"[3] == '.';
    assert "1.0.x"[1] == '.';
    assert "1.0.x"[0] != '.';
    RPartitionAppend("1.0", "x", '.');
    assert "1.0" + "." + "x" == "1.0.x";
    RPartitionAppend("", "1.0", '-');
    assert RPartition("1.0", '-') == ("", "1.0");
  }

  /** A bare target name refers to the current package in its version. */
  lemma QualifyBare(target: string, package: string, version: string, versionOk: string -> bool)
    requires '.' !in target
    ensures QualifyTarget(target, package, version, versionOk) == TargetRequest(package, Some(version), target)
    ensures QualifyTargetAsWritten(target, package, version, versionOk) == TargetRequest(package, Some(version), target)
  {
    RPartitionAppend(package, target, '.');
  }

  /** `.name` is the same as `name`. */
  lemma QualifyRelative(target: string, package: string, version: string, versionOk: string -> bool)
    requires '.' !in target
    ensures QualifyTarget("." + target, package, version, versionOk) == QualifyTarget(target, package, version, versionOk)
    ensures QualifyTargetAsWritten("." + target, package, version, versionOk) == QualifyTargetAsWritten(target, package, version, versionOk)
  {
    assert package + ("." + target) == package + "." + target;
    RPartitionAppend(package, target, '.');
  }

  /** `module.name` looks `name` up in `module`, splitting a version off the
      module name; module, version and name put together give the request
      back. */
  lemma QualifyAbsolute(name: string, target: string, package: string, version: string, versionOk: string -> bool)
    requires '.' !in target && name != "" && name[0] != '.'
    ensures var r := QualifyTarget(name + "." + target, package, version, versionOk);
      r.target == target
      && (r.moduleName, r.version) == VolatileVersion(name, versionOk)
      && name == (match r.version case None => r.moduleName case Some(v) => r.moduleName + "-" + v)
  {
    var t := name + "." + target;
    assert t[|name|] == '.';
    assert t[0] == name[0];
    RPartitionAppend(name, target, '.');
    VolatileVersionSplits(name, versionOk);
  }

  /** As written, `module.name` splits the module part the same way
      `get_volatile_module_version` as written does: the module comes back
      whole, or with its `-<version>` suffix split off, or, when it reads as
      a version in full, as the empty name with the whole as the version. */
  lemma QualifyAbsoluteAsWritten(name: string, target: string, package: string, version: string, versionOk: string -> bool)
    requires '.' !in target && name != "" && name[0] != '.'
    ensures var r := QualifyTargetAsWritten(name + "." + target, package, version, versionOk);
      r.target == target
      && (r.moduleName, r.version) == VolatileVersionAsWritten(name, versionOk)
      && (match r.version
          case None => r.moduleName == name
          case Some(v) => name == r.moduleName + "-" + v || (r.moduleName == "" && v == name))
  {
    var t := name + "." + target;
    assert t[|name|] == '.';
    assert t[0] == name[0];
    RPartitionAppend(name, target, '.');
    VolatileVersionSplits(name, versionOk);
    VolatileVersionAgrees(name, versionOk);
    if '-' !in name && versionOk(name) {
      VolatileVersionLosesName(name, versionOk);
    }
  }
}
