/** `Target.__init__` (craftr/runtime.py): binding the keyword arguments
    `Module.target` passes on, collecting the `meta_*` arguments, and
    turning the remaining `command` and `command<digit>` arguments into
    the command list in sorted key order. Argument values are Python values,
    modelled as `Json`. */
module Targets {
  import opened Base
  import opened Json

  /** Python's `<` on `str`: code-point lexicographic order, a proper
      prefix coming first. */
  predicate LexLess(a: string, b: string) {
    if a == [] then b != []
    else if b == [] then false
    else if a[0] != b[0] then a[0] < b[0]
    else LexLess(a[1..], b[1..])
  }

  lemma {:induction false} LexIrreflexive(a: string)
    ensures !LexLess(a, a)
    decreases |a|
  {
    if a != [] {
      LexIrreflexive(a[1..]);
    }
  }

  lemma {:induction false} LexTotal(a: string, b: string)
    ensures a == b || LexLess(a, b) || LexLess(b, a)
    decreases |a|
  {
    if a != [] && b != [] && a[0] == b[0] {
      LexTotal(a[1..], b[1..]);
      if a[1..] == b[1..] {
        assert a == [a[0]] + a[1..] && b == [b[0]] + b[1..];
      }
    }
  }

  lemma {:induction false} LexAsymmetric(a: string, b: string)
    ensures !(LexLess(a, b) && LexLess(b, a))
    decreases |a|
  {
    if a != [] && b != [] && a[0] == b[0] {
      LexAsymmetric(a[1..], b[1..]);
    }
  }

  lemma {:induction false} LexTransitive(a: string, b: string, c: string)
    requires LexLess(a, b) && LexLess(b, c)
    ensures LexLess(a, c)
    decreases |a|
  {
    if a != [] && a[0] == b[0] && b[0] == c[0] {
      LexTransitive(a[1..], b[1..], c[1..]);
    }
  }

  /** A proper prefix sorts first. */
  lemma {:induction false} PrefixFirst(a: string, rest: string)
    requires rest != []
    ensures LexLess(a, a + rest)
    decreases |a|
  {
    if a != [] {
      assert (a + rest)[1..] == a[1..] + rest;
      PrefixFirst(a[1..], rest);
    }
  }

  type Kwargs = seq<(string, Json)>

  /** Keys strictly ascending: the order `sorted(kwargs.items(), key=lambda
      x: x[0])` produces for a dict. */
  predicate SortedByKey(s: Kwargs) {
    forall i, j :: 0 <= i < j < |s| ==> LexLess(s[i].0, s[j].0)
  }

  function Insert(x: (string, Json), s: Kwargs): (r: Kwargs)
    ensures multiset(r) == multiset(s) + multiset{x}
    ensures |r| == |s| + 1
  {
    if s == [] then [x]
    else if LexLess(s[0].0, x.0) then
      assert s == [s[0]] + s[1..];
      [s[0]] + Insert(x, s[1..])
    else [x] + s
  }

  lemma {:induction false} InsertSorted(x: (string, Json), s: Kwargs)
    requires SortedByKey(s)
    requires forall k :: 0 <= k < |s| ==> s[k].0 != x.0
    ensures SortedByKey(Insert(x, s))
    decreases |s|
  {
    if s != [] && LexLess(s[0].0, x.0) {
      InsertSorted(x, s[1..]);
      var r := Insert(x, s);
      forall i, j | 0 <= i < j < |r|
        ensures LexLess(r[i].0, r[j].0)
      {
        if i == 0 {
          InsertedFrom(x, s[1..], j - 1);
          var e := Insert(x, s[1..])[j - 1];
          if e != x {
            var k :| 0 <= k < |s[1..]| && s[1..][k] == e;
            assert s[k + 1] == e;
          }
        }
      }
    } else if s != [] {
      var r := Insert(x, s);
      forall i, j | 0 <= i < j < |r|
        ensures LexLess(r[i].0, r[j].0)
      {
        if i == 0 {
          LexTotal(x.0, s[0].0);
          if j > 1 {
            LexTransitive(x.0, s[0].0, s[j - 1].0);
          }
        }
      }
    }
  }

  lemma {:induction false} InsertedFrom(x: (string, Json), s: Kwargs, j: nat)
    requires j < |Insert(x, s)|
    ensures Insert(x, s)[j] == x || exists k :: 0 <= k < |s| && s[k] == Insert(x, s)[j]
  {
    var r := Insert(x, s);
    assert r[j] in multiset(r);
    if r[j] != x {
      assert r[j] in multiset(s);
      assert r[j] in s;
    }
  }

  /** `sorted(kwargs.items(), key=lambda x: x[0])`. */
  function Sort(kw: Kwargs): (r: Kwargs)
    ensures multiset(r) == multiset(kw)
    ensures |r| == |kw|
  {
    if kw == [] then []
    else
      assert kw == [kw[0]] + kw[1..];
      Insert(kw[0], Sort(kw[1..]))
  }

  /** The sorted items are the same items with their keys ascending. */
  lemma {:induction false} SortSorts(kw: Kwargs)
    requires DistinctKeys(kw)
    ensures SortedByKey(Sort(kw)) && multiset(Sort(kw)) == multiset(kw)
    decreases |kw|
  {
    if kw != [] {
      SortSorts(kw[1..]);
      var s := Sort(kw[1..]);
      forall k | 0 <= k < |s|
        ensures s[k].0 != kw[0].0
      {
        assert s[k] in multiset(kw[1..]);
        var m :| 0 <= m < |kw[1..]| && kw[1..][m] == s[k];
        assert kw[m + 1] == s[k];
      }
      InsertSorted(kw[0], s);
    }
  }

  /** A dict has one sorted order: two key-ascending sequences of the same
      items are equal, so `Sort` is what `sorted` returns. */
  lemma {:induction false} SortedUnique(a: Kwargs, b: Kwargs)
    requires SortedByKey(a) && SortedByKey(b) && multiset(a) == multiset(b)
    ensures a == b
    decreases |a|
  {
    if a != [] {
      SameHead(a, b);
      assert a == [a[0]] + a[1..] && b == [b[0]] + b[1..];
      assert multiset(a[1..]) == multiset(a) - multiset{a[0]};
      assert multiset(b[1..]) == multiset(b) - multiset{b[0]};
      SortedTail(a);
      SortedTail(b);
      SortedUnique(a[1..], b[1..]);
    } else {
      assert |multiset(b)| == 0;
    }
  }

  /** Both start with the item whose key is least. */
  lemma SameHead(a: Kwargs, b: Kwargs)
    requires SortedByKey(a) && SortedByKey(b) && multiset(a) == multiset(b) && a != []
    ensures b != [] && a[0] == b[0]
  {
    assert a[0] in multiset(b);
    var i :| 0 <= i < |b| && b[i] == a[0];
    assert b[0] in multiset(a);
    var j :| 0 <= j < |a| && a[j] == b[0];
    if i != 0 {
      assert LexLess(b[0].0, a[0].0);
      if j == 0 {
        LexIrreflexive(a[0].0);
      } else {
        assert LexLess(a[0].0, b[0].0);
        LexAsymmetric(a[0].0, b[0].0);
      }
    }
  }

  lemma SortedTail(a: Kwargs)
    requires SortedByKey(a) && a != []
    ensures SortedByKey(a[1..])
  {
    forall i, j | 0 <= i < j < |a[1..]|
      ensures LexLess(a[1..][i].0, a[1..][j].0)
    {
      assert a[1..][i] == a[i + 1] && a[1..][j] == a[j + 1];
    }
  }

  /** The arguments of `Target.__init__` besides `module` and `name`. */
  const Parameters: set<string> := {"inputs", "outputs", "requires", "foreach", "description"}

  /** The `TypeError`s and the `ValueError` the constructor raises. */
  datatype TargetFault =
    | DuplicateArgument(param: string)
    | MissingArgument(param: string)
    | InvalidTargetName(name: string)
    | UnexpectedKeyword(key: string)
    | CommandNotList(key: string)

  /** A constructed `Target`; `owner` is the index of its `module`,
      `requiredFiles` its `requires`. */
  datatype Target = Target(
    owner: nat, name: string,
    inputs: Json, outputs: Json, requiredFiles: Json, foreach: Json, description: Json,
    commands: seq<Json>, meta: map<string, Json>)

  /** The value bound to a parameter, or its default. */
  function Bound(kw: Kwargs, param: string, default: Json): Json {
    GetOr(kw, param, default)
  }

  /** The arguments that land in `**kwargs`. */
  function Unbound(kw: Kwargs): Kwargs {
    if kw == [] then []
    else
      var rest := Unbound(kw[1..]);
      if kw[0].0 in Parameters then rest else [kw[0]] + rest
  }

  /** A key of the form `meta_<name>` with a non-empty name. */
  predicate IsMetaKey(key: string) {
    |key| > 5 && key[..5] == "meta_"
  }

  /** The loop over `tuple(kwargs.items())`: the meta entries after the
      first `n` items. */
  function MetaOf(kw: Kwargs): map<string, Json> {
    if kw == [] then map[]
    else
      var m := MetaOf(kw[..|kw| - 1]);
      var last := kw[|kw| - 1];
      if IsMetaKey(last.0) then m[last.0[5..] := last.1] else m
  }

  /** The items the meta loop leaves in `kwargs`, in their order. */
  function NonMeta(kw: Kwargs): Kwargs {
    if kw == [] then []
    else
      var rest := NonMeta(kw[..|kw| - 1]);
      var last := kw[|kw| - 1];
      if IsMetaKey(last.0) then rest else rest + [last]
  }

  /** `\d` in a `str` pattern: a character of the Unicode category Nd
      (decimal digit), as the Unicode 14.0 database of Python 3.11 lists
      them: 62 runs, each a multiple of ten consecutive code points.
      Python 3.11 is the last version whose `configparser` still has the
      `SafeConfigParser` that `read_config_file` uses. */
  predicate IsDecimalDigit(c: char) {
    || '0' <= c <= '9'
    || '\U{0660}' <= c <= '\U{0669}'
    || '\U{06F0}' <= c <= '\U{06F9}'
    || '\U{07C0}' <= c <= '\U{07C9}'
    || '\U{0966}' <= c <= '\U{096F}'
    || '\U{09E6}' <= c <= '\U{09EF}'
    || '\U{0A66}' <= c <= '\U{0A6F}'
    || '\U{0AE6}' <= c <= '\U{0AEF}'
    || '\U{0B66}' <= c <= '\U{0B6F}'
    || '\U{0BE6}' <= c <= '\U{0BEF}'
    || '\U{0C66}' <= c <= '\U{0C6F}'
    || '\U{0CE6}' <= c <= '\U{0CEF}'
    || '\U{0D66}' <= c <= '\U{0D6F}'
    || '\U{0DE6}' <= c <= '\U{0DEF}'
    || '\U{0E50}' <= c <= '\U{0E59}'
    || '\U{0ED0}' <= c <= '\U{0ED9}'
    || '\U{0F20}' <= c <= '\U{0F29}'
    || '\U{1040}' <= c <= '\U{1049}'
    || '\U{1090}' <= c <= '\U{1099}'
    || '\U{17E0}' <= c <= '\U{17E9}'
    || '\U{1810}' <= c <= '\U{1819}'
    || '\U{1946}' <= c <= '\U{194F}'
    || '\U{19D0}' <= c <= '\U{19D9}'
    || '\U{1A80}' <= c <= '\U{1A89}'
    || '\U{1A90}' <= c <= '\U{1A99}'
    || '\U{1B50}' <= c <= '\U{1B59}'
    || '\U{1BB0}' <= c <= '\U{1BB9}'
    || '\U{1C40}' <= c <= '\U{1C49}'
    || '\U{1C50}' <= c <= '\U{1C59}'
    || '\U{A620}' <= c <= '\U{A629}'
    || '\U{A8D0}' <= c <= '\U{A8D9}'
    || '\U{A900}' <= c <= '\U{A909}'
    || '\U{A9D0}' <= c <= '\U{A9D9}'
    || '\U{A9F0}' <= c <= '\U{A9F9}'
    || '\U{AA50}' <= c <= '\U{AA59}'
    || '\U{ABF0}' <= c <= '\U{ABF9}'
    || '\U{FF10}' <= c <= '\U{FF19}'
    || '\U{104A0}' <= c <= '\U{104A9}'
    || '\U{10D30}' <= c <= '\U{10D39}'
    || '\U{11066}' <= c <= '\U{1106F}'
    || '\U{110F0}' <= c <= '\U{110F9}'
    || '\U{11136}' <= c <= '\U{1113F}'
    || '\U{111D0}' <= c <= '\U{111D9}'
    || '\U{112F0}' <= c <= '\U{112F9}'
    || '\U{11450}' <= c <= '\U{11459}'
    || '\U{114D0}' <= c <= '\U{114D9}'
    || '\U{11650}' <= c <= '\U{11659}'
    || '\U{116C0}' <= c <= '\U{116C9}'
    || '\U{11730}' <= c <= '\U{11739}'
    || '\U{118E0}' <= c <= '\U{118E9}'
    || '\U{11950}' <= c <= '\U{11959}'
    || '\U{11C50}' <= c <= '\U{11C59}'
    || '\U{11D50}' <= c <= '\U{11D59}'
    || '\U{11DA0}' <= c <= '\U{11DA9}'
    || '\U{16A60}' <= c <= '\U{16A69}'
    || '\U{16AC0}' <= c <= '\U{16AC9}'
    || '\U{16B50}' <= c <= '\U{16B59}'
    || '\U{1D7CE}' <= c <= '\U{1D7FF}'
    || '\U{1E140}' <= c <= '\U{1E149}'
    || '\U{1E2F0}' <= c <= '\U{1E2F9}'
    || '\U{1E950}' <= c <= '\U{1E959}'
    || '\U{1FBF0}' <= c <= '\U{1FBF9}'
  }

  /** `re.match('command\d?$', key)`: `command`, optionally one decimal
      digit, then the end or a final newline. */
  predicate IsCommandKey(key: string) {
    var body := if |key| > 0 && key[|key| - 1] == '\n' then key[..|key| - 1] else key;
    body == "command" || (|body| == 8 && body[..7] == "command" && IsDecimalDigit(body[7]))
  }

  /** `\d` is not only ASCII: an Arabic-Indic or a Devanagari digit names a
      command too, while a letter, two digits or a second newline do not. */
  lemma CommandKeyExamples()
    ensures IsCommandKey("command") && IsCommandKey("command7") && IsCommandKey("command\n")
    ensures IsCommandKey("command\U{0661}") && IsCommandKey("command\U{096B}\n")
    ensures !IsCommandKey("commandx") && !IsCommandKey("command10") && !IsCommandKey("command\n\n")
    ensures !IsCommandKey("command\U{00B2}") && !IsCommandKey("command\U{11F51}")
  {
    assert "command7"[..7] == "command";
    assert "command\U{0661}"[..7] == "command";
    assert "command\U{096B}\n"[..8][..7] == "command";
  }

  /** One iteration of the loop over the sorted remaining arguments. */
  function CommandStep(item: (string, Json)): Result<Json, TargetFault> {
    if !IsCommandKey(item.0) then Err(UnexpectedKeyword(item.0))
    else if !item.1.JArr? then Err(CommandNotList(item.0))
    else Ok(item.1)
  }

  /** The loop over the sorted arguments the meta loop left. */
  function Commands(extra: Kwargs): Result<seq<Json>, TargetFault> {
    Collect(Sort(NonMeta(extra)), 0, [], CommandStep)
  }

  /** `Target(module, name, **kwargs)` as `Module.target` calls it. */
  function TargetSpec(owner: nat, name: string, kw: Kwargs, validVar: string -> bool): Result<Target, TargetFault> {
    if Get(kw, "module").Some? then Err(DuplicateArgument("module"))
    else if Get(kw, "inputs").None? then Err(MissingArgument("inputs"))
    else if Get(kw, "outputs").None? then Err(MissingArgument("outputs"))
    else if !validVar(name) then Err(InvalidTargetName(name))
    else
      var extra := Unbound(kw);
      var commands :- Commands(extra);
      Ok(Target(owner, name,
        Bound(kw, "inputs", JNull), Bound(kw, "outputs", JNull),
        Bound(kw, "requires", JArr([])), Bound(kw, "foreach", JBool(false)), Bound(kw, "description", JNull),
        commands, MetaOf(extra)))
  }

  /** The meta dictionary holds exactly the `meta_<name>` arguments, under
      `<name>`; a bare `meta_` is not meta data. */
  lemma {:induction false} MetaExact(kw: Kwargs, name: string)
    requires DistinctKeys(kw)
    ensures name in MetaOf(kw) <==> name != "" && exists i :: 0 <= i < |kw| && kw[i].0 == "meta_" + name
    ensures forall i :: 0 <= i < |kw| && kw[i].0 == "meta_" + name && name != "" ==> MetaOf(kw)[name] == kw[i].1
    decreases |kw|
  {
    if kw != [] {
      var init := kw[..|kw| - 1];
      var last := kw[|kw| - 1];
      MetaExact(init, name);
      forall i | 0 <= i < |kw| && kw[i].0 == "meta_" + name && name != ""
        ensures MetaOf(kw)[name] == kw[i].1
      {
        if i < |kw| - 1 {
          assert init[i] == kw[i];
          if IsMetaKey(last.0) {
            assert last.0 == "meta_" + last.0[5..];
            assert last.0[5..] != name;
          }
        } else {
          assert ("meta_" + name)[5..] == name;
        }
      }
      if IsMetaKey(last.0) {
        assert last.0 == "meta_" + last.0[5..];
      }
      if name in MetaOf(init) {
        var i :| 0 <= i < |init| && init[i].0 == "meta_" + name;
        assert kw[i] == init[i];
      }
      if exists i :: 0 <= i < |kw| && kw[i].0 == "meta_" + name {
        var i :| 0 <= i < |kw| && kw[i].0 == "meta_" + name;
        if i < |kw| - 1 {
          assert init[i] == kw[i];
        } else if name != "" {
          assert ("meta_" + name)[5..] == name;
        }
      }
    }
  }

  /** The meta loop keeps exactly the items that are not meta arguments,
      in order. */
  lemma {:induction false} NonMetaExact(kw: Kwargs)
    ensures forall k :: 0 <= k < |NonMeta(kw)| ==> NonMeta(kw)[k] in kw && !IsMetaKey(NonMeta(kw)[k].0)
    ensures forall k :: 0 <= k < |kw| && !IsMetaKey(kw[k].0) ==> kw[k] in NonMeta(kw)
    decreases |kw|
  {
    if kw != [] {
      var init := kw[..|kw| - 1];
      NonMetaExact(init);
      assert forall k :: 0 <= k < |init| ==> init[k] == kw[k];
    }
  }

  /** `command` is the first command, before every `command<digit>`. */
  lemma CommandComesFirst(other: string)
    requires IsCommandKey(other) && other != "command"
    ensures LexLess("command", other)
  {
    assert other == "command" + other[7..];
    PrefixFirst("command", other[7..]);
  }

  /** Every item passes the command checks. */
  predicate AllCommands(s: Kwargs) {
    forall k :: 0 <= k < |s| ==> CommandStep(s[k]).Ok?
  }

  /** The same items pass or fail the command checks in any order. */
  lemma AllCommandsInAnyOrder(a: Kwargs, b: Kwargs)
    requires multiset(a) == multiset(b)
    ensures AllCommands(a) == AllCommands(b)
  {
    if AllCommands(a) {
      forall k | 0 <= k < |b|
        ensures CommandStep(b[k]).Ok?
      {
        assert b[k] in multiset(a);
      }
    }
    if AllCommands(b) {
      forall k | 0 <= k < |a|
        ensures CommandStep(a[k]).Ok?
      {
        assert a[k] in multiset(b);
      }
    }
  }

  /** The command loop succeeds exactly when every remaining argument is a
      `commandN` list; the commands are then those lists in ascending key
      order. */
  lemma CommandsOutcome(extra: Kwargs)
    ensures Commands(extra).Ok? <==> AllCommands(NonMeta(extra))
    ensures Commands(extra).Ok? ==>
      && |Commands(extra).value| == |NonMeta(extra)|
      && forall k :: 0 <= k < |NonMeta(extra)| ==> Commands(extra).value[k] == Sort(NonMeta(extra))[k].1
  {
    var items := Sort(NonMeta(extra));
    var c := Collect(items, 0, [], CommandStep);
    assert Commands(extra) == c;
    CollectAll(items, CommandStep);
    assert c.Ok? <==> AllCommands(items);
    AllCommandsInAnyOrder(items, NonMeta(extra));
  }

  /** Item `k` is the first that fails the command checks, with `e`. */
  predicate FailsFirstAt(items: Kwargs, k: nat, e: TargetFault)
    requires k < |items|
  {
    CommandStep(items[k]) == Err(e) && forall j :: 0 <= j < k ==> CommandStep(items[j]).Ok?
  }

  /** When several remaining arguments are wrong, the one whose key sorts
      first is reported. */
  lemma FirstWrongKeyReported(extra: Kwargs)
    requires Commands(extra).Err?
    ensures exists k :: 0 <= k < |Sort(NonMeta(extra))| && FailsFirstAt(Sort(NonMeta(extra)), k, Commands(extra).error)
  {
    var items := Sort(NonMeta(extra));
    var c := Collect(items, 0, [], CommandStep);
    assert Commands(extra) == c;
    CollectFirstFailure(items, 0, [], CommandStep);
    var k :| 0 <= k < |items| && CommandStep(items[k]).Err? && c.error == CommandStep(items[k]).error &&
      forall j :: 0 <= j < k ==> CommandStep(items[j]).Ok?;
    assert FailsFirstAt(items, k, Commands(extra).error);
  }

  /** The constructor fails on a duplicate `module`, a missing `inputs` or
      `outputs` and an invalid name, in that order, and otherwise exactly
      when the command loop fails; a target holds the bound arguments,
      the defaults for the others, the meta data and the commands. */
  lemma TargetOutcome(owner: nat, name: string, kw: Kwargs, validVar: string -> bool)
    ensures var r := TargetSpec(owner, name, kw, validVar);
      && (Get(kw, "module").Some? ==> r == Err(DuplicateArgument("module")))
      && (Get(kw, "module").None? && Get(kw, "inputs").None? ==> r == Err(MissingArgument("inputs")))
      && (r.Ok? <==>
        Get(kw, "module").None? && Get(kw, "inputs").Some? && Get(kw, "outputs").Some? && validVar(name)
        && Commands(Unbound(kw)).Ok?)
      && (r.Ok? ==>
        && r.value.owner == owner && r.value.name == name
        && Some(r.value.inputs) == Get(kw, "inputs") && Some(r.value.outputs) == Get(kw, "outputs")
        && r.value.requiredFiles == GetOr(kw, "requires", JArr([]))
        && r.value.foreach == GetOr(kw, "foreach", JBool(false))
        && r.value.description == GetOr(kw, "description", JNull)
        && r.value.meta == MetaOf(Unbound(kw))
        && r.value.commands == Commands(Unbound(kw)).value)
  {
  }

  /** The constructor: the meta loop over the items, then the command loop
      over them in sorted order. */
  method NewTarget(owner: nat, name: string, kw: Kwargs, validVar: string -> bool) returns (r: Result<Target, TargetFault>)
    ensures r == TargetSpec(owner, name, kw, validVar)
  {
    if Get(kw, "module").Some? {
      return Err(DuplicateArgument("module"));
    }
    if Get(kw, "inputs").None? {
      return Err(MissingArgument("inputs"));
    }
    if Get(kw, "outputs").None? {
      return Err(MissingArgument("outputs"));
    }
    if !validVar(name) {
      return Err(InvalidTargetName(name));
    }
    var extra := Unbound(kw);
    var meta: map<string, Json> := map[];
    var rest: Kwargs := [];
    var i := 0;
    while i < |extra|
      invariant 0 <= i <= |extra|
      invariant meta == MetaOf(extra[..i]) && rest == NonMeta(extra[..i])
    {
      assert extra[..i + 1][..i] == extra[..i];
      var (key, value) := extra[i];
      if IsMetaKey(key) {
        meta := meta[key[5..] := value];
      } else {
        rest := rest + [(key, value)];
      }
      i := i + 1;
    }
    assert extra[..i] == extra;
    var items := Sort(rest);
    var commands: seq<Json> := [];
    var j := 0;
    while j < |items|
      invariant 0 <= j <= |items|
      invariant Collect(items, j, commands, CommandStep) == Collect(items, 0, [], CommandStep)
    {
      var (key, value) := items[j];
      if !IsCommandKey(key) {
        return Err(UnexpectedKeyword(key));
      }
      if !value.JArr? {
        return Err(CommandNotList(key));
      }
      commands := commands + [value];
      j := j + 1;
    }
    return Ok(Target(owner, name,
      Bound(kw, "inputs", JNull), Bound(kw, "outputs", JNull),
      Bound(kw, "requires", JArr([])), Bound(kw, "foreach", JBool(false)), Bound(kw, "description", JNull),
      commands, meta));
  }
}
