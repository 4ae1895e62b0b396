/** The objects of craftr/runtime.py and `Session.get_namespace`.

    Python objects that are shared by reference live in the stores of one
    `Store`: `utils.DataEntity` objects in `entities`, `Module` objects in
    `mods`, each addressed by its index, so that two references to the same
    object are the same index and `obj is self.locals` is an index
    comparison. A `Session.NamespaceProxy` is the value `NsProxy(name)`: it
    reaches whatever entity `namespaces[name]` holds when it is used. */
module RuntimeStore {
  import opened Base
  import opened Json
  import opened Text
  import opened Targets

  /** A value held in an entity attribute. */
  datatype Value =
    | Data(j: Json)                       // a plain Python value
    | NsProxy(ns: string)                 // `Session.NamespaceProxy(session, ns)`
    | EntityRef(entity: nat)              // a `utils.DataEntity`
    | ModuleObj(index: nat)               // a `Module`
    | TargetRef(owner: nat, name: string) // `mods[owner].targets[name]`
    | Builtin(name: string)               // the session and the functions a module sees

  /** A `utils.DataEntity`: its `__entity_id__` and its other attributes. */
  datatype Entity = Entity(entityId: string, attrs: map<string, Value>)

  /** A `Module` whose identifier was read: `locals` is its entity. */
  datatype ModuleRec = ModuleRec(filename: string, identifier: string, locals: nat, executed: bool, targets: map<string, Target>)

  /** The session's dictionaries `namespaces`, `modules`, `_mod_idcache`
      and `_mod_filecache`, and the objects they refer to. */
  datatype Store = Store(
    entities: seq<Entity>,
    namespaces: map<string, nat>,
    mods: seq<ModuleRec>,
    modules: map<string, nat>,
    idcache: map<string, nat>,
    filecache: map<string, nat>)

  datatype Mode = GetMode | LoadMode

  /** The exceptions the runtime raises. */
  datatype RuntimeFault =
    | InvalidNamespaceName(name: string)     // ValueError('invalid namespace identifier')
    | InvalidModuleName(name: string)        // ValueError('invalid module identifier')
    | IdentifierOccupied(identifier: string) // RuntimeError('module identifier already occupied')
    | UnexpectedEntity(entityId: string)     // RuntimeError('unexpected entity name')
    | IdentifierClash(filename: string, other: string, identifier: string)
    | InvalidModule(filename: string)        // InvalidModule
    | FileUnreadable(filename: string)       // the error `open` raises
    | NoSuchModule(name: string, requiredBy: Option<string>, mode: Mode)
    | NotNamespaceEntity(entityId: string)   // ValueError('need a namespace entity')
    | ExpectedNameOrNamespace                // TypeError('expected str or namespace DataEntity')
    | PreconditionConflict(identifier: string, key: string, value: Value)
    | AttributeMissing(name: string)         // AttributeError
    | TargetOverridesLocal(name: string)     // ValueError('target definition would override local variable')
    | AssignedNameUnavailable                // a target name derived from the caller's frame
    | TargetRejected(fault: TargetFault)

  /** What an operation returns or raises, and the store afterwards. */
  datatype Outcome<T> = Outcome(result: Result<T, RuntimeFault>, store: Store)

  /** Every index a store holds refers to an object of the store. */
  predicate Wf(s: Store) {
    && (forall n :: n in s.namespaces ==> s.namespaces[n] < |s.entities|)
    && (forall i :: 0 <= i < |s.mods| ==> s.mods[i].locals < |s.entities|)
    && (forall n :: n in s.modules ==> s.modules[n] < |s.mods|)
    && (forall n :: n in s.idcache ==> s.idcache[n] < |s.mods|)
    && (forall f :: f in s.filecache ==> s.filecache[f] < |s.mods|)
  }

  /** No two namespace names share an entity. */
  predicate Injective(ns: map<string, nat>) {
    forall a, b :: a in ns && b in ns && ns[a] == ns[b] ==> a == b
  }

  /** `setattr(entity, key, v)`. */
  function SetAttr(s: Store, e: nat, key: string, v: Value): Store
    requires e < |s.entities|
  {
    s.(entities := s.entities[e := s.entities[e].(attrs := s.entities[e].attrs[key := v])])
  }

  /** The entity a value stands for, if it is an entity or a proxy. */
  function Deref(s: Store, v: Value): (r: Option<nat>)
    ensures r.Some? ==> r.value < |s.entities|
  {
    match v
    case NsProxy(n) => if n in s.namespaces && s.namespaces[n] < |s.entities| then Some(s.namespaces[n]) else None
    case EntityRef(e) => if e < |s.entities| then Some(e) else None
    case _ => None
  }

  /** `getattr(v, key)`, `None` standing for `AttributeError`. */
  function GetAttr(s: Store, v: Value, key: string): Option<Value> {
    match Deref(s, v)
    case None => None
    case Some(e) => if key in s.entities[e].attrs then Some(s.entities[e].attrs[key]) else None
  }

  // ----- Session.get_namespace -----

  /** The name of the `k`-th namespace of a dotted name: its first `k + 1`
      parts joined with dots. */
  function Prefix(parts: seq<string>, k: nat): string
    requires k < |parts|
  {
    Join(parts[..k + 1], '.')
  }

  lemma PrefixNext(parts: seq<string>, k: nat)
    requires k + 1 < |parts|
    ensures Prefix(parts, k + 1) == Prefix(parts, k) + "." + parts[k + 1]
  {
    assert parts[..k + 2] == parts[..k + 1] + [parts[k + 1]];
    JoinSnoc(parts[..k + 1], parts[k + 1], '.');
  }

  /** Each namespace name is longer than the ones before it, so they are
      all different. */
  lemma {:induction false} PrefixGrows(parts: seq<string>, j: nat, k: nat)
    requires j < k < |parts|
    ensures |Prefix(parts, j)| < |Prefix(parts, k)|
    decreases k - j
  {
    PrefixNext(parts, k - 1);
    if j < k - 1 {
      PrefixGrows(parts, j, k - 1);
    }
  }

  /** The last namespace name is the whole name. */
  lemma LastPrefix(name: string)
    ensures Prefix(Split(name, '.'), |Split(name, '.')| - 1) == name
  {
    var parts := Split(name, '.');
    assert parts[..|parts|] == parts;
    JoinSplit(name, '.');
  }

  /** The `try: entity = self.namespaces[name] except KeyError:` step: a
      new `ns:<name>` entity when the name has none. */
  function Ensure(s: Store, name: string): Store {
    if name in s.namespaces then s
    else s.(entities := s.entities + [Entity("ns:" + name, map[])], namespaces := s.namespaces[name := |s.entities|])
  }

  /** One iteration of the loop over the parts: the namespace of the first
      `k + 1` parts exists afterwards, and its parent's attribute named
      after part `k` is a proxy for it. */
  function NsStep(s: Store, parts: seq<string>, k: nat): (r: Store)
    requires Wf(s) && k < |parts| && (k > 0 ==> Prefix(parts, k - 1) in s.namespaces)
    ensures Wf(r) && Prefix(parts, k) in r.namespaces
    ensures r.mods == s.mods && r.modules == s.modules && r.idcache == s.idcache && r.filecache == s.filecache
  {
    var s1 := Ensure(s, Prefix(parts, k));
    if k == 0 then s1
    else SetAttr(s1, s1.namespaces[Prefix(parts, k - 1)], parts[k], NsProxy(Prefix(parts, k)))
  }

  /** The loop from part `k` on. */
  function NsFrom(s: Store, parts: seq<string>, k: nat): (r: Store)
    requires Wf(s) && k <= |parts| && (k > 0 ==> Prefix(parts, k - 1) in s.namespaces)
    ensures Wf(r)
    ensures r.mods == s.mods && r.modules == s.modules && r.idcache == s.idcache && r.filecache == s.filecache
    decreases |parts| - k
  {
    if k == |parts| then s else NsFrom(NsStep(s, parts, k), parts, k + 1)
  }

  /** `Session.get_namespace(name)`: a `ValueError` for a name
      `utils.ident.validate` (`validIdent`) rejects, otherwise the proxy for
      the name, after every namespace along the dotted name exists and is
      linked from its parent. */
  function GetNamespaceSpec(s: Store, validIdent: string -> bool, name: string): (o: Outcome<Value>)
    requires Wf(s)
    ensures Wf(o.store)
  {
    if !validIdent(name) then Outcome(Err(InvalidNamespaceName(name)), s)
    else Outcome(Ok(NsProxy(name)), NsFrom(s, Split(name, '.'), 0))
  }

  /** Existing namespaces keep their entities, and no entity changes its id. */
  lemma {:induction false} NsFromKeeps(s: Store, parts: seq<string>, k: nat)
    requires Wf(s) && k <= |parts| && (k > 0 ==> Prefix(parts, k - 1) in s.namespaces)
    ensures var r := NsFrom(s, parts, k);
      && (forall n :: n in s.namespaces ==> n in r.namespaces && r.namespaces[n] == s.namespaces[n])
      && |s.entities| <= |r.entities|
      && (forall e :: 0 <= e < |s.entities| ==> r.entities[e].entityId == s.entities[e].entityId)
    decreases |parts| - k
  {
    if k < |parts| {
      NsFromKeeps(NsStep(s, parts, k), parts, k + 1);
    }
  }

  /** Afterwards every namespace along the name exists, and every name that
      is new is one of them, with a fresh `ns:<name>` entity. */
  lemma {:induction false} NsFromAdds(s: Store, parts: seq<string>, k: nat)
    requires Wf(s) && k <= |parts| && (k > 0 ==> Prefix(parts, k - 1) in s.namespaces)
    ensures var r := NsFrom(s, parts, k);
      forall j :: k <= j < |parts| ==> Prefix(parts, j) in r.namespaces
    decreases |parts| - k
  {
    if k < |parts| {
      var s1 := NsStep(s, parts, k);
      NsFromAdds(s1, parts, k + 1);
      NsFromKeeps(s1, parts, k + 1);
    }
  }

  /** Every name that is new is one of the namespaces along the name, with
      a fresh `ns:<name>` entity. */
  lemma {:induction false} NsFromFresh(s: Store, parts: seq<string>, k: nat)
    requires Wf(s) && k <= |parts| && (k > 0 ==> Prefix(parts, k - 1) in s.namespaces)
    ensures var r := NsFrom(s, parts, k);
      forall n :: n in r.namespaces && n !in s.namespaces ==>
        (exists j :: k <= j < |parts| && n == Prefix(parts, j))
        && |s.entities| <= r.namespaces[n] && r.entities[r.namespaces[n]].entityId == "ns:" + n
    decreases |parts| - k
  {
    if k < |parts| {
      var s1 := NsStep(s, parts, k);
      NsFromFresh(s1, parts, k + 1);
      NsFromKeeps(s1, parts, k + 1);
      var r := NsFrom(s, parts, k);
      forall n | n in r.namespaces && n !in s.namespaces
        ensures (exists j :: k <= j < |parts| && n == Prefix(parts, j))
          && |s.entities| <= r.namespaces[n] && r.entities[r.namespaces[n]].entityId == "ns:" + n
      {
        if n in s1.namespaces {
          assert n == Prefix(parts, k);
          assert s1.namespaces[n] == |s.entities|;
          assert s1.entities[|s.entities|].entityId == "ns:" + n;
        }
      }
    }
  }

  /** Namespace `j` is linked from its parent: the parent's attribute named
      after part `j` is the proxy for namespace `j`. */
  predicate Linked(s: Store, parts: seq<string>, j: nat)
    requires Wf(s) && 1 <= j < |parts|
  {
    && Prefix(parts, j - 1) in s.namespaces
    && parts[j] in s.entities[s.namespaces[Prefix(parts, j - 1)]].attrs
    && s.entities[s.namespaces[Prefix(parts, j - 1)]].attrs[parts[j]] == NsProxy(Prefix(parts, j))
  }

  lemma EnsureLinks(s: Store, parts: seq<string>, k: nat)
    requires Wf(s) && k < |parts| && Injective(s.namespaces)
    requires forall j :: 1 <= j < k ==> Linked(s, parts, j)
    ensures Wf(Ensure(s, Prefix(parts, k))) && Injective(Ensure(s, Prefix(parts, k)).namespaces)
    ensures forall j :: 1 <= j < k ==> Linked(Ensure(s, Prefix(parts, k)), parts, j)
  {
    var p := Prefix(parts, k);
    var s1 := Ensure(s, p);
    if p !in s.namespaces {
      assert s1.namespaces == s.namespaces[p := |s.entities|];
      assert forall x :: 0 <= x < |s.entities| ==> s1.entities[x] == s.entities[x];
      forall a, b | a in s1.namespaces && b in s1.namespaces && s1.namespaces[a] == s1.namespaces[b]
        ensures a == b
      {
        if a != p && b != p {
          assert s.namespaces[a] == s.namespaces[b];
        }
      }
      forall j | 1 <= j < k
        ensures Linked(s1, parts, j)
      {
        assert Linked(s, parts, j);
      }
    }
  }

  lemma LinkKeepsLinks(s: Store, parts: seq<string>, k: nat)
    requires Wf(s) && 0 < k < |parts| && Injective(s.namespaces)
    requires Prefix(parts, k - 1) in s.namespaces
    requires forall j :: 1 <= j < k ==> Linked(s, parts, j)
    ensures var r := SetAttr(s, s.namespaces[Prefix(parts, k - 1)], parts[k], NsProxy(Prefix(parts, k)));
      Wf(r) && forall j :: 1 <= j <= k ==> Linked(r, parts, j)
  {
    var e := s.namespaces[Prefix(parts, k - 1)];
    var r := SetAttr(s, e, parts[k], NsProxy(Prefix(parts, k)));
    forall j | 1 <= j < k
      ensures Linked(r, parts, j)
    {
      assert Linked(s, parts, j);
      if s.namespaces[Prefix(parts, j - 1)] == e {
        PrefixGrows(parts, j - 1, k - 1);
      }
    }
  }

  lemma NsStepLinks(s: Store, parts: seq<string>, k: nat)
    requires Wf(s) && k < |parts| && (k > 0 ==> Prefix(parts, k - 1) in s.namespaces)
    requires Injective(s.namespaces)
    requires forall j :: 1 <= j < k ==> Linked(s, parts, j)
    ensures Injective(NsStep(s, parts, k).namespaces)
    ensures forall j :: 1 <= j <= k ==> Linked(NsStep(s, parts, k), parts, j)
  {
    EnsureLinks(s, parts, k);
    if k > 0 {
      LinkKeepsLinks(Ensure(s, Prefix(parts, k)), parts, k);
    }
  }

  lemma {:induction false} NsFromLinks(s: Store, parts: seq<string>, k: nat)
    requires Wf(s) && k <= |parts| && (k > 0 ==> Prefix(parts, k - 1) in s.namespaces)
    requires Injective(s.namespaces)
    requires forall j :: 1 <= j < k ==> Linked(s, parts, j)
    ensures Injective(NsFrom(s, parts, k).namespaces)
    ensures forall j :: 1 <= j < |parts| ==> Linked(NsFrom(s, parts, k), parts, j)
    decreases |parts| - k
  {
    if k < |parts| {
      NsStepLinks(s, parts, k);
      NsFromLinks(NsStep(s, parts, k), parts, k + 1);
    }
  }

  /** Once every namespace along the name exists and is linked, the loop
      changes nothing. */
  lemma {:induction false} NsFromStable(s: Store, parts: seq<string>, k: nat)
    requires Wf(s) && k <= |parts| && (k > 0 ==> Prefix(parts, k - 1) in s.namespaces)
    requires forall j :: 0 <= j < |parts| ==> Prefix(parts, j) in s.namespaces
    requires forall j :: 1 <= j < |parts| ==> Linked(s, parts, j)
    ensures NsFrom(s, parts, k) == s
    decreases |parts| - k
  {
    if k < |parts| {
      var s1 := NsStep(s, parts, k);
      if k > 0 {
        assert Linked(s, parts, k);
        var e := s.namespaces[Prefix(parts, k - 1)];
        var attrs := s.entities[e].attrs;
        assert attrs[parts[k] := NsProxy(Prefix(parts, k))] == attrs;
        assert s.entities[e := s.entities[e].(attrs := attrs)] == s.entities;
      }
      assert s1 == s;
      NsFromStable(s, parts, k + 1);
    }
  }

  /** `get_namespace` creates every namespace along the dotted name, keeps
      the existing ones and their entities, and gives new ones fresh
      `ns:<name>` entities; its result is the proxy for the whole name. */
  lemma GetNamespaceCreates(s: Store, validIdent: string -> bool, name: string)
    requires Wf(s) && validIdent(name)
    ensures var o := GetNamespaceSpec(s, validIdent, name);
      && o.result == Ok(NsProxy(name))
      && name in o.store.namespaces
      && (forall n :: n in s.namespaces ==> n in o.store.namespaces && o.store.namespaces[n] == s.namespaces[n])
      && (forall n :: n in o.store.namespaces && n !in s.namespaces ==>
            (exists j :: 0 <= j < |Split(name, '.')| && n == Prefix(Split(name, '.'), j))
            && o.store.entities[o.store.namespaces[n]].entityId == "ns:" + n)
      && |s.entities| <= |o.store.entities|
      && (forall e :: 0 <= e < |s.entities| ==> o.store.entities[e].entityId == s.entities[e].entityId)
  {
    var parts := Split(name, '.');
    NsFromKeeps(s, parts, 0);
    NsFromAdds(s, parts, 0);
    NsFromFresh(s, parts, 0);
    LastPrefix(name);
  }

  /** With no two names sharing an entity, every namespace along the name
      is reachable from its parent through the attribute named after its
      last part. */
  lemma GetNamespaceLinks(s: Store, validIdent: string -> bool, name: string)
    requires Wf(s) && validIdent(name) && Injective(s.namespaces)
    ensures var r := GetNamespaceSpec(s, validIdent, name).store;
      Injective(r.namespaces) && forall j :: 1 <= j < |Split(name, '.')| ==> Linked(r, Split(name, '.'), j)
  {
    NsFromLinks(s, Split(name, '.'), 0);
  }

  /** Asking for the same namespace twice changes nothing the second time. */
  lemma GetNamespaceIdempotent(s: Store, validIdent: string -> bool, name: string)
    requires Wf(s) && Injective(s.namespaces)
    ensures var o := GetNamespaceSpec(s, validIdent, name);
      GetNamespaceSpec(o.store, validIdent, name) == o
  {
    if validIdent(name) {
      var parts := Split(name, '.');
      var r := NsFrom(s, parts, 0);
      NsFromAdds(s, parts, 0);
      NsFromFresh(s, parts, 0);
      NsFromLinks(s, parts, 0);
      NsFromStable(r, parts, 0);
    }
  }
}
