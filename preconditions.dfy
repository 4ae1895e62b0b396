/** The promise of `Module.load_module` (craftr/runtime.py) that the
    preconditions "are inserted into the namespace before the module is
    loaded": a module loaded for the first time finds them among its
    locals. */
module Preconditions {
  import opened Base
  import opened Json
  import opened Text
  import opened Paths
  import opened RuntimeStore
  import opened Loading
  import opened ModuleScope

  /** Existing entities and namespaces are left exactly as they were, and
      so are the registered modules; new namespaces get entities of their
      own. */
  predicate Quiet(s: Store, r: Store) {
    && |s.entities| <= |r.entities|
    && (forall e :: 0 <= e < |s.entities| ==> r.entities[e] == s.entities[e])
    && (forall n :: n in s.namespaces ==> n in r.namespaces && r.namespaces[n] == s.namespaces[n])
    && (Injective(s.namespaces) ==> Injective(r.namespaces))
    && r.modules == s.modules
  }

  lemma QuietTransitive(s: Store, t: Store, r: Store)
    requires Quiet(s, t) && Quiet(t, r)
    ensures Quiet(s, r)
  {
  }

  /** Asking for a namespace without dots creates it if need be and
      touches nothing else. */
  lemma GetPlainNamespaceQuiet(s: Store, validIdent: string -> bool, name: string)
    requires Wf(s) && '.' !in name
    ensures Quiet(s, GetNamespaceSpec(s, validIdent, name).store)
  {
    if validIdent(name) {
      var parts := Split(name, '.');
      assert parts == [name];
      assert parts[..1] == [name];
      assert Prefix(parts, 0) == name;
      assert NsFrom(s, parts, 0) == NsFrom(NsStep(s, parts, 0), parts, 1) == Ensure(s, name);
    }
  }

  lemma NewModuleQuiet(s: Store, validIdent: string -> bool, filename: string, id: string)
    requires Wf(s)
    ensures Quiet(s, NewModule(s, validIdent, filename, id).store)
  {
    GetPlainNamespaceQuiet(s, validIdent, "globals");
  }

  lemma LoadModuleFileQuiet(s: Store, env: Env, filename: string)
    requires Wf(s)
    ensures Quiet(s, LoadModuleFileSpec(s, env, filename, false).store)
  {
    var fn := env.normpath(filename);
    if fn !in s.filecache && IsFile(env.fs, fn) {
      var rd := ModuleHeader.ReadIdentifierSpec(ModuleHeader.Lines(env.fs[fn].contents), env.validIdent);
      if rd.Ok? {
        NewModuleQuiet(s, env.validIdent, fn, rd.value);
      }
    }
  }

  /** The search reads files without registering them: it leaves every
      entity and namespace as it was. */
  lemma {:induction false} ScanQuiet(s: Store, env: Env, i: nat)
    requires Wf(s) && i <= |env.searchFiles|
    ensures Quiet(s, ScanSpec(s, env, i).store)
    decreases |env.searchFiles| - i
  {
    if i < |env.searchFiles| {
      var path := env.searchFiles[i];
      if IsCandidate(env.fs, path) {
        var o := LoadModuleFileSpec(s, env, path, false);
        LoadModuleFileQuiet(s, env, path);
        if o.result.Ok? || o.result.error.InvalidModule? {
          ScanQuiet(o.store, env, i + 1);
          QuietTransitive(s, o.store, ScanSpec(o.store, env, i + 1).store);
        }
      } else {
        ScanQuiet(s, env, i + 1);
      }
    }
  }

  /** Every namespace along `name` exists and is linked from its parent,
      and no two names share an entity. */
  predicate Settled(s: Store, name: string)
    requires Wf(s)
  {
    var parts := Split(name, '.');
    && Injective(s.namespaces)
    && (forall j :: 0 <= j < |parts| ==> Prefix(parts, j) in s.namespaces)
    && (forall j :: 1 <= j < |parts| ==> Linked(s, parts, j))
  }

  lemma GetNamespaceSettles(s: Store, validIdent: string -> bool, name: string)
    requires Wf(s) && validIdent(name) && Injective(s.namespaces)
    ensures Settled(GetNamespaceSpec(s, validIdent, name).store, name)
  {
    NsFromAdds(s, Split(name, '.'), 0);
    NsFromFresh(s, Split(name, '.'), 0);
    GetNamespaceLinks(s, validIdent, name);
  }

  /** Asking again for a settled namespace changes nothing. */
  lemma SettledStable(s: Store, validIdent: string -> bool, name: string)
    requires Wf(s) && validIdent(name) && Settled(s, name)
    ensures GetNamespaceSpec(s, validIdent, name) == Outcome(Ok(NsProxy(name)), s)
  {
    NsFromStable(s, Split(name, '.'), 0);
  }

  lemma QuietKeepsSettled(s: Store, r: Store, name: string)
    requires Wf(s) && Wf(r) && Quiet(s, r) && Settled(s, name)
    ensures Settled(r, name)
  {
    var parts := Split(name, '.');
    forall j | 1 <= j < |parts|
      ensures Linked(r, parts, j)
    {
      assert Linked(s, parts, j);
    }
  }

  /** Setting attributes on the namespace of `name` itself leaves the
      links along the name in place. */
  lemma SetAllKeepsSettled(s: Store, name: string, pre: seq<(string, Value)>)
    requires Wf(s) && Settled(s, name) && name in s.namespaces
    ensures Wf(SetAll(s, s.namespaces[name], pre)) && Settled(SetAll(s, s.namespaces[name], pre), name)
  {
    var parts := Split(name, '.');
    var e := s.namespaces[name];
    var r := SetAll(s, e, pre);
    SetAllElsewhere(s, e, pre);
    assert r.namespaces == s.namespaces && r.mods == s.mods && |r.entities| == |s.entities|;
    assert Wf(r);
    LastPrefix(name);
    forall j | 1 <= j < |parts|
      ensures Linked(r, parts, j)
    {
      LinkKept(s, r, parts, j, e);
    }
  }

  lemma LinkKept(s: Store, r: Store, parts: seq<string>, j: nat, e: nat)
    requires Wf(s) && Wf(r) && 1 <= j < |parts| && Linked(s, parts, j) && Injective(s.namespaces)
    requires r.namespaces == s.namespaces && |r.entities| == |s.entities|
    requires Prefix(parts, |parts| - 1) in s.namespaces && e == s.namespaces[Prefix(parts, |parts| - 1)]
    requires forall x :: 0 <= x < |s.entities| && x != e ==> r.entities[x] == s.entities[x]
    ensures Linked(r, parts, j)
  {
    PrefixGrows(parts, j - 1, |parts| - 1);
    var pe := s.namespaces[Prefix(parts, j - 1)];
    assert pe != e;
    assert r.entities[pe] == s.entities[pe];
  }

  /** Registering a module whose namespace is settled and holds the given
      attributes gives the module's locals those attributes, except the
      ones starting with `__`. */
  lemma RegisterCopies(q: Store, validIdent: string -> bool, mm: nat, pre: seq<(string, Value)>)
    requires Wf(q) && mm < |q.mods| && !q.mods[mm].executed
    requires validIdent(q.mods[mm].identifier) && Settled(q, q.mods[mm].identifier)
    requires q.mods[mm].identifier in q.namespaces
    requires forall i :: 0 <= i < |pre| ==> Satisfies(q.entities[q.namespaces[q.mods[mm].identifier]].attrs, pre[i])
    ensures var o := RegisterSpec(q, validIdent, mm);
      o.result.Ok? ==> forall i :: 0 <= i < |pre| && !StartsWith(pre[i].0, "__") ==>
        Satisfies(o.store.entities[q.mods[mm].locals].attrs, pre[i])
  {
    var id := q.mods[mm].identifier;
    SettledStable(q, validIdent, id);
  }

  /** Loading a module that is not registered yet, after the preconditions
      were set on its namespace: once registered, its locals hold them. */
  lemma LoadCopies(p: Store, env: Env, name: string, req: Option<string>, pre: seq<(string, Value)>)
    requires Coherent(p) && name !in p.modules && env.validIdent(name) && Settled(p, name) && name in p.namespaces
    requires forall i :: 0 <= i < |pre| ==> Satisfies(p.entities[p.namespaces[name]].attrs, pre[i])
    ensures var l := LoadModuleSpec(p, env, name, req, true, true);
      l.result.Ok? ==> forall i :: 0 <= i < |pre| && !StartsWith(pre[i].0, "__") ==>
        Satisfies(l.store.entities[l.store.mods[l.result.value].locals].attrs, pre[i])
  {
    if name in p.idcache {
      assert LoadModuleSpec(p, env, name, req, true, true) == Finish(p, env.validIdent, p.idcache[name], true);
      RegisterAt(p, env, name, pre);
    } else {
      var sc := ScanSpec(p, env, 0);
      ScanQuiet(p, env, 0);
      ScanKeeps(p, env, 0);
      if sc.result.Ok? {
        assert LoadModuleSpec(p, env, name, req, true, true) == LoadModuleSpec(sc.store, env, name, req, false, true);
        if name in sc.store.idcache {
          assert LoadModuleSpec(sc.store, env, name, req, false, true) == Finish(sc.store, env.validIdent, sc.store.idcache[name], true);
          QuietKeepsSettled(p, sc.store, name);
          RegisterAt(sc.store, env, name, pre);
        }
      }
    }
  }

  /** Registering the module cached for `name`, whose namespace holds the
      preconditions, leaves them in its locals. */
  lemma RegisterAt(q: Store, env: Env, name: string, pre: seq<(string, Value)>)
    requires Coherent(q) && name !in q.modules && name in q.idcache && env.validIdent(name)
    requires Settled(q, name) && name in q.namespaces
    requires forall i :: 0 <= i < |pre| ==> Satisfies(q.entities[q.namespaces[name]].attrs, pre[i])
    ensures var o := Finish(q, env.validIdent, q.idcache[name], true);
      o.result.Ok? ==> forall i :: 0 <= i < |pre| && !StartsWith(pre[i].0, "__") ==>
        Satisfies(o.store.entities[o.store.mods[o.result.value].locals].attrs, pre[i])
  {
    var mm := q.idcache[name];
    assert q.mods[mm].identifier == name;
    assert !q.mods[mm].executed;
    RegisterCopies(q, env.validIdent, mm, pre);
    RegisterKeeps(q, env.validIdent, mm);
    var r := RegisterSpec(q, env.validIdent, mm);
    assert Finish(q, env.validIdent, mm, true).store == r.store;
    assert r.store.mods[mm].locals == q.mods[mm].locals;
  }

  /** Setting `key` on one entity of a store whose entities extend those
      of `s` unchanged keeps every other attribute of `s`. */
  lemma SetAttrKeepsOthers(s: Store, t: Store, e: nat, key: string, v: Value)
    requires e < |t.entities| && |s.entities| <= |t.entities|
    requires forall x :: 0 <= x < |s.entities| ==> t.entities[x] == s.entities[x]
    ensures var r := SetAttr(t, e, key, v);
      forall x, k :: 0 <= x < |s.entities| && k in s.entities[x].attrs && k != key ==>
        k in r.entities[x].attrs && r.entities[x].attrs[k] == s.entities[x].attrs[k]
  {
  }

  /** Binding a root namespace in a module's locals changes no attribute
      but the one named after the root. */
  lemma BindRootKeeps(s: Store, validIdent: string -> bool, m: nat, root: string)
    requires Wf(s) && m < |s.mods| && '.' !in root
    ensures var o := ModuleGetNamespaceSpec(s, validIdent, m, root);
      && |s.entities| <= |o.store.entities|
      && forall x, k :: 0 <= x < |s.entities| && k in s.entities[x].attrs && k != root ==>
           k in o.store.entities[x].attrs && o.store.entities[x].attrs[k] == s.entities[x].attrs[k]
  {
    var o := ModuleGetNamespaceSpec(s, validIdent, m, root);
    GetPlainNamespaceQuiet(s, validIdent, root);
    var g := GetNamespaceSpec(s, validIdent, root);
    if g.result.Ok? {
      GetPlainNamespaceQuiet(g.store, validIdent, root);
      var r := GetNamespaceSpec(g.store, validIdent, root);
      QuietTransitive(s, g.store, r.store);
      if r.result.Ok? {
        assert o.store == SetAttr(r.store, s.mods[m].locals, root, r.result.value);
        SetAttrKeepsOthers(s, r.store, s.mods[m].locals, root, r.result.value);
      }
    }
  }

  /** `load_module(name, **preconditions)` of a module not loaded yet:
      when it succeeds, the locals it returns hold every precondition
      (with distinct keys) whose name neither starts with `__` nor is the
      root of the module name, which `load_module` rebinds. */
  lemma PreconditionsReachModule(s: Store, env: Env, m: nat, name: string, pre: seq<(string, Value)>)
    requires Coherent(s) && Injective(s.namespaces) && m < |s.mods| && name !in s.modules
    requires forall i, j :: 0 <= i < j < |pre| ==> pre[i].0 != pre[j].0
    ensures var o := ModuleLoadSpec(s, env, m, Data(JStr(name)), pre);
      o.result.Ok? ==>
        && o.result.value.EntityRef? && o.result.value.entity < |o.store.entities|
        && forall i :: 0 <= i < |pre| && !StartsWith(pre[i].0, "__") && pre[i].0 != Split(name, '.')[0] ==>
             Satisfies(o.store.entities[o.result.value.entity].attrs, pre[i])
  {
    var o := ModuleLoadSpec(s, env, m, Data(JStr(name)), pre);
    if o.result.Ok? {
      var req := Some(ModuleRepr(s.mods[m]));
      var root := Split(name, '.')[0];
      var p := Prepared(s, env.validIdent, name, pre);
      var l := LoadModuleSpec(p.store, env, name, req, true, true);
      ModuleLoadSteps(s, env, m, name, pre);
      PreparedSets(s, env.validIdent, name, pre);
      LoadCopies(p.store, env, name, req, pre);
      BindRootKeeps(l.store, env.validIdent, m, root);
      var x := l.store.mods[l.result.value].locals;
      assert o.result.value == EntityRef(x) && x < |l.store.entities|;
      var before := l.store.entities[x].attrs;
      forall i | 0 <= i < |pre| && !StartsWith(pre[i].0, "__") && pre[i].0 != root
        ensures Satisfies(o.store.entities[x].attrs, pre[i])
      {
        assert Satisfies(before, pre[i]);
      }
    }
  }

  /** The steps of a successful `load_module` by name. */
  lemma ModuleLoadSteps(s: Store, env: Env, m: nat, name: string, pre: seq<(string, Value)>)
    requires Wf(s) && m < |s.mods|
    ensures var o := ModuleLoadSpec(s, env, m, Data(JStr(name)), pre);
      var p := Prepared(s, env.validIdent, name, pre);
      o.result.Ok? ==>
        && p.result.Ok?
        && var l := LoadModuleSpec(p.store, env, name, Some(ModuleRepr(s.mods[m])), true, true);
        && l.result.Ok? && m < |l.store.mods|
        && o.result.value == EntityRef(l.store.mods[l.result.value].locals)
        && o.store == ModuleGetNamespaceSpec(l.store, env.validIdent, m, Split(name, '.')[0]).store
  {
    assert NameOf(s, Data(JStr(name))) == Ok(name);
    var p := Prepared(s, env.validIdent, name, pre);
    if p.result.Ok? {
      var l := LoadModuleSpec(p.store, env, name, Some(ModuleRepr(s.mods[m])), true, true);
      if l.result.Ok? {
        var n := ModuleGetNamespaceSpec(l.store, env.validIdent, m, Split(name, '.')[0]);
        assert ModuleLoadSpec(s, env, m, Data(JStr(name)), pre)
          == if n.result.Err? then Outcome(Err(n.result.error), n.store)
             else Outcome(Ok(EntityRef(l.store.mods[l.result.value].locals)), n.store);
      }
    }
  }

  /** Setting the preconditions on a namespace: it is settled afterwards
      and holds them all. */
  lemma PreparedSets(s: Store, validIdent: string -> bool, name: string, pre: seq<(string, Value)>)
    requires Coherent(s) && Injective(s.namespaces) && name !in s.modules
    requires forall i, j :: 0 <= i < j < |pre| ==> pre[i].0 != pre[j].0
    ensures var p := Prepared(s, validIdent, name, pre);
      p.result.Ok? ==>
        && Coherent(p.store) && name !in p.store.modules && Settled(p.store, name) && name in p.store.namespaces
        && forall i :: 0 <= i < |pre| ==> Satisfies(p.store.entities[p.store.namespaces[name]].attrs, pre[i])
  {
    var p := Prepared(s, validIdent, name, pre);
    if p.result.Ok? {
      var g := GetNamespaceSpec(s, validIdent, name);
      GetNamespaceSettles(s, validIdent, name);
      NamespaceExists(s, validIdent, name);
      var e := g.store.namespaces[name];
      assert p.store == SetAll(g.store, e, pre);
      SetAllKeepsSettled(g.store, name, pre);
      SetAllElsewhere(g.store, e, pre);
      SetAllSatisfies(g.store, e, pre);
      FirstConflictIsFirst(p.store.entities[e].attrs, pre);
      PreparedKeeps(s, validIdent, name, pre);
    }
  }
}
