/** The `Session` and `Module` objects of craftr/runtime.py. A `Session`
    holds the dictionaries and the objects they refer to and changes them
    in place; each method does what the function of the same operation in
    `RuntimeStore`, `Loading` and `ModuleScope` says of the state before
    the call. A `Module` is the session it lives in and its index there. */
module Runtime {
  import opened Base
  import opened Json
  import opened Text
  import opened Paths
  import opened Targets
  import opened RuntimeStore
  import opened Loading
  import ModuleHeader
  import ModuleScope

  class Session {
    var entities: seq<Entity>
    var namespaces: map<string, nat>
    var mods: seq<ModuleRec>
    var modules: map<string, nat>
    var idcache: map<string, nat>
    var filecache: map<string, nat>

    function State(): Store
      reads this
    {
      Store(entities, namespaces, mods, modules, idcache, filecache)
    }

    /** A session with no namespaces and no modules. */
    constructor()
      ensures State() == Store([], map[], [], map[], map[], map[]) && Coherent(State())
    {
      entities := [];
      namespaces := map[];
      mods := [];
      modules := map[];
      idcache := map[];
      filecache := map[];
    }

    /** `Session.get_namespace(name)`. */
    method GetNamespace(validIdent: string -> bool, name: string) returns (r: Result<Value, RuntimeFault>)
      requires Wf(State())
      modifies this
      ensures Outcome(r, State()) == GetNamespaceSpec(old(State()), validIdent, name)
      ensures Wf(State())
    {
      if !validIdent(name) {
        return Err(InvalidNamespaceName(name));
      }
      var parts := Split(name, '.');
      ghost var s0 := State();
      var ents: seq<Entity>, ns: map<string, nat> := entities, namespaces;
      var k := 0;
      while k < |parts|
        invariant 0 <= k <= |parts| && State() == s0
        invariant Wf(s0.(entities := ents, namespaces := ns))
        invariant k > 0 ==> Prefix(parts, k - 1) in ns
        invariant NsFrom(s0.(entities := ents, namespaces := ns), parts, k) == NsFrom(s0, parts, 0)
        decreases |parts| - k
      {
        ents, ns := NamespaceStep(s0, ents, ns, parts, k);
        k := k + 1;
      }
      assert NsFrom(s0.(entities := ents, namespaces := ns), parts, k) == s0.(entities := ents, namespaces := ns);
      entities, namespaces := ents, ns;
      assert State() == s0.(entities := ents, namespaces := ns);
      return Ok(NsProxy(name));
    }

    /** `Session._register_module(module)`; the attributes of the namespace
        entity are copied one by one, in no particular order. */
    method RegisterModule(validIdent: string -> bool, m: nat) returns (r: Result<(), RuntimeFault>)
      requires Wf(State()) && m < |mods|
      modifies this
      ensures Outcome(r, State()) == RegisterSpec(old(State()), validIdent, m)
      ensures Wf(State())
    {
      if mods[m].executed {
        return Ok(());
      }
      var id := mods[m].identifier;
      ghost var s0 := State();
      var g := GetNamespace(validIdent, id);
      if g.Err? {
        return Err(g.error);
      }
      NamespaceExists(s0, validIdent, id);
      var e := namespaces[id];
      var eid := entities[e].entityId;
      if StartsWith(eid, "ns:") {
        TakeOver(e, m);
        return Ok(());
      } else if StartsWith(eid, "module:") {
        return Err(IdentifierOccupied(id));
      } else {
        return Err(UnexpectedEntity(eid));
      }
    }

    /** The namespace entity's public attributes move into the module's
        locals, which take the namespace's place. */
    method TakeOver(e: nat, m: nat)
      requires Wf(State()) && e < |entities| && m < |mods|
      modifies this
      ensures State() == Registered(Absorbed(old(State()), e, m), m)
    {
      var loc := mods[m].locals;
      var id := mods[m].identifier;
      var attrs := CopyAttributes(entities[e].attrs, entities[loc].attrs);
      entities := entities[loc := entities[loc].(attrs := attrs)];
      modules := modules[id := m];
      namespaces := namespaces[id := loc];
      mods := mods[m := mods[m].(executed := true)];
    }

    /** `if register: self._register_module(module)`, then the module. */
    method FinishLoad(validIdent: string -> bool, m: nat, register: bool) returns (r: Result<nat, RuntimeFault>)
      requires Wf(State()) && m < |mods|
      modifies this
      ensures Outcome(r, State()) == Finish(old(State()), validIdent, m, register)
      ensures Wf(State())
    {
      if register {
        var reg := RegisterModule(validIdent, m);
        if reg.Err? {
          return Err(reg.error);
        }
      }
      return Ok(m);
    }

    /** The module cached under its identifier and file, then registered if
        asked. */
    method CacheAndFinish(validIdent: string -> bool, fn: string, m: nat, register: bool) returns (r: Result<nat, RuntimeFault>)
      requires Wf(State()) && m < |mods|
      modifies this
      ensures Outcome(r, State()) == Finish(CacheModule(old(State()), fn, m), validIdent, m, register)
      ensures Wf(State())
    {
      var id := mods[m].identifier;
      if id != "" && id !in idcache {
        idcache := idcache[id := m];
        filecache := filecache[fn := m];
      }
      r := FinishLoad(validIdent, m, register);
    }

    /** `Module(self, filename)` whose `read_identifier` found `id`: its
        locals entity, initialised by `_init_locals`. */
    method CreateModule(validIdent: string -> bool, fn: string, id: string) returns (r: Result<nat, RuntimeFault>)
      requires Wf(State())
      modifies this
      ensures Outcome(r, State()) == NewModule(old(State()), validIdent, fn, id)
      ensures Wf(State())
    {
      var g := GetNamespace(validIdent, "globals");
      if g.Err? {
        return Err(g.error);
      }
      var loc := |entities|;
      var m := |mods|;
      entities := entities + [Entity("module:" + id, InitLocals(fn, loc, m))];
      mods := mods + [ModuleRec(fn, id, loc, false, map[])];
      return Ok(m);
    }

    /** `Session.load_module_file(filename, register)`. */
    method LoadModuleFile(env: Env, filename: string, register: bool) returns (r: Result<nat, RuntimeFault>)
      requires Wf(State())
      modifies this
      ensures Outcome(r, State()) == LoadModuleFileSpec(old(State()), env, filename, register)
      ensures Wf(State())
    {
      var fn := env.normpath(filename);
      if fn in filecache {
        r := CacheAndFinish(env.validIdent, fn, filecache[fn], register);
        return;
      }
      if !IsFile(env.fs, fn) {
        return Err(FileUnreadable(fn));
      }
      var read := ModuleHeader.ReadIdentifier(ModuleHeader.Lines(env.fs[fn].contents), env.validIdent);
      if read.Err? {
        return Err(InvalidModule(fn));
      }
      var id := read.value;
      ghost var s0 := State();
      var created := CreateModule(env.validIdent, fn, id);
      if created.Err? {
        return Err(created.error);
      }
      var m := created.value;
      if id in idcache {
        return Err(IdentifierClash(fn, mods[idcache[id]].filename, id));
      }
      r := CacheAndFinish(env.validIdent, fn, m, register);
      assert Outcome(r, State()) == LoadNew(s0, env.validIdent, fn, id, register);
    }

    /** `Session.load_module(name, required_by, allow_reload, register)`. */
    method LoadModule(env: Env, name: string, requiredBy: Option<string>, allowReload: bool, register: bool)
      returns (r: Result<nat, RuntimeFault>)
      requires Wf(State())
      modifies this
      ensures Outcome(r, State()) == LoadModuleSpec(old(State()), env, name, requiredBy, allowReload, register)
      ensures Wf(State())
      decreases if allowReload then 1 else 0
    {
      if !env.validIdent(name) {
        return Err(InvalidModuleName(name));
      }
      if name in modules {
        return Ok(modules[name]);
      }
      if name in idcache {
        r := FinishLoad(env.validIdent, idcache[name], register);
        return;
      }
      if !allowReload {
        return Err(NoSuchModule(name, requiredBy, LoadMode));
      }
      var sc := Scan(env);
      if sc.Err? {
        return Err(sc.error);
      }
      r := LoadModule(env, name, requiredBy, false, true);
    }

    /** The search of `Session.load_module`: every `Craftfile` and every
        `*.craftr` file among `env.searchFiles` is loaded, in order, without
        registering; an `InvalidModule` is skipped and any other error ends
        the search. */
    method Scan(env: Env) returns (r: Result<(), RuntimeFault>)
      requires Wf(State())
      modifies this
      ensures Outcome(r, State()) == ScanSpec(old(State()), env, 0)
      ensures Wf(State())
    {
      ghost var s0 := State();
      var i := 0;
      while i < |env.searchFiles|
        invariant 0 <= i <= |env.searchFiles| && Wf(State())
        invariant ScanSpec(State(), env, i) == ScanSpec(s0, env, 0)
        decreases |env.searchFiles| - i
      {
        ghost var before := State();
        var path := env.searchFiles[i];
        if IsCandidate(env.fs, path) {
          var o := LoadModuleFile(env, path, false);
          assert Outcome(o, State()) == LoadModuleFileSpec(before, env, path, false);
          if o.Err? && !o.error.InvalidModule? {
            assert ScanSpec(before, env, i) == Outcome(Err(o.error), State());
            return Err(o.error);
          }
          assert ScanSpec(before, env, i) == ScanSpec(State(), env, i + 1);
        } else {
          assert ScanSpec(before, env, i) == ScanSpec(State(), env, i + 1);
        }
        i := i + 1;
      }
      return Ok(());
    }
  }

  /** A `Module` of a session: the session and the index of its record
      there. Its methods change the session's state in place. */
  class Module {
    const session: Session
    const index: nat

    constructor(session: Session, index: nat)
      requires index < |session.mods|
      ensures this.session == session && this.index == index
    {
      this.session := session;
      this.index := index;
    }

    predicate Valid()
      reads session
    {
      Wf(session.State()) && index < |session.mods|
    }

    /** `Module._resolve(varname)`: `getattr` along all parts but the last,
        from the locals on. */
    method Resolve(varname: string) returns (r: Result<(Value, string), RuntimeFault>)
      requires Valid()
      ensures r == ModuleScope.Resolve(session.State(), index, varname)
    {
      var parts := Split(varname, '.');
      var obj := EntityRef(session.mods[index].locals);
      var i := 0;
      while i < |parts| - 1
        invariant 0 <= i <= |parts| - 1
        invariant ModuleScope.Walk(session.State(), ModuleScope.Locals(session.State(), index), parts[..i]) == Ok(obj)
        decreases |parts| - i
      {
        assert parts[..i + 1][..i] == parts[..i];
        match GetAttr(session.State(), obj, parts[i])
        case None =>
          ghost var st := session.State();
          ghost var locals := ModuleScope.Locals(st, index);
          assert ModuleScope.Walk(st, locals, parts[..i + 1]) == Err(AttributeMissing(parts[i]));
          ModuleScope.WalkConcat(st, locals, parts[..i + 1], parts[i + 1..|parts| - 1]);
          assert parts[..i + 1] + parts[i + 1..|parts| - 1] == parts[..|parts| - 1];
          return Err(AttributeMissing(parts[i]));
        case Some(v) =>
          obj := v;
        i := i + 1;
      }
      return Ok((obj, parts[|parts| - 1]));
    }

    /** `Module.get(name, default, check_globals)`. */
    method Get(name: string, default: Option<Value>, checkGlobals: bool) returns (r: Result<Value, RuntimeFault>)
      requires Valid()
      ensures r == ModuleScope.GetSpec(session.State(), index, name, default, checkGlobals)
    {
      var res := Resolve(name);
      if res.Err? {
        return Err(res.error);
      }
      var (obj, key) := res.value;
      var found := GetAttr(session.State(), obj, key);
      if found.Some? {
        return Ok(found.value);
      }
      if default.None? {
        return Err(AttributeMissing(key));
      }
      var locals := EntityRef(session.mods[index].locals);
      if checkGlobals && obj == locals {
        var g := GetAttr(session.State(), locals, "G");
        if g.Some? {
          var v := GetAttr(session.State(), g.value, key);
          if v.Some? {
            return Ok(v.value);
          }
        }
      }
      return Ok(default.value);
    }

    /** `Module.defined(varname)`. */
    method Defined(varname: string) returns (b: bool)
      requires Valid()
      ensures b == ModuleScope.Defined(session.State(), index, varname)
    {
      var res := Resolve(varname);
      if res.Err? {
        return false;
      }
      return GetAttr(session.State(), res.value.0, res.value.1).Some?;
    }

    /** `setattr(obj, key, v)` on the session's objects. */
    method SetOn(obj: Value, key: string, v: Value) returns (r: Result<(), RuntimeFault>)
      requires Valid()
      modifies session
      ensures Outcome(r, session.State()) == ModuleScope.SetOn(old(session.State()), obj, key, v)
      ensures Valid()
    {
      match Deref(session.State(), obj)
      case None =>
        return Err(AttributeMissing(key));
      case Some(e) =>
        session.entities := session.entities[e := session.entities[e].(attrs := session.entities[e].attrs[key := v])];
        return Ok(());
    }

    /** `Module.setdefault(name, default, check_globals, set_global)`. */
    method SetDefault(name: string, default: Value, checkGlobals: bool, setGlobal: bool) returns (r: Result<Value, RuntimeFault>)
      requires Valid()
      modifies session
      ensures Outcome(r, session.State()) == ModuleScope.SetDefaultSpec(old(session.State()), index, name, default, checkGlobals, setGlobal)
      ensures Valid()
    {
      ghost var s0 := session.State();
      var res := Resolve(name);
      if res.Err? {
        return Err(res.error);
      }
      var (obj, key) := res.value;
      var v := default;
      var found := GetAttr(session.State(), obj, key);
      var locals := EntityRef(session.mods[index].locals);
      if found.Some? {
        v := found.value;
      } else if checkGlobals && obj == locals {
        var g := GetAttr(session.State(), locals, "G");
        if g.Some? {
          var gv := GetAttr(session.State(), g.value, key);
          if gv.Some? {
            v := gv.value;
          }
        }
      }
      assert v == ModuleScope.DefaultValue(s0, index, obj, key, default, checkGlobals);
      var setLocal := SetOn(obj, key, v);
      if setLocal.Err? {
        return Err(setLocal.error);
      }
      if !setGlobal {
        return Ok(v);
      }
      var g := GetAttr(session.State(), locals, "G");
      if g.None? {
        return Err(AttributeMissing("G"));
      }
      var setG := SetOn(g.value, key, v);
      if setG.Err? {
        return Err(setG.error);
      }
      return Ok(v);
    }

    /** `Module.target(name, **kwargs)` with the built-in `Target` class. */
    method Target(name: string, kwargs: Kwargs, validVar: string -> bool) returns (r: Result<Value, RuntimeFault>)
      requires Valid()
      modifies session
      ensures Outcome(r, session.State()) == ModuleScope.TargetDeclSpec(old(session.State()), index, name, kwargs, validVar)
      ensures Valid()
    {
      var loc := session.mods[index].locals;
      if name == "" {
        return Err(AssignedNameUnavailable);
      }
      if name in session.entities[loc].attrs {
        return Err(TargetOverridesLocal(name));
      }
      var t := NewTarget(index, name, Remove(kwargs, "target_class"), validVar);
      if t.Err? {
        return Err(TargetRejected(t.error));
      }
      var mod := session.mods[index];
      session.mods := session.mods[index := mod.(targets := mod.targets[name := t.value])];
      session.entities := session.entities[loc := session.entities[loc].(attrs := session.entities[loc].attrs[name := TargetRef(index, name)])];
      return Ok(TargetRef(index, name));
    }

    /** `Module.get_namespace(name)`. */
    method GetNamespace(validIdent: string -> bool, name: string) returns (r: Result<Value, RuntimeFault>)
      requires Valid()
      modifies session
      ensures Outcome(r, session.State()) == ModuleScope.ModuleGetNamespaceSpec(old(session.State()), validIdent, index, name)
      ensures Valid()
    {
      var ns := session.GetNamespace(validIdent, name);
      if ns.Err? {
        return ns;
      }
      var rootName := Split(name, '.')[0];
      var root := session.GetNamespace(validIdent, rootName);
      if root.Err? {
        return Err(root.error);
      }
      ghost var before := session.State();
      var loc := session.mods[index].locals;
      session.entities := session.entities[loc := session.entities[loc].(attrs := session.entities[loc].attrs[rootName := root.value])];
      assert session.State() == SetAttr(before, loc, rootName, root.value);
      return ns;
    }

    /** The precondition step of `Module.load_module`: checked one by one
        against the locals of a loaded module, or set one by one on the
        namespace of a module not loaded yet. */
    method Prepare(validIdent: string -> bool, name: string, pre: seq<(string, Value)>) returns (r: Result<(), RuntimeFault>)
      requires Valid()
      modifies session
      ensures Outcome(r, session.State()) == ModuleScope.Prepared(old(session.State()), validIdent, name, pre)
      ensures Valid()
    {
      ghost var s0 := session.State();
      if name in session.modules {
        var mod := session.mods[session.modules[name]];
        var attrs := session.entities[mod.locals].attrs;
        ModuleScope.FirstConflictIsFirst(attrs, pre);
        var i := 0;
        while i < |pre|
          invariant 0 <= i <= |pre|
          invariant forall j :: 0 <= j < i ==> ModuleScope.Satisfies(attrs, pre[j])
          decreases |pre| - i
        {
          if pre[i].0 !in attrs || attrs[pre[i].0] != pre[i].1 {
            assert ModuleScope.FirstConflict(attrs, pre) == Some(i);
            return Err(PreconditionConflict(mod.identifier, pre[i].0, pre[i].1));
          }
          i := i + 1;
        }
        return Ok(());
      }
      var g := session.GetNamespace(validIdent, name);
      if g.Err? {
        return Err(g.error);
      }
      NamespaceExists(s0, validIdent, name);
      var e := session.namespaces[name];
      ghost var s1 := session.State();
      var i := 0;
      while i < |pre|
        invariant 0 <= i <= |pre| && |session.entities| == |s1.entities|
        invariant session.State() == s1.(entities := session.entities)
        invariant ModuleScope.SetAll(session.State(), e, pre[i..]) == ModuleScope.SetAll(s1, e, pre)
        decreases |pre| - i
      {
        assert pre[i..][1..] == pre[i + 1..];
        session.entities := session.entities[e := session.entities[e].(attrs := session.entities[e].attrs[pre[i].0 := pre[i].1])];
        i := i + 1;
      }
      return Ok(());
    }

    /** `Module.load_module(name, **preconditions)`. */
    method LoadModule(env: Env, nameArg: Value, pre: seq<(string, Value)>) returns (r: Result<Value, RuntimeFault>)
      requires Valid()
      modifies session
      ensures Outcome(r, session.State()) == ModuleScope.ModuleLoadSpec(old(session.State()), env, index, nameArg, pre)
      ensures Valid()
    {
      var nm := ModuleScope.NameOf(session.State(), nameArg);
      if nm.Err? {
        return Err(nm.error);
      }
      var name := nm.value;
      var requiredBy := Some(ModuleScope.ModuleRepr(session.mods[index]));
      var p := Prepare(env.validIdent, name, pre);
      if p.Err? {
        return Err(p.error);
      }
      var l := session.LoadModule(env, name, requiredBy, true, true);
      if l.Err? {
        return Err(l.error);
      }
      var loaded := session.mods[l.value].locals;
      var n := GetNamespace(env.validIdent, Split(name, '.')[0]);
      if n.Err? {
        return Err(n.error);
      }
      return Ok(EntityRef(loaded));
    }
  }

  /** One pass of the loop in `Session.get_namespace`: the namespace of the
      first `k + 1` parts is created if missing and, below the top level,
      set as an attribute of its parent. */
  method NamespaceStep(ghost s0: Store, ents: seq<Entity>, ns: map<string, nat>, parts: seq<string>, k: nat)
    returns (ents': seq<Entity>, ns': map<string, nat>)
    requires Wf(s0.(entities := ents, namespaces := ns)) && k < |parts|
    requires k > 0 ==> Prefix(parts, k - 1) in ns
    ensures s0.(entities := ents', namespaces := ns') == NsStep(s0.(entities := ents, namespaces := ns), parts, k)
  {
    ghost var before := s0.(entities := ents, namespaces := ns);
    var prefix := Prefix(parts, k);
    ents', ns' := ents, ns;
    if prefix !in ns {
      ns' := ns[prefix := |ents|];
      ents' := ents + [Entity("ns:" + prefix, map[])];
    }
    ghost var ensured := s0.(entities := ents', namespaces := ns');
    assert ensured == Ensure(before, prefix);
    if k > 0 {
      var parent := ns'[Prefix(parts, k - 1)];
      ents' := ents'[parent := ents'[parent].(attrs := ents'[parent].attrs[parts[k] := NsProxy(prefix)])];
      assert s0.(entities := ents', namespaces := ns') == SetAttr(ensured, parent, parts[k], NsProxy(prefix));
    }
  }

  /** `for key, value in vars(prev).items(): if not key.startswith('__'):
      setattr(module.locals, key, value)`, the keys taken in no particular
      order. */
  method CopyAttributes(src: map<string, Value>, dst: map<string, Value>) returns (attrs: map<string, Value>)
    ensures attrs == CopyPublic(src, dst)
  {
    attrs := dst;
    var keys := src.Keys;
    while keys != {}
      invariant keys <= src.Keys
      invariant attrs == CopyPublic(map k | k in src && k !in keys :: src[k], dst)
      decreases keys
    {
      var k :| k in keys;
      CopyOneMore(src, keys, k, dst);
      if !StartsWith(k, "__") {
        attrs := attrs[k := src[k]];
      }
      keys := keys - {k};
    }
    assert (map k | k in src && k !in keys :: src[k]) == src;
  }

  /** One more key copied: the copy of the keys done so far grows by it,
      unless it starts with `__`. */
  lemma CopyOneMore(src: map<string, Value>, keys: set<string>, k: string, dst: map<string, Value>)
    requires k in keys && keys <= src.Keys
    ensures var done := map x | x in src && x !in keys :: src[x];
      var next := map x | x in src && x !in keys - {k} :: src[x];
      CopyPublic(next, dst) == if StartsWith(k, "__") then CopyPublic(done, dst) else CopyPublic(done, dst)[k := src[k]]
  {
    var done := map x | x in src && x !in keys :: src[x];
    var next := map x | x in src && x !in keys - {k} :: src[x];
    assert next == done[k := src[k]];
    CopyPublicAdd(done, k, src[k], dst);
  }

  /** Copying one more attribute. */
  lemma CopyPublicAdd(done: map<string, Value>, k: string, v: Value, dst: map<string, Value>)
    ensures CopyPublic(done[k := v], dst) == if StartsWith(k, "__") then CopyPublic(done, dst) else CopyPublic(done, dst)[k := v]
  {
    var a := CopyPublic(done[k := v], dst);
    var b := if StartsWith(k, "__") then CopyPublic(done, dst) else CopyPublic(done, dst)[k := v];
    forall x
      ensures x in a <==> x in b
      ensures x in a ==> a[x] == b[x]
    {
    }
  }
}
