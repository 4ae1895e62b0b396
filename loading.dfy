/** `Session._register_module`, `Session.load_module_file` and
    `Session.load_module` (craftr/runtime.py) as functions of the store,
    with the invariant that keeps the module caches coherent. */
module Loading {
  import opened Base
  import opened Json
  import opened Text
  import opened Paths
  import opened RuntimeStore
  import ModuleHeader

  /** What the session consults outside its own state: `utils.ident.validate`,
      `utils.path.normpath`, the file system, and the files
      `utils.path.iter_tree(self.path, depth=2)` lists, in order. */
  datatype Env = Env(validIdent: string -> bool, normpath: string -> string, fs: Tree, searchFiles: seq<string>)

  /** The functions `Module._init_locals` exposes to a module. */
  const ExposedFunctions: set<string> := {
    "append_search_path", "extends", "load_module", "get_namespace", "defined", "setdefault",
    "target", "return_", "info", "warn", "error", "join", "dirname", "normpath", "basename",
    "glob", "move", "addprefix", "addsuffix", "rmvsuffix", "autoexpand", "Process", "CommandBuilder"}

  /** The attributes `Module._init_locals` gives the locals entity `loc` of
      module `m` read from `filename`, in the order it sets them. */
  function InitLocals(filename: string, loc: nat, m: nat): map<string, Value> {
    map[
      "__name__" := Data(JStr("__craftr__")),
      "__file__" := Data(JStr(filename)),
      "G" := NsProxy("globals"),
      "session" := Builtin("session"),
      "module" := ModuleObj(m),
      "self" := EntityRef(loc),
      "project_dir" := Data(JStr(Dirname(filename)))]
    + map k | k in ExposedFunctions :: Builtin(k)
  }

  /** The exposed functions are set last, so each is bound to itself. */
  lemma InitLocalsExposes(filename: string, loc: nat, m: nat)
    ensures var attrs := InitLocals(filename, loc, m);
      forall k :: k in ExposedFunctions ==> k in attrs && attrs[k] == Builtin(k)
  {
  }

  /** The locals also hold the module and session objects, their own
      entity as `self`, the `globals` namespace as `G`, and the file and its
      directory; no exposed function hides them. */
  lemma InitLocalsBinds(filename: string, loc: nat, m: nat)
    ensures var attrs := InitLocals(filename, loc, m);
      && attrs["G"] == NsProxy("globals") && attrs["session"] == Builtin("session")
      && attrs["self"] == EntityRef(loc) && attrs["module"] == ModuleObj(m)
      && attrs["__file__"] == Data(JStr(filename)) && attrs["__name__"] == Data(JStr("__craftr__"))
      && attrs["project_dir"] == Data(JStr(Dirname(filename)))
  {
    GeneralNotExposed();
  }

  /** None of the names `_init_locals` sets first is one of the exposed
      functions it sets afterwards. */
  lemma GeneralNotExposed()
    ensures "G" !in ExposedFunctions && "self" !in ExposedFunctions && "session" !in ExposedFunctions
    ensures "module" !in ExposedFunctions && "project_dir" !in ExposedFunctions
    ensures "__file__" !in ExposedFunctions && "__name__" !in ExposedFunctions
  {
  }

  // ----- the invariant -----

  /** `_mod_idcache` maps an identifier to a module that declares it. */
  predicate IdcacheOk(s: Store)
    requires Wf(s)
  {
    forall n :: n in s.idcache ==> s.mods[s.idcache[n]].identifier == n
  }

  /** `_mod_filecache` maps a file to the module read from it, which is
      also the one cached for its identifier. */
  predicate FilecacheOk(s: Store)
    requires Wf(s)
  {
    forall f :: f in s.filecache ==>
      s.mods[s.filecache[f]].filename == f
      && s.mods[s.filecache[f]].identifier in s.idcache
      && s.idcache[s.mods[s.filecache[f]].identifier] == s.filecache[f]
  }

  /** `modules` holds executed modules, each the one cached for its name. */
  predicate ModulesOk(s: Store)
    requires Wf(s)
  {
    forall n :: n in s.modules ==> n in s.idcache && s.idcache[n] == s.modules[n] && s.mods[s.modules[n]].executed
  }

  /** Every executed module is registered under its identifier. */
  predicate ExecutedOk(s: Store)
    requires Wf(s)
  {
    forall i :: 0 <= i < |s.mods| && s.mods[i].executed ==>
      s.mods[i].identifier in s.modules && s.modules[s.mods[i].identifier] == i
  }

  /** The caches agree with each other and with the modules they hold. */
  predicate Coherent(s: Store) {
    Wf(s) && IdcacheOk(s) && FilecacheOk(s) && ModulesOk(s) && ExecutedOk(s)
  }

  /** Modules keep their identifier, file and locals, and stay executed. */
  predicate ModsGrow(s: Store, r: Store) {
    && |s.mods| <= |r.mods|
    && (forall i :: 0 <= i < |s.mods| ==>
          r.mods[i].identifier == s.mods[i].identifier && r.mods[i].filename == s.mods[i].filename
          && r.mods[i].locals == s.mods[i].locals && (s.mods[i].executed ==> r.mods[i].executed))
  }

  /** Entities are only added, and keep their ids. */
  predicate EntitiesGrow(s: Store, r: Store) {
    && |s.entities| <= |r.entities|
    && (forall e :: 0 <= e < |s.entities| ==> r.entities[e].entityId == s.entities[e].entityId)
  }

  /** Cache entries, registrations and namespace names are only added. */
  predicate MapsGrow(s: Store, r: Store) {
    && (forall n :: n in s.idcache ==> n in r.idcache && r.idcache[n] == s.idcache[n])
    && (forall f :: f in s.filecache ==> f in r.filecache && r.filecache[f] == s.filecache[f])
    && (forall n :: n in s.modules ==> n in r.modules && r.modules[n] == s.modules[n])
    && (forall n :: n in s.namespaces ==> n in r.namespaces)
  }

  /** How the store may change while modules are loaded. */
  predicate Grows(s: Store, r: Store) {
    ModsGrow(s, r) && EntitiesGrow(s, r) && MapsGrow(s, r)
  }

  lemma GrowsTransitive(s: Store, t: Store, r: Store)
    requires Grows(s, t) && Grows(t, r)
    ensures Grows(s, r)
  {
  }

  /** A change that leaves the modules and their caches alone keeps them
      coherent. */
  lemma SameModulesKeep(s: Store, r: Store)
    requires Coherent(s) && Wf(r)
    requires r.mods == s.mods && r.modules == s.modules && r.idcache == s.idcache && r.filecache == s.filecache
    ensures Coherent(r)
  {
  }

  /** Setting an attribute keeps the store coherent. */
  lemma SetAttrKeeps(s: Store, e: nat, key: string, v: Value)
    requires Coherent(s) && e < |s.entities|
    ensures Coherent(SetAttr(s, e, key, v)) && Grows(s, SetAttr(s, e, key, v))
  {
    SameModulesKeep(s, SetAttr(s, e, key, v));
  }

  lemma GetNamespaceGrows(s: Store, validIdent: string -> bool, name: string)
    requires Coherent(s)
    ensures Coherent(GetNamespaceSpec(s, validIdent, name).store)
    ensures Grows(s, GetNamespaceSpec(s, validIdent, name).store)
  {
    if validIdent(name) {
      var r := NsFrom(s, Split(name, '.'), 0);
      NsFromKeeps(s, Split(name, '.'), 0);
      SameModulesKeep(s, r);
      assert Grows(s, r);
    }
  }

  // ----- Session._register_module -----

  /** The attributes `vars(prev)` lists that do not start with `__`, set on
      `dst` over its own. */
  function CopyPublic(src: map<string, Value>, dst: map<string, Value>): (r: map<string, Value>)
    ensures forall k :: k in r <==> k in dst || (k in src && !StartsWith(k, "__"))
    ensures forall k :: k in src && !StartsWith(k, "__") ==> r[k] == src[k]
    ensures forall k :: k in dst && (k !in src || StartsWith(k, "__")) ==> r[k] == dst[k]
  {
    dst + map k | k in src && !StartsWith(k, "__") :: src[k]
  }

  /** `self.modules[id] = module`, `self.namespaces[id] = module.locals` and
      the `executed` flag `module.execute()` sets. */
  function Registered(s: Store, m: nat): (r: Store)
    requires Wf(s) && m < |s.mods|
    ensures Wf(r) && |r.mods| == |s.mods|
  {
    var mod := s.mods[m];
    s.(modules := s.modules[mod.identifier := m],
       namespaces := s.namespaces[mod.identifier := mod.locals],
       mods := s.mods[m := mod.(executed := true)])
  }

  /** The store after the public attributes of entity `e` moved into the
      locals of module `m`. */
  function Absorbed(s: Store, e: nat, m: nat): (r: Store)
    requires Wf(s) && e < |s.entities| && m < |s.mods|
    ensures Wf(r) && r.mods == s.mods && r.modules == s.modules && r.idcache == s.idcache && r.filecache == s.filecache
  {
    var loc := s.mods[m].locals;
    s.(entities := s.entities[loc := s.entities[loc].(attrs := CopyPublic(s.entities[e].attrs, s.entities[loc].attrs))])
  }

  lemma NamespaceExists(s: Store, validIdent: string -> bool, name: string)
    requires Wf(s) && validIdent(name)
    ensures var o := GetNamespaceSpec(s, validIdent, name); o.result.Ok? && name in o.store.namespaces
  {
    GetNamespaceCreates(s, validIdent, name);
  }

  /** `_register_module(module)`: nothing for an executed module; otherwise
      the namespace of its identifier must be a plain `ns:` entity, whose
      public attributes move into the module's locals before the module
      takes over the name. */
  function RegisterSpec(s: Store, validIdent: string -> bool, m: nat): (o: Outcome<()>)
    requires Wf(s) && m < |s.mods|
    ensures Wf(o.store) && |o.store.mods| == |s.mods|
    ensures o.result.Err? ==> !o.result.error.NoSuchModule?
  {
    var mod := s.mods[m];
    if mod.executed then Outcome(Ok(()), s)
    else
      var g := GetNamespaceSpec(s, validIdent, mod.identifier);
      if g.result.Err? then Outcome(Err(g.result.error), g.store)
      else
        NamespaceExists(s, validIdent, mod.identifier);
        var s1 := g.store;
        var e := s1.namespaces[mod.identifier];
        var eid := s1.entities[e].entityId;
        if StartsWith(eid, "ns:") then Outcome(Ok(()), Registered(Absorbed(s1, e, m), m))
        else if StartsWith(eid, "module:") then Outcome(Err(IdentifierOccupied(mod.identifier)), s1)
        else Outcome(Err(UnexpectedEntity(eid)), s1)
  }

  lemma RegisteredKeeps(s: Store, m: nat)
    requires Coherent(s) && m < |s.mods| && !s.mods[m].executed
    requires s.mods[m].identifier in s.idcache && s.idcache[s.mods[m].identifier] == m
    ensures Coherent(Registered(s, m)) && Grows(s, Registered(s, m))
  {
    RegisteredCoherent(s, m);
  }

  lemma RegisteredCoherent(s: Store, m: nat)
    requires Coherent(s) && m < |s.mods| && !s.mods[m].executed
    requires s.mods[m].identifier in s.idcache && s.idcache[s.mods[m].identifier] == m
    ensures Coherent(Registered(s, m))
  {
    var r := Registered(s, m);
    var id := s.mods[m].identifier;
    assert id !in s.modules;
    forall i | 0 <= i < |r.mods| && r.mods[i].executed
      ensures r.mods[i].identifier in r.modules && r.modules[r.mods[i].identifier] == i
    {
      if i != m {
        assert s.mods[i].executed;
      }
    }
  }

  lemma AbsorbedKeeps(s: Store, e: nat, m: nat)
    requires Coherent(s) && e < |s.entities| && m < |s.mods|
    ensures Coherent(Absorbed(s, e, m)) && Grows(s, Absorbed(s, e, m))
  {
    SameModulesKeep(s, Absorbed(s, e, m));
  }

  /** Registering keeps the caches coherent when the module is the one
      cached for its identifier, as it always is where the session
      registers one; a module registered without error is the registered
      module of its identifier. */
  lemma RegisterKeeps(s: Store, validIdent: string -> bool, m: nat)
    requires Coherent(s) && m < |s.mods|
    requires s.mods[m].identifier in s.idcache && s.idcache[s.mods[m].identifier] == m
    ensures var o := RegisterSpec(s, validIdent, m);
      && Coherent(o.store) && Grows(s, o.store)
      && (o.result.Ok? ==> s.mods[m].identifier in o.store.modules && o.store.modules[s.mods[m].identifier] == m)
  {
    var id := s.mods[m].identifier;
    if s.mods[m].executed {
      assert ExecutedOk(s);
    } else if validIdent(id) {
      RegisterNamedKeeps(s, validIdent, m);
    }
  }

  lemma RegisterNamedKeeps(s: Store, validIdent: string -> bool, m: nat)
    requires Coherent(s) && m < |s.mods| && !s.mods[m].executed && validIdent(s.mods[m].identifier)
    requires s.mods[m].identifier in s.idcache && s.idcache[s.mods[m].identifier] == m
    ensures var o := RegisterSpec(s, validIdent, m);
      && Coherent(o.store) && Grows(s, o.store)
      && (o.result.Ok? ==> s.mods[m].identifier in o.store.modules && o.store.modules[s.mods[m].identifier] == m)
  {
    var id := s.mods[m].identifier;
    NamespaceExists(s, validIdent, id);
    var s1 := GetNamespaceSpec(s, validIdent, id).store;
    var e := s1.namespaces[id];
    if StartsWith(s1.entities[e].entityId, "ns:") {
      assert RegisterSpec(s, validIdent, m) == Outcome(Ok(()), Registered(Absorbed(s1, e, m), m));
      TakeOverKeeps(s, validIdent, m, s1, e);
    } else {
      assert RegisterSpec(s, validIdent, m).store == s1 && RegisterSpec(s, validIdent, m).result.Err?;
      GetNamespaceGrows(s, validIdent, id);
    }
  }

  lemma TakeOverKeeps(s: Store, validIdent: string -> bool, m: nat, s1: Store, e: nat)
    requires Coherent(s) && m < |s.mods| && !s.mods[m].executed
    requires s.mods[m].identifier in s.idcache && s.idcache[s.mods[m].identifier] == m
    requires s1 == GetNamespaceSpec(s, validIdent, s.mods[m].identifier).store && e < |s1.entities|
    ensures var id := s.mods[m].identifier;
      var r := Registered(Absorbed(s1, e, m), m);
      Coherent(r) && Grows(s, r) && id in r.modules && r.modules[id] == m
  {
    var id := s.mods[m].identifier;
    GetNamespaceGrows(s, validIdent, id);
    var s2 := Absorbed(s1, e, m);
    AbsorbedKeeps(s1, e, m);
    RegisteredKeeps(s2, m);
    GrowsTransitive(s1, s2, Registered(s2, m));
    GrowsTransitive(s, s1, Registered(s2, m));
  }

  /** A registered module owns its identifier's namespace; the public
      attributes set on the namespace before are now attributes of its
      locals. A module already executed is left alone. */
  lemma RegisterOutcome(s: Store, validIdent: string -> bool, m: nat)
    requires Wf(s) && m < |s.mods|
    ensures var o := RegisterSpec(s, validIdent, m);
      && (s.mods[m].executed ==> o == Outcome(Ok(()), s))
      && (!s.mods[m].executed && o.result.Ok? ==>
            var id := s.mods[m].identifier;
            var ns := GetNamespaceSpec(s, validIdent, id).store;
            && id in ns.namespaces
            && StartsWith(ns.entities[ns.namespaces[id]].entityId, "ns:")
            && o.store.modules[id] == m && o.store.namespaces[id] == s.mods[m].locals && o.store.mods[m].executed
            && o.store.entities[s.mods[m].locals].attrs
                 == CopyPublic(ns.entities[ns.namespaces[id]].attrs, ns.entities[s.mods[m].locals].attrs))
  {
    var id := s.mods[m].identifier;
    if !s.mods[m].executed && validIdent(id) {
      GetNamespaceCreates(s, validIdent, id);
      var ns := GetNamespaceSpec(s, validIdent, id).store;
      var e := ns.namespaces[id];
      if StartsWith(ns.entities[e].entityId, "ns:") {
        assert RegisterSpec(s, validIdent, m) == Outcome(Ok(()), Registered(Absorbed(ns, e, m), m));
        TakenOver(ns, e, m);
      }
    }
  }

  lemma TakenOver(s: Store, e: nat, m: nat)
    requires Wf(s) && e < |s.entities| && m < |s.mods|
    ensures var r := Registered(Absorbed(s, e, m), m);
      var id := s.mods[m].identifier;
      && r.modules[id] == m && r.namespaces[id] == s.mods[m].locals && r.mods[m].executed
      && r.entities[s.mods[m].locals].attrs == CopyPublic(s.entities[e].attrs, s.entities[s.mods[m].locals].attrs)
  {
  }

  /** Only an `ns:` entity can be taken over: registration fails exactly
      when the namespace entity is something else. */
  lemma RegisterNeedsPlainNamespace(s: Store, validIdent: string -> bool, m: nat)
    requires Wf(s) && m < |s.mods| && !s.mods[m].executed && validIdent(s.mods[m].identifier)
    ensures var id := s.mods[m].identifier;
      var ns := GetNamespaceSpec(s, validIdent, id).store;
      id in ns.namespaces &&
      (RegisterSpec(s, validIdent, m).result.Ok? <==> StartsWith(ns.entities[ns.namespaces[id]].entityId, "ns:"))
  {
    GetNamespaceCreates(s, validIdent, s.mods[m].identifier);
  }

  /** Registering the module if asked, and returning it. */
  function Finish(s: Store, validIdent: string -> bool, m: nat, register: bool): (o: Outcome<nat>)
    requires Wf(s) && m < |s.mods|
    ensures Wf(o.store) && |o.store.mods| == |s.mods| && (o.result.Ok? ==> o.result.value == m)
    ensures o.result.Err? ==> !o.result.error.NoSuchModule?
  {
    if !register then Outcome(Ok(m), s)
    else
      var r := RegisterSpec(s, validIdent, m);
      Outcome(if r.result.Err? then Err(r.result.error) else Ok(m), r.store)
  }

  lemma FinishKeeps(s: Store, validIdent: string -> bool, m: nat, register: bool)
    requires Coherent(s) && m < |s.mods|
    requires s.mods[m].identifier in s.idcache && s.idcache[s.mods[m].identifier] == m
    ensures var o := Finish(s, validIdent, m, register);
      && Coherent(o.store) && Grows(s, o.store)
      && (o.result.Ok? && register ==> s.mods[m].identifier in o.store.modules && o.store.modules[s.mods[m].identifier] == m)
  {
    if register {
      RegisterKeeps(s, validIdent, m);
    }
  }

  // ----- Session.load_module_file -----

  /** `if module.identifier and module.identifier not in self._mod_idcache`:
      cache the module under its identifier and its file. */
  function CacheModule(s: Store, filename: string, m: nat): (r: Store)
    requires Wf(s) && m < |s.mods|
    ensures Wf(r) && r.mods == s.mods && r.entities == s.entities && r.modules == s.modules && r.namespaces == s.namespaces
  {
    var id := s.mods[m].identifier;
    if id != "" && id !in s.idcache then s.(idcache := s.idcache[id := m], filecache := s.filecache[filename := m])
    else s
  }

  /** A new `Module` read from `filename`, declaring `id`: its locals entity
      `module:<id>` with the attributes `_init_locals` sets, after the
      `globals` namespace `_init_locals` asks for. */
  function NewModule(s: Store, validIdent: string -> bool, filename: string, id: string): (o: Outcome<nat>)
    requires Wf(s)
    ensures Wf(o.store) && (o.result.Ok? ==> o.result.value == |o.store.mods| - 1) && |s.mods| <= |o.store.mods|
    ensures o.result.Err? ==> !o.result.error.NoSuchModule?
  {
    var g := GetNamespaceSpec(s, validIdent, "globals");
    if g.result.Err? then Outcome(Err(g.result.error), g.store)
    else
      var s1 := g.store;
      Outcome(Ok(|s1.mods|), Appended(s1, filename, id))
  }

  /** The store with the new module and its locals entity appended. */
  function Appended(s: Store, filename: string, id: string): (r: Store)
    requires Wf(s)
    ensures Wf(r)
  {
    var loc := |s.entities|;
    s.(entities := s.entities + [Entity("module:" + id, InitLocals(filename, loc, |s.mods|))],
       mods := s.mods + [ModuleRec(filename, id, loc, false, map[])])
  }

  /** A module read for the first time: created, refused when another file
      already declared its identifier, cached, and registered if asked. */
  function LoadNew(s: Store, validIdent: string -> bool, fn: string, id: string, register: bool): (o: Outcome<nat>)
    requires Wf(s)
    ensures Wf(o.store) && (o.result.Ok? ==> o.result.value < |o.store.mods|) && |s.mods| <= |o.store.mods|
    ensures o.result.Err? ==> !o.result.error.NoSuchModule?
  {
    var n := NewModule(s, validIdent, fn, id);
    if n.result.Err? then Outcome(Err(n.result.error), n.store)
    else
      var s2 := n.store;
      var m := n.result.value;
      if id in s2.idcache then Outcome(Err(IdentifierClash(fn, s2.mods[s2.idcache[id]].filename, id)), s2)
      else Finish(CacheModule(s2, fn, m), validIdent, m, register)
  }

  /** `load_module_file(filename, register)`. */
  function LoadModuleFileSpec(s: Store, env: Env, filename: string, register: bool): (o: Outcome<nat>)
    requires Wf(s)
    ensures Wf(o.store) && (o.result.Ok? ==> o.result.value < |o.store.mods|) && |s.mods| <= |o.store.mods|
    ensures o.result.Err? ==> !o.result.error.NoSuchModule?
  {
    var fn := env.normpath(filename);
    if fn in s.filecache then
      Finish(CacheModule(s, fn, s.filecache[fn]), env.validIdent, s.filecache[fn], register)
    else if !IsFile(env.fs, fn) then Outcome(Err(FileUnreadable(fn)), s)
    else match ModuleHeader.ReadIdentifierSpec(ModuleHeader.Lines(env.fs[fn].contents), env.validIdent)
      case Err(_) => Outcome(Err(InvalidModule(fn)), s)
      case Ok(id) => LoadNew(s, env.validIdent, fn, id, register)
  }

  lemma AppendedKeeps(s: Store, filename: string, id: string)
    requires Coherent(s)
    ensures var r := Appended(s, filename, id);
      Coherent(r) && Grows(s, r) && r.mods[|s.mods|] == ModuleRec(filename, id, |s.entities|, false, map[])
  {
    AppendedCoherent(s, filename, id);
    AppendedGrows(s, filename, id);
  }

  lemma AppendedCoherent(s: Store, filename: string, id: string)
    requires Coherent(s)
    ensures Coherent(Appended(s, filename, id))
  {
    var r := Appended(s, filename, id);
    assert forall i :: 0 <= i < |s.mods| ==> r.mods[i] == s.mods[i];
    assert r.idcache == s.idcache && r.filecache == s.filecache && r.modules == s.modules;
  }

  lemma AppendedGrows(s: Store, filename: string, id: string)
    requires Wf(s)
    ensures Grows(s, Appended(s, filename, id))
  {
    var r := Appended(s, filename, id);
    assert forall i :: 0 <= i < |s.mods| ==> r.mods[i] == s.mods[i];
    assert forall e :: 0 <= e < |s.entities| ==> r.entities[e] == s.entities[e];
  }

  lemma NewModuleKeeps(s: Store, validIdent: string -> bool, filename: string, id: string)
    requires Coherent(s)
    ensures var o := NewModule(s, validIdent, filename, id);
      && Coherent(o.store) && Grows(s, o.store)
      && (o.result.Ok? ==> o.store.mods[o.result.value].identifier == id && o.store.mods[o.result.value].filename == filename
                           && !o.store.mods[o.result.value].executed)
  {
    GetNamespaceGrows(s, validIdent, "globals");
    var g := GetNamespaceSpec(s, validIdent, "globals");
    if g.result.Ok? {
      AppendedKeeps(g.store, filename, id);
      GrowsTransitive(s, g.store, Appended(g.store, filename, id));
    }
  }

  lemma CacheModuleKeeps(s: Store, filename: string, m: nat)
    requires Coherent(s) && m < |s.mods| && s.mods[m].filename == filename && !s.mods[m].executed
    requires filename !in s.filecache && s.mods[m].identifier !in s.idcache
    ensures var r := CacheModule(s, filename, m);
      && Coherent(r) && Grows(s, r)
      && (s.mods[m].identifier != "" ==> r.idcache[s.mods[m].identifier] == m && r.filecache[filename] == m)
  {
    if s.mods[m].identifier != "" {
      CachedIdsOk(s, filename, m);
      CachedFilesOk(s, filename, m);
    }
  }

  lemma CachedIdsOk(s: Store, filename: string, m: nat)
    requires Coherent(s) && m < |s.mods| && s.mods[m].identifier != "" && !s.mods[m].executed
    requires s.mods[m].identifier !in s.idcache
    ensures var r := CacheModule(s, filename, m);
      IdcacheOk(r) && ModulesOk(r) && ExecutedOk(r)
  {
    var id := s.mods[m].identifier;
    var r := CacheModule(s, filename, m);
    assert r.idcache == s.idcache[id := m] && r.filecache == s.filecache[filename := m];
    assert IdcacheOk(r);
  }

  lemma CachedFilesOk(s: Store, filename: string, m: nat)
    requires Coherent(s) && m < |s.mods| && s.mods[m].filename == filename && s.mods[m].identifier != ""
    requires filename !in s.filecache && s.mods[m].identifier !in s.idcache
    ensures FilecacheOk(CacheModule(s, filename, m))
  {
    var id := s.mods[m].identifier;
    var r := CacheModule(s, filename, m);
    assert r.idcache == s.idcache[id := m] && r.filecache == s.filecache[filename := m];
    forall f | f in r.filecache
      ensures r.mods[r.filecache[f]].filename == f
      ensures r.mods[r.filecache[f]].identifier in r.idcache && r.idcache[r.mods[r.filecache[f]].identifier] == r.filecache[f]
    {
      if f != filename {
        assert s.mods[s.filecache[f]].identifier in s.idcache;
      }
    }
  }

  lemma LoadNewKeeps(s: Store, validIdent: string -> bool, fn: string, id: string, register: bool)
    requires Coherent(s) && fn !in s.filecache && id != ""
    ensures var o := LoadNew(s, validIdent, fn, id, register);
      && Coherent(o.store) && Grows(s, o.store)
      && (o.result.Ok? ==>
            var m := o.result.value;
            && o.store.mods[m].identifier == id && o.store.mods[m].filename == fn
            && fn in o.store.filecache && o.store.filecache[fn] == m
            && id in o.store.idcache && o.store.idcache[id] == m
            && (register ==> id in o.store.modules && o.store.modules[id] == m))
  {
    NewModuleKeeps(s, validIdent, fn, id);
    var n := NewModule(s, validIdent, fn, id);
    if n.result.Ok? && id !in n.store.idcache {
      var m := n.result.value;
      var s3 := CacheModule(n.store, fn, m);
      assert fn !in n.store.filecache;
      CacheModuleKeeps(n.store, fn, m);
      FinishKeeps(s3, validIdent, m, register);
      GrowsTransitive(s, n.store, s3);
      GrowsTransitive(s, s3, Finish(s3, validIdent, m, register).store);
    }
  }

  /** Loading a file keeps the caches coherent; a module it returns is the
      one cached for the file, its identifier is cached too, and it is
      registered when asked. */
  lemma LoadModuleFileKeeps(s: Store, env: Env, filename: string, register: bool)
    requires Coherent(s)
    ensures var o := LoadModuleFileSpec(s, env, filename, register);
      && Coherent(o.store) && Grows(s, o.store)
      && (o.result.Ok? ==>
            var m := o.result.value;
            var id := o.store.mods[m].identifier;
            && env.normpath(filename) in o.store.filecache && o.store.filecache[env.normpath(filename)] == m
            && id in o.store.idcache && o.store.idcache[id] == m
            && (register ==> id in o.store.modules && o.store.modules[id] == m))
  {
    var fn := env.normpath(filename);
    if fn in s.filecache {
      var m := s.filecache[fn];
      assert CacheModule(s, fn, m) == s;
      FinishKeeps(s, env.validIdent, m, register);
    } else if IsFile(env.fs, fn) {
      var rd := ModuleHeader.ReadIdentifierSpec(ModuleHeader.Lines(env.fs[fn].contents), env.validIdent);
      if rd.Ok? {
        LoadNewKeeps(s, env.validIdent, fn, rd.value, register);
      }
    }
  }

  /** A file already read is not read again: its cached module is
      returned, registered if asked. */
  lemma LoadModuleFileCached(s: Store, env: Env, filename: string, register: bool)
    requires Coherent(s) && env.normpath(filename) in s.filecache
    ensures var o := LoadModuleFileSpec(s, env, filename, register);
      && (o.result.Ok? ==> o.result.value == s.filecache[env.normpath(filename)])
      && (!register ==> o == Outcome(Ok(s.filecache[env.normpath(filename)]), s))
  {
    var fn := env.normpath(filename);
    assert FilecacheOk(s);
    assert CacheModule(s, fn, s.filecache[fn]) == s;
  }

  /** Loading the same file twice gives the same module. */
  lemma LoadModuleFileTwice(s: Store, env: Env, filename: string, register: bool)
    requires Coherent(s)
    ensures var o := LoadModuleFileSpec(s, env, filename, register);
      o.result.Ok? ==> LoadModuleFileSpec(o.store, env, filename, register).result == o.result
  {
    var o := LoadModuleFileSpec(s, env, filename, register);
    LoadModuleFileKeeps(s, env, filename, register);
    if o.result.Ok? {
      LoadModuleFileCached(o.store, env, filename, register);
      var m := o.result.value;
      if register {
        assert ExecutedOk(o.store) && ModulesOk(o.store);
        assert o.store.mods[m].executed;
        assert RegisterSpec(o.store, env.validIdent, m).result.Ok?;
      }
    }
  }

  /** A new file declaring an identifier another file already declared is
      refused, naming both files. */
  lemma LoadModuleFileClash(s: Store, env: Env, filename: string, register: bool, id: string)
    requires Wf(s) && env.validIdent("globals")
    requires env.normpath(filename) !in s.filecache && IsFile(env.fs, env.normpath(filename))
    requires ModuleHeader.ReadIdentifierSpec(ModuleHeader.Lines(env.fs[env.normpath(filename)].contents), env.validIdent) == Ok(id)
    requires id in s.idcache
    ensures LoadModuleFileSpec(s, env, filename, register).result
            == Err(IdentifierClash(env.normpath(filename), s.mods[s.idcache[id]].filename, id))
  {
    var fn := env.normpath(filename);
    assert LoadModuleFileSpec(s, env, filename, register) == LoadNew(s, env.validIdent, fn, id, register);
    LoadNewClash(s, env.validIdent, fn, id, register);
  }

  lemma LoadNewClash(s: Store, validIdent: string -> bool, fn: string, id: string, register: bool)
    requires Wf(s) && validIdent("globals") && id in s.idcache
    ensures LoadNew(s, validIdent, fn, id, register).result == Err(IdentifierClash(fn, s.mods[s.idcache[id]].filename, id))
  {
    NamespaceExists(s, validIdent, "globals");
    var g := GetNamespaceSpec(s, validIdent, "globals");
    assert g.store.idcache == s.idcache && g.store.mods == s.mods;
    var a := Appended(g.store, fn, id);
    assert a.mods[s.idcache[id]] == s.mods[s.idcache[id]];
  }

  // ----- Session.load_module -----

  /** The loop over the search tree from file `i` on: every `Craftfile` and
      every `*.craftr` file is loaded without registering; an
      `InvalidModule` is only logged, any other error ends the search. */
  function ScanSpec(s: Store, env: Env, i: nat): (o: Outcome<()>)
    requires Wf(s) && i <= |env.searchFiles|
    ensures Wf(o.store) && |s.mods| <= |o.store.mods|
    ensures o.result.Err? ==> !o.result.error.NoSuchModule?
    decreases |env.searchFiles| - i
  {
    if i == |env.searchFiles| then Outcome(Ok(()), s)
    else
      var path := env.searchFiles[i];
      if !IsCandidate(env.fs, path) then ScanSpec(s, env, i + 1)
      else
        var o := LoadModuleFileSpec(s, env, path, false);
        if o.result.Err? && !o.result.error.InvalidModule? then Outcome(Err(o.result.error), o.store)
        else ScanSpec(o.store, env, i + 1)
  }

  /** A file the search loads: a `Craftfile` or a file ending in `.craftr`. */
  predicate IsCandidate(fs: Tree, path: string) {
    IsFile(fs, path) && (Basename(path) == "Craftfile" || EndsWith(path, ".craftr"))
  }

  /** `load_module(name, required_by, allow_reload, register)`; the search
      ends in `self.load_module(name, required_by, False)`, whose `register`
      is the default `True`. */
  function LoadModuleSpec(s: Store, env: Env, name: string, requiredBy: Option<string>, allowReload: bool, register: bool): (o: Outcome<nat>)
    requires Wf(s)
    ensures Wf(o.store) && (o.result.Ok? ==> o.result.value < |o.store.mods|) && |s.mods| <= |o.store.mods|
    decreases if allowReload then 1 else 0
  {
    if !env.validIdent(name) then Outcome(Err(InvalidModuleName(name)), s)
    else if name in s.modules then Outcome(Ok(s.modules[name]), s)
    else if name in s.idcache then Finish(s, env.validIdent, s.idcache[name], register)
    else if !allowReload then Outcome(Err(NoSuchModule(name, requiredBy, LoadMode)), s)
    else
      var sc := ScanSpec(s, env, 0);
      if sc.result.Err? then Outcome(Err(sc.result.error), sc.store)
      else LoadModuleSpec(sc.store, env, name, requiredBy, false, true)
  }

  lemma {:induction false} ScanKeeps(s: Store, env: Env, i: nat)
    requires Coherent(s) && i <= |env.searchFiles|
    ensures Coherent(ScanSpec(s, env, i).store) && Grows(s, ScanSpec(s, env, i).store)
    decreases |env.searchFiles| - i
  {
    if i < |env.searchFiles| {
      var path := env.searchFiles[i];
      if IsCandidate(env.fs, path) {
        var o := LoadModuleFileSpec(s, env, path, false);
        LoadModuleFileKeeps(s, env, path, false);
        if o.result.Ok? || o.result.error.InvalidModule? {
          ScanKeeps(o.store, env, i + 1);
          GrowsTransitive(s, o.store, ScanSpec(o.store, env, i + 1).store);
        }
      } else {
        ScanKeeps(s, env, i + 1);
      }
    }
  }

  /** Loading keeps the caches coherent, and the module it returns is one
      that declares the requested identifier; asked to register, it is the
      registered module of that name. */
  lemma LoadModuleKeeps(s: Store, env: Env, name: string, requiredBy: Option<string>, allowReload: bool, register: bool)
    requires Coherent(s)
    ensures var o := LoadModuleSpec(s, env, name, requiredBy, allowReload, register);
      && Coherent(o.store) && Grows(s, o.store)
      && (o.result.Ok? ==> o.store.mods[o.result.value].identifier == name)
      && (o.result.Ok? && register ==> name in o.store.modules && o.store.modules[name] == o.result.value)
  {
    if !env.validIdent(name) || name in s.modules || (name !in s.idcache && !allowReload) {
      LoadModuleStays(s, env, name, requiredBy, allowReload, register);
    } else if name in s.idcache {
      assert LoadModuleSpec(s, env, name, requiredBy, allowReload, register) == Finish(s, env.validIdent, s.idcache[name], register);
      LoadCachedKeeps(s, env.validIdent, name, register);
    } else {
      assert LoadModuleSpec(s, env, name, requiredBy, allowReload, register) == LoadModuleSpec(s, env, name, requiredBy, true, true);
      LoadSearchKeeps(s, env, name, requiredBy);
    }
  }

  /** An invalid name, a registered module, or an unknown module that may
      not be searched for leave the store as it is. */
  lemma LoadModuleStays(s: Store, env: Env, name: string, requiredBy: Option<string>, allowReload: bool, register: bool)
    requires Coherent(s)
    requires !env.validIdent(name) || name in s.modules || (name !in s.idcache && !allowReload)
    ensures var o := LoadModuleSpec(s, env, name, requiredBy, allowReload, register);
      && o.store == s
      && (o.result.Ok? ==> name in s.modules && o.result.value == s.modules[name])
  {
  }

  /** Loading a module after the search. */
  lemma LoadSearchKeeps(s: Store, env: Env, name: string, requiredBy: Option<string>)
    requires Coherent(s) && env.validIdent(name) && name !in s.modules && name !in s.idcache
    ensures var o := LoadModuleSpec(s, env, name, requiredBy, true, true);
      && Coherent(o.store) && Grows(s, o.store)
      && (o.result.Ok? ==> o.store.mods[o.result.value].identifier == name)
      && (o.result.Ok? ==> name in o.store.modules && o.store.modules[name] == o.result.value)
  {
    var o := LoadModuleSpec(s, env, name, requiredBy, true, true);
    ScanKeeps(s, env, 0);
    var sc := ScanSpec(s, env, 0);
    if sc.result.Ok? {
      assert o == LoadModuleSpec(sc.store, env, name, requiredBy, false, true);
      if name in sc.store.idcache && name !in sc.store.modules {
        assert o == Finish(sc.store, env.validIdent, sc.store.idcache[name], true);
        LoadCachedKeeps(sc.store, env.validIdent, name, true);
        GrowsTransitive(s, sc.store, o.store);
      } else {
        assert o.store == sc.store;
      }
    }
  }

  lemma GrowsReflexive(s: Store)
    ensures Grows(s, s)
  {
  }

  /** Loading a module found in the identifier cache. */
  lemma LoadCachedKeeps(s: Store, validIdent: string -> bool, name: string, register: bool)
    requires Coherent(s) && name in s.idcache
    ensures var m := s.idcache[name];
      var o := Finish(s, validIdent, m, register);
      && Coherent(o.store) && Grows(s, o.store)
      && o.store.mods[m].identifier == name
      && (o.result.Ok? && register ==> name in o.store.modules && o.store.modules[name] == m)
  {
    FinishKeeps(s, validIdent, s.idcache[name], register);
  }

  /** `register=False` is only honoured for a module already cached: one
      the search had to find is registered all the same. */
  lemma RegisterFlagDroppedAfterSearch(s: Store, env: Env, name: string, requiredBy: Option<string>)
    requires Coherent(s) && name !in s.idcache
    ensures var o := LoadModuleSpec(s, env, name, requiredBy, true, false);
      o.result.Ok? ==> name in o.store.modules && o.store.modules[name] == o.result.value && o.store.mods[o.result.value].executed
  {
    if env.validIdent(name) {
      assert name !in s.modules;
      ScanKeeps(s, env, 0);
      var sc := ScanSpec(s, env, 0);
      if sc.result.Ok? {
        LoadModuleKeeps(sc.store, env, name, requiredBy, false, true);
      }
    }
  }

  /** A module is reported missing exactly when the search ran through and
      cached no module of that identifier. */
  lemma NotFoundAfterSearch(s: Store, env: Env, name: string, requiredBy: Option<string>, register: bool)
    requires Coherent(s) && env.validIdent(name) && name !in s.idcache
    ensures var o := LoadModuleSpec(s, env, name, requiredBy, true, register);
      var sc := ScanSpec(s, env, 0);
      o.result == Err(NoSuchModule(name, requiredBy, LoadMode)) <==> sc.result.Ok? && name !in sc.store.idcache
  {
    assert name !in s.modules;
    ScanKeeps(s, env, 0);
  }

  /** Without a search, a module neither registered nor cached is missing. */
  lemma NotFoundWithoutReload(s: Store, env: Env, name: string, requiredBy: Option<string>, register: bool)
    requires env.validIdent(name) && Wf(s)
    ensures LoadModuleSpec(s, env, name, requiredBy, false, register).result == Err(NoSuchModule(name, requiredBy, LoadMode))
            <==> name !in s.modules && name !in s.idcache
  {
  }
}
