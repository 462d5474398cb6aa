/** Reference counting of modules in the C API: stores and shared handles keep a module loaded. */
module ModuleRefs {
  import opened Words

  /** A module as all its references see it. */
  class Module {
    var refCount: uint32
    /** The runtime module is there. */
    var loaded: bool
    ghost var unloads: nat

    constructor ()
      ensures refCount == 0 && loaded && unloads == 0
    {
      refCount, loaded, unloads := 0, true, 0;
    }

    /** wasm_module_delete_internal: the last reference unloads the module; one too many wraps the count around. */
    method Release()
      modifies this
      ensures refCount == Wrap32(old(refCount) - 1)
      ensures loaded == (old(loaded) && refCount > 0)
      ensures unloads == old(unloads) + if old(loaded) && refCount == 0 then 1 else 0
    {
      refCount := Wrap32(refCount - 1);
      if refCount > 0 { return; }
      if loaded { Unload(); }
    }

    /** wasm_runtime_unload */
    method Unload()
      requires loaded
      modifies this`loaded, this`unloads
      ensures !loaded && unloads == old(unloads) + 1
    {
      loaded := false;
      unloads := unloads + 1;
    }
  }

  /** All entries of all stores. */
  ghost function Entries(stores: seq<seq<Module>>): multiset<Module> {
    if stores == [] then multiset{} else multiset(stores[0]) + Entries(stores[1..])
  }

  lemma {:induction false} EntriesAppend(stores: seq<seq<Module>>, xs: seq<Module>)
    ensures Entries(stores + [xs]) == Entries(stores) + multiset(xs)
  {
    if stores != [] {
      assert (stores + [xs])[1..] == stores[1..] + [xs];
      EntriesAppend(stores[1..], xs);
    }
  }

  /** What one store holds counts on top of the others. */
  lemma {:induction false} EntriesOf(stores: seq<seq<Module>>, id: nat, xs: seq<Module>)
    requires id < |stores|
    ensures Entries(stores[id := xs]) == Entries(stores[id := []]) + multiset(xs)
  {
    if id > 0 {
      assert stores[id := xs][1..] == stores[1..][id - 1 := xs];
      assert stores[id := []][1..] == stores[1..][id - 1 := []];
      EntriesOf(stores[1..], id - 1, xs);
    } else {
      assert stores[0 := xs][1..] == stores[0 := []][1..];
    }
  }

  /** The engine with its stores; a deleted store is left empty. */
  class Engine {
    var stores: seq<seq<Module>>
    ghost var live: set<nat>
    ghost var modules: set<Module>
    /** The shared handles clients hold. */
    ghost var handles: multiset<Module>

    ghost function References(): multiset<Module>
      reads this
    {
      Entries(stores) + handles
    }

    /** count references: the module is loaded while there is one, and was unloaded once after the last. */
    ghost predicate Counted(m: Module, count: nat)
      reads m
    {
      m.refCount == count && (m.loaded <==> count > 0) && m.unloads == if count > 0 then 0 else 1
    }

    ghost predicate CountedBy(references: multiset<Module>)
      reads this`modules, modules
    {
      (forall m <- references :: m in modules) && forall m <- modules :: Counted(m, references[m])
    }

    ghost predicate Valid()
      reads this, modules
    {
      CountedBy(References()) && forall id <- live :: id < |stores|
    }

    constructor ()
      ensures Valid() && modules == {} && live == {}
    {
      stores, live, modules, handles := [], {}, {}, multiset{};
    }

    /** wasm_store_new */
    method StoreNew() returns (id: nat)
      requires Valid()
      modifies this`stores, this`live
      ensures Valid() && References() == old(References()) && live == old(live) + {id} && id !in old(live)
    {
      id := |stores|;
      EntriesAppend(stores, []);
      assert Entries(stores + [[]]) == Entries(stores);
      hide Entries;
      stores := stores + [[]];
      live := live + {id};
    }

    /** wasm_module_new; each flag is the outcome of a step that can fail, and a failure undoes the ones before. */
    method ModuleNew(id: nat, loadOk: bool, appendOk: bool, lockOk: bool, engineAppendOk: bool)
      returns (r: Module?, ghost made: Module?)
      requires Valid() && id in live
      modifies this`stores, this`modules
      ensures Valid()
      ensures (made != null <==> loadOk) && (r != null ==> r == made)
      ensures made != null ==>
        fresh(made) && (made.loaded <==> r != null) && made.unloads == if r == null then 1 else 0
      ensures r == null <==> !(loadOk && appendOk && lockOk && engineAppendOk)
      ensures r == null ==> stores == old(stores) && modules == old(modules)
      ensures r != null ==> fresh(r) && modules == old(modules) + {r} && References() == old(References()) + multiset{r}
    {
      hide Entries;
      hide Counted;
      if !loadOk { return null, null; }
      var m := new Module();
      if !appendOk {
        m.Unload();
        return null, m;
      }
      Push(id, m);
      assert References() == old(References()) + multiset{m};
      if !lockOk || !engineAppendOk {
        Pop(id);
        assert stores == old(stores) && References() == old(References());
        m.Unload();
        return null, m;
      }
      Adopt(m, old(References()));
      r, made := m, m;
    }

    /** The first reference to a module nothing referred to so far. */
    method Adopt(m: Module, ghost rest: multiset<Module>)
      requires CountedBy(rest) && m !in modules && m.loaded && m.unloads == 0
      modifies m, this`modules
      ensures modules == old(modules) + {m} && CountedBy(rest + multiset{m}) && m.loaded && m.unloads == 0
    {
      m.refCount := 1;
      modules := modules + {m};
      forall x | x in modules ensures Counted(x, (rest + multiset{m})[x]) {
        if x != m { assert old(Counted(x, rest[x])); }
      }
    }

    /** bh_vector_remove of the last entry. */
    method Pop(id: nat)
      requires id < |stores| && stores[id] != []
      modifies this`stores
      ensures stores == old(stores)[id := old(stores)[id][..|old(stores)[id]| - 1]]
    {
      stores := stores[id := stores[id][..|stores[id]| - 1]];
    }

    /** The entry a store's vector gets. */
    method Push(id: nat, m: Module)
      requires id < |stores|
      modifies this`stores
      ensures stores == old(stores)[id := old(stores)[id] + [m]]
      ensures Entries(stores) == old(Entries(stores)) + multiset{m}
      ensures old(stores)[id := stores[id][..|stores[id]| - 1]] == old(stores)
    {
      var xs := stores[id];
      EntriesOf(stores, id, xs);
      assert stores[id := xs] == stores;
      EntriesOf(stores, id, xs + [m]);
      stores := stores[id := xs + [m]];
    }

    /** wasm_module_share */
    method Share(m: Module) returns (ok: bool)
      requires Valid() && m in modules && m.refCount < UINT32_MAX
      modifies this`handles, m
      ensures Valid() && (ok <==> old(m.loaded))
      ensures handles == if ok then old(handles) + multiset{m} else old(handles)
    {
      if m.refCount == 0 { return false; }
      m.refCount := m.refCount + 1;
      handles := handles + multiset{m};
      ok := true;
    }

    /** wasm_module_obtain */
    method Obtain(id: nat, m: Module, appendOk: bool) returns (ok: bool)
      requires Valid() && id in live && m in modules && m.refCount < UINT32_MAX
      modifies this`stores, m
      ensures Valid() && (ok <==> old(m.loaded) && appendOk)
      ensures stores == if ok then old(stores)[id := old(stores)[id] + [m]] else old(stores)
    {
      hide Entries;
      if m.refCount == 0 || !appendOk { return false; }
      Push(id, m);
      m.refCount := m.refCount + 1;
      ok := true;
    }

    /** wasm_shared_module_delete, of a handle that is still held. */
    method SharedDelete(m: Module)
      requires Valid() && m in handles
      modifies this`handles, m
      ensures Valid() && handles == old(handles) - multiset{m}
      ensures m.loaded <==> old(References()[m]) > 1
    {
      hide Entries;
      assert m in References();
      handles := handles - multiset{m};
      assert old(References()) == References() + multiset{m};
      ReleaseEntry(m, References());
    }

    /** One reference less; the ones that stay are given. */
    method ReleaseEntry(m: Module, ghost rest: multiset<Module>)
      requires m in modules && CountedBy(rest + multiset{m})
      modifies m
      ensures CountedBy(rest)
    {
      assert m in rest + multiset{m};
      m.Release();
    }

    /** wasm_module_vec_delete */
    method ReleaseAll(entries: seq<Module>, ghost others: multiset<Module>)
      requires CountedBy(others + multiset(entries))
      modifies modules
      ensures CountedBy(others)
    {
      assert entries[0..] == entries;
      for i := 0 to |entries|
        invariant CountedBy(others + multiset(entries[i..]))
      {
        var m := entries[i];
        ghost var rest := others + multiset(entries[i + 1..]);
        assert entries[i..] == [m] + entries[i + 1..];
        assert others + multiset(entries[i..]) == rest + multiset{m};
        assert m in rest + multiset{m};
        ReleaseEntry(m, rest);
      }
      assert others + multiset(entries[|entries|..]) == others;
    }

    /** wasm_store_delete: every entry of the store is released, as often as it occurs. */
    method StoreDelete(id: nat)
      requires Valid() && id in live
      modifies this`stores, this`live, modules
      ensures Valid() && live == old(live) - {id} && stores == old(stores)[id := []]
      ensures forall m <- modules :: m.loaded <==> old(References()[m]) > multiset(old(stores)[id])[m]
    {
      hide Entries;
      var entries := stores[id];
      ghost var others := Entries(stores[id := []]) + handles;
      EntriesOf(stores, id, entries);
      assert stores[id := entries] == stores;
      assert References() == others + multiset(entries);
      ReleaseAll(entries, others);
      stores := stores[id := []];
      live := live - {id};
      assert References() == others;
    }
  }
}
