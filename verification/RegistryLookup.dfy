/** Finding the version of a plugin family that is in PRODUCTION among its registered rows, as
    ingestion does per policy binding and the batch per population policy binding. */
module RegistryLookup {
  import opened Wrappers
  import opened PluginRegistry

  /** A registration as `list_by_type_and_plugin_id` returns it. */
  datatype Registration = Registration(id: string, pluginId: string, version: string, state: State)

  /** The first PRODUCTION row of a family. */
  function FirstProduction(rs: seq<Registration>): (r: Option<Registration>)
    ensures r.Some? <==> exists x :: x in rs && x.state == PRODUCTION
    ensures r.Some? ==> r.value in rs && r.value.state == PRODUCTION
  {
    if rs == [] then None
    else if rs[0].state == PRODUCTION then Some(rs[0])
    else FirstProduction(rs[1..])
  }

  function RegisteredKey(t: PluginType, r: Registration): Key {
    Key(t, r.pluginId, r.version)
  }

  /** `rs` lists the registered versions of family `p`, in whatever order. */
  ghost predicate ListsFamily(registry: Registry, t: PluginType, p: string, rs: seq<Registration>) {
    && (forall i, j :: 0 <= i < j < |rs| ==> RegisteredKey(t, rs[i]) != RegisteredKey(t, rs[j]))
    && (forall r :: r in rs ==>
          r.pluginId == p && RegisteredKey(t, r) in registry && registry[RegisteredKey(t, r)] == r.state)
    && (forall k :: k in registry && k.pluginType == t && k.pluginId == p ==>
          exists r :: r in rs && RegisteredKey(t, r) == k)
  }

  predicate IsProduction(registry: Registry, t: PluginType, p: string, k: Key) {
    k in registry && k.pluginType == t && k.pluginId == p && registry[k] == PRODUCTION
  }

  /** The row found is the family's one PRODUCTION version, if it has one. */
  lemma UniqueProductionFound(registry: Registry, t: PluginType, p: string, rs: seq<Registration>)
    requires OneProduction(registry) && ListsFamily(registry, t, p, rs)
    ensures FirstProduction(rs).Some? <==> exists k :: IsProduction(registry, t, p, k)
    ensures forall k :: IsProduction(registry, t, p, k) ==>
              FirstProduction(rs).Some? && RegisteredKey(t, FirstProduction(rs).value) == k
  {
    if FirstProduction(rs).Some? {
      assert IsProduction(registry, t, p, RegisteredKey(t, FirstProduction(rs).value));
    }
    forall k | IsProduction(registry, t, p, k)
      ensures FirstProduction(rs).Some? && RegisteredKey(t, FirstProduction(rs).value) == k
    {
      var r :| r in rs && RegisteredKey(t, r) == k;
      assert SameFamily(RegisteredKey(t, FirstProduction(rs).value), k);
    }
  }
}
