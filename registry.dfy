/**
 * `ExtensionRegistry`: an in-memory map from extension id to its record. Writes
 * are upserts (last write wins), removal of an absent id does nothing, and the
 * snapshots visit the map in an unspecified order.
 */
module Registry {
  import opened Wrappers
  import opened Models
  import opened Maps

  /** The filter `get_enabled` applies. */
  predicate IsEnabled(e: ExtensionInfo) {
    e.enabled
  }

  class ExtensionRegistry {
    var extensions: map<string, ExtensionInfo>

    /** `new`: an empty registry. */
    constructor ()
      ensures extensions == map[]
    {
      extensions := map[];
    }

    /** `get`: the record stored under `id`, if any. */
    function Get(id: string): (r: Option<ExtensionInfo>)
      reads this
      ensures r == None <==> id !in extensions
      ensures r.Some? ==> r.value == extensions[id]
    {
      if id in extensions then Some(extensions[id]) else None
    }

    /** `register`: stores `extension` under its id, replacing any earlier record. */
    method Register(extension: ExtensionInfo)
      modifies this
      ensures extensions == old(extensions)[extension.id := extension]
      ensures Get(extension.id) == Some(extension)
      ensures forall id :: id != extension.id ==> Get(id) == old(Get(id))
      ensures |extensions| == if extension.id in old(extensions) then |old(extensions)| else |old(extensions)| + 1
    {
      UpdateSize(extensions, extension.id, extension);
      extensions := extensions[extension.id := extension];
    }

    /** `unregister`: forgets `id`; an id that is not registered is left alone. */
    method Unregister(id: string)
      modifies this
      ensures extensions == old(extensions) - {id}
      ensures Get(id) == None
      ensures forall other :: other != id ==> Get(other) == old(Get(other))
      ensures id !in old(extensions) ==> extensions == old(extensions)
      ensures |extensions| == if id in old(extensions) then |old(extensions)| - 1 else |old(extensions)|
    {
      RemoveSize(extensions, id);
      extensions := extensions - {id};
    }

    /**
     * `get_mut`: the caller's change to the record stored under `id`, given as the
     * function `change` from the old record to the new one. Nothing else changes.
     */
    method Update(id: string, change: ExtensionInfo -> ExtensionInfo) returns (found: bool)
      modifies this
      ensures found <==> id in old(extensions)
      ensures extensions == if found then old(extensions)[id := change(old(extensions)[id])] else old(extensions)
      ensures forall other :: other != id ==> Get(other) == old(Get(other))
    {
      found := id in extensions;
      if found {
        extensions := extensions[id := change(extensions[id])];
      }
    }

    /** `get_all`: every stored record once, in the order `order` visits the ids. */
    method GetAll() returns (r: seq<ExtensionInfo>, ghost order: seq<string>)
      ensures |r| == |extensions|
      ensures forall x :: x in r <==> x in extensions.Values
      ensures Enumerates(extensions, order)
      ensures r == ValuesOf(extensions, order)
    {
      r, order := Snapshot(extensions);
    }

    /** `get_enabled`: the stored records whose `enabled` flag is set, filtered from one snapshot. */
    method GetEnabled() returns (r: seq<ExtensionInfo>, ghost order: seq<string>)
      ensures forall x :: x in r <==> x in extensions.Values && x.enabled
      ensures Enumerates(extensions, order)
      ensures r == Filter(ValuesOf(extensions, order), IsEnabled)
    {
      var all;
      all, order := GetAll();
      r := Filter(all, IsEnabled);
      FilterSelects(all, IsEnabled);
    }
  }

  /**
   * After `id` is overwritten with a disabled record, an enabled record `a` with that id
   * is no longer listed, provided every other key holds a record with its own id
   * (as `register` guarantees; `get_mut` can break it).
   */
  lemma DisabledRecordNotListed(m: map<string, ExtensionInfo>, d: ExtensionInfo, a: ExtensionInfo, order: seq<string>)
    requires !d.enabled && a.id == d.id
    requires forall k :: k in m && k != d.id ==> m[k].id == k
    requires Enumerates(m[d.id := d], order)
    ensures a !in Filter(ValuesOf(m[d.id := d], order), IsEnabled)
  {
    var m' := m[d.id := d];
    FilterSelects(ValuesOf(m', order), IsEnabled);
    if a.enabled {
      forall k | k in m' ensures m'[k] != a {
        if k != d.id {
          assert m'[k] == m[k];
        }
      }
      InSnapshot(m', order, a);
    }
  }

  /** Registering an enabled `a` and then a disabled `b` in a new registry lists both, and only `a` as enabled. */
  lemma TwoRegisteredOneEnabled(a: ExtensionInfo, b: ExtensionInfo, order: seq<string>)
    requires a.id != b.id && a.enabled && !b.enabled
    requires Enumerates(map[a.id := a, b.id := b], order)
    ensures |ValuesOf(map[a.id := a, b.id := b], order)| == 2
    ensures Filter(ValuesOf(map[a.id := a, b.id := b], order), IsEnabled) == [a]
  {
    var m := map[a.id := a, b.id := b];
    assert m.Keys == {a.id, b.id};
    assert |m| == 2;
    assert order[0] != order[1];
    if order[0] == a.id {
      assert order == [a.id, b.id];
      assert ValuesOf(m, order) == [a, b];
    } else {
      assert order == [b.id, a.id];
      assert ValuesOf(m, order) == [b, a];
    }
  }
}
