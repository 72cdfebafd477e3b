/**
 * The realtime configuration provider: a mutable map from configuration key
 * to optional value that raises a reload notification when it is written.
 */
module Provider {
  import opened Options
  import opened Sorting
  import opened Hierarchy

  /** `keys` enumerates the key set `ks`, each key once, in some order. */
  ghost predicate IsSnapshot(keys: seq<string>, ks: set<string>) {
    NoDuplicates(keys) && Elements(keys) == ks
  }

  class RealtimeConfigurationProvider {
    /** The dictionary of entries; keys compare as exact (ordinal, case-sensitive) strings. */
    var data: map<string, Option<string>>
    /** How many times `OnReload()` has been raised. */
    var reloads: nat

    constructor ()
      ensures data == map[] && reloads == 0
    {
      data := map[];
      reloads := 0;
    }

    /** `TryGet`: a point lookup; a missing key yields `found == false` and a null value. */
    method TryGet(key: string) returns (found: bool, value: Option<string>)
      ensures found <==> key in data
      ensures found ==> value == data[key]
      ensures !found ==> value == None
    {
      if key in data {
        found, value := true, data[key];
      } else {
        found, value := false, None;
      }
    }

    /** `Set`: insert or overwrite the entry for `key`, then raise a reload, even if the value is unchanged. */
    method Set(key: string, value: Option<string>)
      modifies this
      ensures key in data && data[key] == value
      ensures forall k :: k != key ==> (k in data <==> k in old(data))
      ensures forall k :: k != key && k in data ==> data[k] == old(data)[k]
      ensures data == old(data)[key := value]
      ensures reloads == old(reloads) + 1
    {
      data := data[key := value];
      reloads := reloads + 1;
    }

    /** `Remove`: delete the entry for `key`; raise a reload only if there was one. */
    method Remove(key: string)
      modifies this
      ensures key !in data
      ensures forall k :: k != key ==> (k in data <==> k in old(data))
      ensures forall k :: k != key && k in data ==> data[k] == old(data)[k]
      ensures data == old(data) - {key}
      ensures key !in old(data) ==> data == old(data)
      ensures reloads == old(reloads) + (if key in old(data) then 1 else 0)
    {
      if key in data {
        data := data - {key};
        reloads := reloads + 1;
      }
    }

    /** `_data.Keys`: a snapshot of the key set, each key once, in an order the dictionary does not specify. */
    method KeysSnapshot() returns (keys: seq<string>)
      ensures NoDuplicates(keys)
      ensures forall k :: k in keys <==> k in data
    {
      keys := [];
      var rest := data.Keys;
      while rest != {}
        invariant rest <= data.Keys
        invariant NoDuplicates(keys)
        invariant forall k :: k in keys <==> k in data && k !in rest
        decreases rest
      {
        var k :| k in rest;
        keys := keys + [k];
        rest := rest - {k};
      }
    }

    /**
     * `GetChildKeys`: over one snapshot of the keys, the earlier layers' keys
     * followed by the stored keys (root) or the distinct immediate child
     * segments under `parentPath` (elsewhere), stably sorted under `le`.
     */
    method GetChildKeys(earlierKeys: seq<string>, parentPath: Option<string>,
                        le: (string, string) -> bool, fold: char -> char) returns (r: seq<string>)
      requires TotalPreorder(le)
      ensures exists keys :: IsSnapshot(keys, data.Keys) && r == ChildKeys(earlierKeys, keys, parentPath, le, fold)
      ensures SortedBy(le, r)
      ensures IsNullOrEmpty(parentPath) ==>
                multiset(r) == multiset(earlierKeys) + multiset(data.Keys)
      ensures !IsNullOrEmpty(parentPath) ==>
                multiset(r) == multiset(earlierKeys) + multiset(ChildSegmentsOf(data.Keys, parentPath.value, fold))
    {
      var keys := KeysSnapshot();
      assert Elements(keys) == data.Keys;
      r := ChildKeys(earlierKeys, keys, parentPath, le, fold);
      if IsNullOrEmpty(parentPath) {
        RootChildKeys(earlierKeys, keys, parentPath, le, fold);
        NoDuplicatesMultiset(keys);
      } else {
        NestedChildKeys(earlierKeys, keys, parentPath, le, fold);
      }
    }
  }

  // ---------------------------------------------------------------------------
  // Clients: what a caller observes through the provider's operations

  /** A written value is read back at once (the test that sets "key" to "new"). */
  method SetThenTryGet(p: RealtimeConfigurationProvider, key: string, value: Option<string>)
    returns (found: bool, read: Option<string>)
    modifies p
    ensures found && read == value
    ensures p.reloads == old(p.reloads) + 1
  {
    p.Set(key, value);
    found, read := p.TryGet(key);
  }

  /** Writing the same value twice notifies twice: `Set` does not skip unchanged values. */
  method RepeatedSetNotifiesEachTime(p: RealtimeConfigurationProvider, key: string, value: Option<string>)
    modifies p
    ensures p.data == old(p.data)[key := value]
    ensures p.reloads == old(p.reloads) + 2
  {
    p.Set(key, value);
    p.Set(key, value);
  }

  /** After `Remove`, the key is gone; a second `Remove` changes nothing and does not notify. */
  method RemoveThenTryGet(p: RealtimeConfigurationProvider, key: string) returns (found: bool)
    modifies p
    ensures !found
    ensures p.reloads == old(p.reloads) + (if key in old(p.data) then 1 else 0)
  {
    p.Remove(key);
    var before := p.reloads;
    p.Remove(key);
    assert p.reloads == before;
    var value;
    found, value := p.TryGet(key);
  }

  /** Keys differing only in case are distinct entries: "a:b" does not see a write to "A:B". */
  method LookupIsCaseSensitive() returns (found: bool)
    ensures !found
  {
    var p := new RealtimeConfigurationProvider();
    p.Set("A:B", Some("x"));
    var value;
    found, value := p.TryGet("a:b");
  }
}
