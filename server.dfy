/** The word lookup of the server's `get_words` handler (src/main.rs:91-99):
    the entries the scan emits are collected into a map keyed by the id each
    one matched, and the response lists them in the order the ids were
    requested. */
module Server {
  import opened Wrappers
  import opened XmlEvents
  import opened Entry
  import opened JMDictLookup
  import opened JMDict

  /** The requested ids that have an entry, in request order, repeats kept. */
  function FoundIds(ids: seq<JMDictEntryId>, keys: set<JMDictEntryId>): (found: seq<JMDictEntryId>)
    ensures |found| <= |ids|
    ensures forall k :: 0 <= k < |found| ==> found[k] in keys
    decreases |ids|
  {
    if ids == [] then []
    else (if ids[0] in keys then [ids[0]] else []) + FoundIds(ids[1..], keys)
  }

  /** Exactly the ids without an entry are dropped: an id with an entry is
      kept as often as it was requested, one without is not kept at all. */
  lemma {:induction false} FoundIdsCount(ids: seq<JMDictEntryId>, keys: set<JMDictEntryId>, x: JMDictEntryId)
    ensures multiset(FoundIds(ids, keys))[x] == if x in keys then multiset(ids)[x] else 0
    decreases |ids|
  {
    if ids != [] {
      assert ids == [ids[0]] + ids[1..];
      FoundIdsCount(ids[1..], keys, x);
    }
  }

  /** Filtering keeps request order: the ids found among `a + b` are those
      found among `a` followed by those found among `b`. */
  lemma {:induction false} FoundIdsAppend(a: seq<JMDictEntryId>, b: seq<JMDictEntryId>, keys: set<JMDictEntryId>)
    ensures FoundIds(a + b, keys) == FoundIds(a, keys) + FoundIds(b, keys)
    decreases |a|
  {
    if a != [] {
      var head := if a[0] in keys then [a[0]] else [];
      assert (a + b)[0] == a[0];
      assert (a + b)[1..] == a[1..] + b;
      assert FoundIds(a + b, keys) == head + FoundIds(a[1..] + b, keys);
      assert FoundIds(a, keys) == head + FoundIds(a[1..], keys);
      FoundIdsAppend(a[1..], b, keys);
      assert head + (FoundIds(a[1..], keys) + FoundIds(b, keys)) == (head + FoundIds(a[1..], keys)) + FoundIds(b, keys);
    } else {
      assert a + b == b;
    }
  }

  /** When every requested id has an entry, nothing is dropped. */
  lemma {:induction false} FoundIdsAllPresent(ids: seq<JMDictEntryId>, keys: set<JMDictEntryId>)
    requires forall i :: 0 <= i < |ids| ==> ids[i] in keys
    ensures FoundIds(ids, keys) == ids
    decreases |ids|
  {
    if ids != [] {
      FoundIdsAllPresent(ids[1..], keys);
    }
  }

  /** The `filter_map` over the requested ids (lines 96-99): each id is
      looked up in the map and the ids without an entry are skipped. */
  function Reorder(ids: seq<JMDictEntryId>, entriesMap: map<JMDictEntryId, JMDictEntry>): (list: seq<JMDictEntry>)
    ensures |list| == |FoundIds(ids, entriesMap.Keys)| <= |ids|
    ensures forall k :: 0 <= k < |list| ==> list[k] == entriesMap[FoundIds(ids, entriesMap.Keys)[k]]
    decreases |ids|
  {
    if ids == [] then []
    else
      var tail := Reorder(ids[1..], entriesMap);
      if ids[0] in entriesMap then
        var list := [entriesMap[ids[0]]] + tail;
        assert forall k :: 0 < k < |list| ==> list[k] == tail[k - 1];
        list
      else tail
  }

  /** The entries inserted into the map by the callback, in emission order. */
  function Collected(emitted: seq<JMDictEntry>): map<JMDictEntryId, JMDictEntry>
    decreases |emitted|
  {
    if emitted == [] then map[]
    else
      var last := |emitted| - 1;
      Collected(emitted[..last])[emitted[last].EntryId() := emitted[last]]
  }

  /** The map is keyed by exactly the ids the emitted entries carry. */
  lemma {:induction false} CollectedKeys(emitted: seq<JMDictEntry>)
    ensures Collected(emitted).Keys == set k | 0 <= k < |emitted| :: emitted[k].EntryId()
    decreases |emitted|
  {
    if emitted != [] {
      var last := |emitted| - 1;
      CollectedKeys(emitted[..last]);
      assert (set k | 0 <= k < |emitted| :: emitted[k].EntryId())
             == (set k | 0 <= k < last :: emitted[..last][k].EntryId()) + {emitted[last].EntryId()} by {
        forall k | 0 <= k < last ensures emitted[..last][k] == emitted[k] {}
      }
    }
  }

  /** A later entry with the same id replaces an earlier one: each key maps
      to the last emitted entry carrying it. */
  lemma {:induction false} CollectedLastWins(emitted: seq<JMDictEntry>, id: JMDictEntryId)
    requires id in Collected(emitted)
    ensures IsLastWithId(emitted, id, Collected(emitted)[id])
    decreases |emitted|
  {
    var last := |emitted| - 1;
    var e := emitted[last];
    if id != e.EntryId() {
      var before := Collected(emitted[..last]);
      CollectedLastWins(emitted[..last], id);
      var k :| 0 <= k < last && emitted[..last][k] == before[id] && before[id].EntryId() == id
               && forall j :: k < j < last ==> emitted[..last][j].EntryId() != id;
      assert emitted[k] == emitted[..last][k];
      forall j | k < j < |emitted| ensures emitted[j].EntryId() != id {
        if j < last { assert emitted[j] == emitted[..last][j]; }
      }
    } else {
      assert emitted[last] == Collected(emitted)[id];
    }
  }

  /** `e` is the last of `emitted` whose id is `id`. */
  predicate IsLastWithId(emitted: seq<JMDictEntry>, id: JMDictEntryId, e: JMDictEntry)
  {
    exists k :: 0 <= k < |emitted| && emitted[k] == e && e.EntryId() == id
                && forall j :: k < j < |emitted| ==> emitted[j].EntryId() != id
  }

  /** The callback of lines 92-94: every emitted entry is inserted into
      `entries_map` under the id it matched. */
  method CollectEntries(emitted: seq<JMDictEntry>) returns (entriesMap: map<JMDictEntryId, JMDictEntry>)
    ensures entriesMap == Collected(emitted)
  {
    entriesMap := map[];
    for i := 0 to |emitted|
      invariant entriesMap == Collected(emitted[..i])
    {
      assert emitted[..i + 1][..i] == emitted[..i];
      var e := emitted[i];
      entriesMap := entriesMap[e.EntryId().IntoOwned() := e];
    }
    assert emitted[..|emitted|] == emitted;
  }

  /** Every entry of the response is one the scan emitted. */
  lemma ReorderFromCollected(ids: seq<JMDictEntryId>, emitted: seq<JMDictEntry>)
    ensures var found := FoundIds(ids, Collected(emitted).Keys);
            var list := Reorder(ids, Collected(emitted));
            forall k :: 0 <= k < |list| ==> list[k].EntryId() == found[k] && list[k] in emitted
  {
    var entriesMap := Collected(emitted);
    var found := FoundIds(ids, entriesMap.Keys);
    var list := Reorder(ids, entriesMap);
    forall k | 0 <= k < |list| ensures list[k].EntryId() == found[k] && list[k] in emitted {
      CollectedLastWins(emitted, found[k]);
    }
  }

  /** Lines 91-99 of `get_words`, after the request body is decoded into
      `entryIds`: scan the dictionary for the requested ids in their own
      order, collect what it emits, and list it in request order. A panic
      of the scan ends the request without a response. */
  method GetWords(events: seq<Event>, entryIds: seq<JMDictEntryId>) returns (response: Option<seq<JMDictEntry>>)
    ensures response.None? <==> Scan(events, entryIds).outcome.Panicked?
    ensures response.Some? ==>
              && response.value == Reorder(entryIds, Collected(Scan(events, entryIds).emitted))
              && forall k :: 0 <= k < |response.value| ==>
                   && response.value[k].EntryId() == FoundIds(entryIds, Collected(Scan(events, entryIds).emitted).Keys)[k]
                   && ClaimedByOwnHeadword(response.value[k])
  {
    var emitted, outcome, remaining := WithJMDictEntries(events, entryIds);
    if outcome.Panicked? {
      return None;
    }
    var entriesMap := CollectEntries(emitted);
    ReorderFromCollected(entryIds, emitted);
    response := Some(Reorder(entryIds, entriesMap));
  }
}
