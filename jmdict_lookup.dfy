/** Reference semantics of the id lookup in jmdict/src/lib.rs: which
    outstanding id an entry claims (lines 32-47 and 91-100), and which
    entries a sequence of assembled entries emits (lines 188-193). */
module JMDictLookup {
  import opened Wrappers
  import opened Entry
  import opened JMDictAssembly
  import Ids = EntryId

  type JMDictEntryId = Ids.JMDictEntryId

  /** What a lookup found, and the outstanding ids left after it. */
  datatype Taken = Taken(found: Option<JMDictEntryId>, rest: seq<JMDictEntryId>)

  /** `lookup_entry_id` as a value: take out the first id satisfying `f`. */
  function TakeFirst(ids: seq<JMDictEntryId>, f: JMDictEntryId -> bool): (t: Taken)
    ensures t.found.None? ==> t.rest == ids && forall i :: 0 <= i < |ids| ==> !f(ids[i])
    ensures t.found.Some? ==> f(t.found.value) && t.found.value in ids && |t.rest| + 1 == |ids|
    ensures t.found.Some? ==> multiset(ids) == multiset(t.rest) + multiset{t.found.value}
    decreases |ids|
  {
    if ids == [] then Taken(None, [])
    else if f(ids[0]) then
      assert ids == [ids[0]] + ids[1..];
      Taken(Some(ids[0]), ids[1..])
    else
      var t := TakeFirst(ids[1..], f);
      assert ids == [ids[0]] + ids[1..];
      Taken(t.found, [ids[0]] + t.rest)
  }

  /** The id taken is the one at the lowest index satisfying `f`, and the
      rest is the list with that one index deleted, order preserved. */
  lemma {:induction false} TakeFirstAt(ids: seq<JMDictEntryId>, f: JMDictEntryId -> bool, k: nat)
    requires k < |ids| && f(ids[k])
    requires forall j :: 0 <= j < k ==> !f(ids[j])
    ensures TakeFirst(ids, f) == Taken(Some(ids[k]), ids[..k] + ids[k + 1..])
    decreases k
  {
    if k > 0 {
      assert !f(ids[0]);
      forall j | 0 <= j < k - 1 ensures !f(ids[1..][j]) {
        assert ids[1..][j] == ids[j + 1];
      }
      TakeFirstAt(ids[1..], f, k - 1);
      assert ids[1..][..k - 1] == ids[1..k] && ids[1..][k..] == ids[k + 1..];
      assert [ids[0]] + ids[1..k] == ids[..k];
      assert [ids[0]] + (ids[1..k] + ids[k + 1..]) == [ids[0]] + ids[1..k] + ids[k + 1..];
    }
  }

  /** The predicate lib.rs passes to `lookup_entry_id` for a `keb` text. */
  function KanjiMatcher(kanjiText: string): JMDictEntryId -> bool
  {
    (id: JMDictEntryId) => id.MatchKanji(kanjiText)
  }

  /** `id` is one of the written forms of an entry. */
  predicate IsHeadword(id: JMDictEntryId, kanji: seq<Kanji>)
  {
    exists i :: 0 <= i < |kanji| && id.MatchKanji(kanji[i].String())
  }

  /** Some outstanding id is one of the written forms. */
  predicate AnyMatch(kanji: seq<Kanji>, outstanding: seq<JMDictEntryId>)
  {
    exists i, j :: 0 <= i < |kanji| && 0 <= j < |outstanding| && outstanding[j].MatchKanji(kanji[i].String())
  }

  /** Splitting off the last written form of an entry. */
  lemma AnyMatchSnoc(kanji: seq<Kanji>, outstanding: seq<JMDictEntryId>)
    requires kanji != []
    ensures AnyMatch(kanji, outstanding) <==>
              AnyMatch(kanji[..|kanji| - 1], outstanding)
              || exists j :: 0 <= j < |outstanding| && KanjiMatcher(kanji[|kanji| - 1].String())(outstanding[j])
  {
    var last := |kanji| - 1;
    if AnyMatch(kanji, outstanding) {
      var i, j :| 0 <= i < |kanji| && 0 <= j < |outstanding| && outstanding[j].MatchKanji(kanji[i].String());
      if i < last {
        assert kanji[..last][i] == kanji[i];
      } else {
        assert KanjiMatcher(kanji[last].String())(outstanding[j]);
      }
    }
    if AnyMatch(kanji[..last], outstanding) {
      var i, j :| 0 <= i < last && 0 <= j < |outstanding| && outstanding[j].MatchKanji(kanji[..last][i].String());
      assert kanji[..last][i] == kanji[i];
    }
  }

  lemma IsHeadwordSnoc(kanji: seq<Kanji>)
    requires kanji != []
    ensures forall id: JMDictEntryId ::
              IsHeadword(id, kanji[..|kanji| - 1]) || id.MatchKanji(kanji[|kanji| - 1].String()) ==> IsHeadword(id, kanji)
  {
    var last := |kanji| - 1;
    forall id: JMDictEntryId | IsHeadword(id, kanji[..last]) ensures IsHeadword(id, kanji) {
      var i :| 0 <= i < last && id.MatchKanji(kanji[..last][i].String());
      assert kanji[..last][i] == kanji[i];
    }
  }

  /** The claim an entry makes while its `keb` texts are read in order: a
      lookup is tried for each text only while no id has been claimed yet
      (lines 95-100). The result is the claimed id, if any, and the
      outstanding ids left. */
  function ClaimFor(kanji: seq<Kanji>, outstanding: seq<JMDictEntryId>): (c: Taken)
    ensures c.found.Some? <==> AnyMatch(kanji, outstanding)
    ensures c.found.None? ==> c.rest == outstanding
    ensures c.found.Some? ==>
              && c.found.value in outstanding
              && IsHeadword(c.found.value, kanji)
              && |c.rest| + 1 == |outstanding|
              && multiset(outstanding) == multiset(c.rest) + multiset{c.found.value}
    decreases |kanji|
  {
    if kanji == [] then Taken(None, outstanding)
    else
      var last := |kanji| - 1;
      var c := ClaimFor(kanji[..last], outstanding);
      AnyMatchSnoc(kanji, outstanding);
      IsHeadwordSnoc(kanji);
      if c.found.Some? then c else TakeFirst(c.rest, KanjiMatcher(kanji[last].String()))
  }

  /** First match wins: the entry claims with its first written form (in
      document order) that equals an outstanding id, and it claims the first
      such id in request order. Later written forms cannot claim another. */
  lemma {:induction false} ClaimForFirstHeadword(kanji: seq<Kanji>, outstanding: seq<JMDictEntryId>, i: nat)
    requires i < |kanji|
    requires !AnyMatch(kanji[..i], outstanding)
    requires exists j :: 0 <= j < |outstanding| && outstanding[j].MatchKanji(kanji[i].String())
    ensures ClaimFor(kanji, outstanding) == TakeFirst(outstanding, KanjiMatcher(kanji[i].String()))
    decreases |kanji|
  {
    var last := |kanji| - 1;
    var f := KanjiMatcher(kanji[i].String());
    var c := ClaimFor(kanji[..last], outstanding);
    if i == last {
      assert kanji[..last] == kanji[..i];
      assert c == Taken(None, outstanding);
    } else {
      assert kanji[..last][..i] == kanji[..i];
      assert kanji[..last][i] == kanji[i];
      ClaimForFirstHeadword(kanji[..last], outstanding, i);
      var j :| 0 <= j < |outstanding| && outstanding[j].MatchKanji(kanji[i].String());
      assert f(outstanding[j]);
      assert c.found.Some?;
    }
  }

  /** Entries emitted by an assembled entry sequence, and the ids left. */
  datatype Matched = Matched(emitted: seq<JMDictEntry>, remaining: seq<JMDictEntryId>)

  /** The ids the emitted entries carry, in emission order. */
  function EmittedIds(emitted: seq<JMDictEntry>): (ids: seq<JMDictEntryId>)
    ensures |ids| == |emitted|
    ensures forall k :: 0 <= k < |emitted| ==> ids[k] == emitted[k].EntryId()
  {
    seq(|emitted|, k requires 0 <= k < |emitted| => emitted[k].EntryId())
  }

  /** The entry carries a key equal to one of its own written forms. */
  predicate ClaimedByOwnHeadword(e: JMDictEntry)
  {
    IsHeadword(e.EntryId(), e.KanjiForms())
  }

  /** `e` holds exactly the lists assembled for `a`. */
  predicate Carries(e: JMDictEntry, a: Assembled)
  {
    e.KanjiForms() == a.kanji && e.Readings() == a.readings && e.Senses() == a.senses
  }

  lemma EmittedIdsSnoc(emitted: seq<JMDictEntry>, e: JMDictEntry)
    ensures EmittedIds(emitted + [e]) == EmittedIds(emitted) + [e.EntryId()]
  {
  }

  /** Every emitted entry carries the lists of one of the closed entries. */
  ghost predicate AllCarried(emitted: seq<JMDictEntry>, entries: seq<Assembled>)
  {
    forall k :: 0 <= k < |emitted| ==> CarriedBy(emitted[k], entries)
  }

  ghost predicate CarriedBy(e: JMDictEntry, entries: seq<Assembled>)
  {
    exists i :: 0 <= i < |entries| && Carries(e, entries[i])
  }

  lemma AllCarriedSnoc(emitted: seq<JMDictEntry>, entries: seq<Assembled>, e: Option<JMDictEntry>)
    requires entries != []
    requires AllCarried(emitted, entries[..|entries| - 1])
    requires e.Some? ==> Carries(e.value, entries[|entries| - 1])
    ensures AllCarried(if e.Some? then emitted + [e.value] else emitted, entries)
  {
    var last := |entries| - 1;
    var emitted' := if e.Some? then emitted + [e.value] else emitted;
    forall k | 0 <= k < |emitted'| ensures CarriedBy(emitted'[k], entries) {
      if k < |emitted| {
        assert CarriedBy(emitted[k], entries[..last]);
        var i :| 0 <= i < last && Carries(emitted[k], entries[..last][i]);
        assert entries[..last][i] == entries[i];
        assert emitted'[k] == emitted[k];
      } else {
        assert e.Some? && emitted'[k] == e.value;
        assert Carries(emitted'[k], entries[last]);
      }
    }
    assert AllCarried(emitted', entries);
  }

  /** What lines 188-193 emit for a sequence of closed entries, starting from
      the outstanding ids `requested`: an entry is emitted exactly when it
      claimed an id, carrying that id and its own lists. */
  function MatchAll(entries: seq<Assembled>, requested: seq<JMDictEntryId>): (m: Matched)
    ensures multiset(requested) == multiset(m.remaining) + multiset(EmittedIds(m.emitted))
    ensures |m.emitted| + |m.remaining| == |requested|
    ensures |m.emitted| <= |entries|
    ensures forall k :: 0 <= k < |m.emitted| ==> ClaimedByOwnHeadword(m.emitted[k])
    ensures AllCarried(m.emitted, entries)
    decreases |entries|
  {
    if entries == [] then Matched([], requested)
    else
      var last := |entries| - 1;
      var m := MatchAll(entries[..last], requested);
      var e := entries[last];
      var c := ClaimFor(e.kanji, m.remaining);
      var next := Emit(m, e);
      assert && AllCarried(next.emitted, entries)
             && EmittedIds(next.emitted) == EmittedIds(m.emitted) + (if c.found.Some? then [c.found.value] else []) by {
        var made := if c.found.Some? then Some(JMDictEntry.New(c.found.value, e.kanji, e.readings, e.senses)) else None;
        AllCarriedSnoc(m.emitted, entries, made);
        if c.found.Some? {
          EmittedIdsSnoc(m.emitted, made.value);
        }
      }
      next
  }

  /** One closed entry: it claims an id from those still outstanding and,
      if it claimed one, is emitted carrying it. */
  function Emit(m: Matched, e: Assembled): Matched
  {
    var c := ClaimFor(e.kanji, m.remaining);
    if c.found.Some? then Matched(m.emitted + [JMDictEntry.New(c.found.value, e.kanji, e.readings, e.senses)], c.rest)
    else Matched(m.emitted, c.rest)
  }

  /** A closed entry is emitted exactly when one of its written forms is
      still outstanding; it then carries one such id, which it claimed, and
      its own lists. Otherwise nothing changes. */
  lemma MatchAllNextEntry(entries: seq<Assembled>, e: Assembled, requested: seq<JMDictEntryId>)
    ensures var m := MatchAll(entries, requested);
            var next := MatchAll(entries + [e], requested);
            if AnyMatch(e.kanji, m.remaining) then
              exists id :: && id in m.remaining && IsHeadword(id, e.kanji)
                           && next.emitted == m.emitted + [JMDictEntry.New(id, e.kanji, e.readings, e.senses)]
            else next == m
  {
    assert (entries + [e])[..|entries|] == entries;
    var m := MatchAll(entries, requested);
    var c := ClaimFor(e.kanji, m.remaining);
    if c.found.Some? {
      var id := c.found.value;
      assert MatchAll(entries + [e], requested).emitted == m.emitted + [JMDictEntry.New(id, e.kanji, e.readings, e.senses)];
    }
  }

  /** Ids that are no written form of any entry are never claimed: nothing
      is emitted and every requested id stays outstanding. */
  lemma {:induction false} MatchAllWithoutHeadwords(entries: seq<Assembled>, requested: seq<JMDictEntryId>)
    requires forall i :: 0 <= i < |entries| ==> !AnyMatch(entries[i].kanji, requested)
    ensures MatchAll(entries, requested) == Matched([], requested)
    decreases |entries|
  {
    if entries != [] {
      var last := |entries| - 1;
      forall i | 0 <= i < last ensures !AnyMatch(entries[..last][i].kanji, requested) {
        assert entries[..last][i] == entries[i];
      }
      MatchAllWithoutHeadwords(entries[..last], requested);
    }
  }

  /** `n` copies of one id. */
  function Repeat(id: JMDictEntryId, n: nat): (s: seq<JMDictEntryId>)
    ensures |s| == n && forall k :: 0 <= k < n ==> s[k] == id
  {
    seq(n, _ => id)
  }

  /** The entries having `id` as a written form, in document order, each as
      it is emitted for `id`. */
  function WithHeadword(entries: seq<Assembled>, id: JMDictEntryId): seq<JMDictEntry>
    decreases |entries|
  {
    if entries == [] then []
    else
      var last := |entries| - 1;
      var e := entries[last];
      WithHeadword(entries[..last], id)
      + if IsHeadword(id, e.kanji) then [JMDictEntry.New(id, e.kanji, e.readings, e.senses)] else []
  }

  lemma AnyMatchRepeat(kanji: seq<Kanji>, id: JMDictEntryId, n: nat)
    ensures AnyMatch(kanji, Repeat(id, n)) <==> n > 0 && IsHeadword(id, kanji)
  {
    var ids := Repeat(id, n);
    if AnyMatch(kanji, ids) {
      var i, j :| 0 <= i < |kanji| && 0 <= j < n && ids[j].MatchKanji(kanji[i].String());
      assert ids[j] == id;
    }
    if n > 0 && IsHeadword(id, kanji) {
      var i :| 0 <= i < |kanji| && id.MatchKanji(kanji[i].String());
      assert ids[0].MatchKanji(kanji[i].String());
    }
  }

  lemma AllEqualIsRepeat(s: seq<JMDictEntryId>, id: JMDictEntryId)
    requires forall x :: x in s ==> x == id
    ensures s == Repeat(id, |s|)
  {
    forall k | 0 <= k < |s| ensures s[k] == Repeat(id, |s|)[k] {
      assert s[k] in s;
    }
  }

  /** An entry claims one copy of a repeated id exactly when the id is one
      of its written forms and a copy is still outstanding. */
  lemma ClaimForRepeat(kanji: seq<Kanji>, id: JMDictEntryId, n: nat)
    ensures ClaimFor(kanji, Repeat(id, n))
            == if n > 0 && IsHeadword(id, kanji) then Taken(Some(id), Repeat(id, n - 1)) else Taken(None, Repeat(id, n))
  {
    var ids := Repeat(id, n);
    var c := ClaimFor(kanji, ids);
    AnyMatchRepeat(kanji, id, n);
    if c.found.Some? {
      forall x | x in c.rest ensures x == id {
        assert x in multiset(c.rest);
        assert x in multiset(ids);
      }
      AllEqualIsRepeat(c.rest, id);
    }
  }

  /** The first `n` of `hits` are emitted; the copies left over stay outstanding. */
  function Granted(hits: seq<JMDictEntry>, id: JMDictEntryId, n: nat): Matched
  {
    if n < |hits| then Matched(hits[..n], []) else Matched(hits, Repeat(id, n - |hits|))
  }

  lemma GrantedStep(before: seq<JMDictEntry>, e: Assembled, id: JMDictEntryId, n: nat)
    ensures Emit(Granted(before, id, n), e)
            == Granted(before + if IsHeadword(id, e.kanji) then [JMDictEntry.New(id, e.kanji, e.readings, e.senses)] else [],
                       id, n)
  {
    var m := Granted(before, id, n);
    var made := JMDictEntry.New(id, e.kanji, e.readings, e.senses);
    if n <= |before| {
      ClaimForRepeat(e.kanji, id, 0);
      assert m.remaining == Repeat(id, 0);
      if IsHeadword(id, e.kanji) {
        assert (before + [made])[..n] == before[..n];
      }
    } else {
      ClaimForRepeat(e.kanji, id, n - |before|);
    }
  }

  /** A key requested `n` times is given to the first `n` entries (in
      document order) that have it as a written form, one copy each; copies
      for which no such entry is left stay outstanding. */
  lemma {:induction false} MatchAllRepeat(entries: seq<Assembled>, id: JMDictEntryId, n: nat)
    ensures MatchAll(entries, Repeat(id, n)) == Granted(WithHeadword(entries, id), id, n)
    decreases |entries|
  {
    if entries != [] {
      var last := |entries| - 1;
      MatchAllRepeat(entries[..last], id, n);
      GrantedStep(WithHeadword(entries[..last], id), entries[last], id, n);
    }
  }
}
