/** The streaming lookup of jmdict/src/lib.rs: `lookup_entry_id` and
    `with_jmdict_entries`, as the loops the source runs. The entries handed
    to the `on_entry` callback are returned, in call order, as `emitted`; a
    panic is the outcome `Panicked` (entries emitted before it stay
    emitted). */
module JMDict {
  import opened Wrappers
  import opened XmlEvents
  import opened Entry
  import opened JMDictAssembly
  import opened JMDictLookup

  /** How a scan ends: the number of entries closed, or a panic on a reader
      error. */
  datatype ScanOutcome = Finished(entryCount: nat) | Panicked

  /** Everything a scan produces. `remaining` is the final content of
      `entries_to_lookup`, which the source does not return. */
  datatype ScanResult = ScanResult(emitted: seq<JMDictEntry>, outcome: ScanOutcome, remaining: seq<JMDictEntryId>)

  /** A scan is the assembly of the document followed by the lookup of its
      closed entries, in document order. An entry still open when the scan
      stops may still have claimed an id: that id is neither emitted nor
      left outstanding. */
  function Scan(events: seq<Event>, requested: seq<JMDictEntryId>): (s: ScanResult)
    ensures multiset(EmittedIds(s.emitted)) + multiset(s.remaining) <= multiset(requested)
    ensures |requested| - 1 <= |s.emitted| + |s.remaining| <= |requested|
    ensures Parse(events).open == [] ==>
              multiset(requested) == multiset(s.remaining) + multiset(EmittedIds(s.emitted))
    ensures forall k :: 0 <= k < |s.emitted| ==> ClaimedByOwnHeadword(s.emitted[k])
    ensures forall k :: 0 <= k < |s.emitted| ==> CarriedBy(s.emitted[k], Parse(events).entries)
    ensures s.outcome.Finished? ==> s.outcome.entryCount == |Parse(events).entries| && !Parse(events).aborted
  {
    var document := Parse(events);
    var matched := MatchAll(document.entries, requested);
    var pending := ClaimFor(document.open, matched.remaining);
    ScanResult(matched.emitted, if document.aborted then Panicked else Finished(|document.entries|), pending.rest)
  }

  /** `lookup_entry_id`: find the first id satisfying `f` and remove it from
      the list. */
  method LookupEntryId(entriesIds: seq<JMDictEntryId>, f: JMDictEntryId -> bool)
    returns (found: Option<JMDictEntryId>, rest: seq<JMDictEntryId>)
    ensures found.None? ==> rest == entriesIds && forall i :: 0 <= i < |entriesIds| ==> !f(entriesIds[i])
    ensures found.Some? ==>
              exists k :: && 0 <= k < |entriesIds|
                          && f(entriesIds[k]) && found == Some(entriesIds[k])
                          && (forall j :: 0 <= j < k ==> !f(entriesIds[j]))
                          && rest == entriesIds[..k] + entriesIds[k + 1..]
    ensures Taken(found, rest) == TakeFirst(entriesIds, f)
  {
    var index := 0;
    while index < |entriesIds| && !f(entriesIds[index])
      invariant 0 <= index <= |entriesIds|
      invariant forall j :: 0 <= j < index ==> !f(entriesIds[j])
    {
      index := index + 1;
    }
    if index < |entriesIds| {
      TakeFirstAt(entriesIds, f, index);
      found, rest := Some(entriesIds[index]), entriesIds[..index] + entriesIds[index + 1..];
    } else {
      found, rest := None, entriesIds;
    }
  }

  /** The `'kanji_inner` loop (lines 87-114), run after `<k_ele>`: appends
      each `keb` text to the entry's kanji and, while the entry has claimed
      no id yet, looks the text up among the outstanding ids. */
  method KanjiInner(input: seq<Event>, entryKanji: seq<Kanji>, currentEntryId: Option<JMDictEntryId>,
                    entriesToLookup: seq<JMDictEntryId>, ghost outstanding: seq<JMDictEntryId>)
    returns (rest: seq<Event>, kanji: seq<Kanji>, entryId: Option<JMDictEntryId>,
             toLookup: seq<JMDictEntryId>, panicked: bool)
    requires Taken(currentEntryId, entriesToLookup) == ClaimFor(entryKanji, outstanding)
    ensures Step(kanji, rest, panicked) == KanjiElement(input, entryKanji)
    ensures Taken(entryId, toLookup) == ClaimFor(kanji, outstanding)
  {
    rest, kanji, entryId, toLookup := input, entryKanji, currentEntryId, entriesToLookup;
    while true
      invariant KanjiElement(rest, kanji) == KanjiElement(input, entryKanji)
      invariant Taken(entryId, toLookup) == ClaimFor(kanji, outstanding)
      decreases |rest|
    {
      var event := Next(rest);
      rest := Rest(rest);
      match event {
        case Start(name, _) =>
          if name == ElemKeb {
            var kanjiText := ReadText(rest, ElemKeb);
            rest := kanjiText.rest;
            if kanjiText.text.Some? {
              kanji := kanji + [Kanji(kanjiText.text.value)];
              if entryId.None? {
                entryId, toLookup := LookupEntryId(toLookup, KanjiMatcher(kanjiText.text.value));
              }
            }
          }
        case Eof => break;
        case End(name) =>
          if name == ElemKanji {
            break;
          }
        case Error =>
          panicked := true;
          return;
        case _ =>
      }
    }
    panicked := false;
  }

  /** The `'reading_inner` loop (lines 119-143), run after `<r_ele>`:
      appends each `reb` text to the entry's readings. Readings never take
      part in the lookup. */
  method ReadingInner(input: seq<Event>, entryReading: seq<Reading>)
    returns (rest: seq<Event>, readings: seq<Reading>, panicked: bool)
    ensures Step(readings, rest, panicked) == ReadingElement(input, entryReading)
  {
    rest, readings := input, entryReading;
    while true
      invariant ReadingElement(rest, readings) == ReadingElement(input, entryReading)
      decreases |rest|
    {
      var event := Next(rest);
      rest := Rest(rest);
      match event {
        case Start(name, _) =>
          if name == ElemReb {
            var readingText := ReadText(rest, ElemReb);
            rest := readingText.rest;
            if readingText.text.Some? {
              readings := readings + [Reading(readingText.text.value)];
            }
          }
        case Eof => break;
        case End(name) =>
          if name == ElemReading {
            break;
          }
        case Error =>
          panicked := true;
          return;
        case _ =>
      }
    }
    panicked := false;
  }

  /** The `'sense_inner` loop (lines 149-183), run after `<sense>`: builds
      one sense from the `gloss` elements inside it. */
  method SenseInner(input: seq<Event>) returns (rest: seq<Event>, currentSense: Sense, panicked: bool)
    ensures Step(currentSense, rest, panicked) == SenseElement(input, Sense.New())
  {
    rest, currentSense := input, Sense.New();
    while true
      invariant SenseElement(rest, currentSense) == SenseElement(input, Sense.New())
      decreases |rest|
    {
      var event := Next(rest);
      rest := Rest(rest);
      match event {
        case Start(name, attributes) =>
          if name == ElemGloss {
            var langAttribute := GlossLang(attributes);
            var glossText := ReadText(rest, ElemGloss);
            rest := glossText.rest;
            if glossText.text.Some? {
              currentSense := currentSense.AddGloss(MakeGloss(glossText.text.value, langAttribute));
            }
          }
        case End(name) =>
          if name == ElemSense {
            break;
          }
        case Eof => break;
        case Error =>
          panicked := true;
          return;
        case _ =>
      }
    }
    panicked := false;
  }

  /** A start tag inside an entry (lines 83-187): dispatch on the element
      name to the inner loops above. */
  method EntryChildElement(name: string, input: seq<Event>,
                           entryKanji: seq<Kanji>, entryReading: seq<Reading>, entrySense: seq<Sense>,
                           currentEntryId: Option<JMDictEntryId>, entriesToLookup: seq<JMDictEntryId>,
                           ghost outstanding: seq<JMDictEntryId>)
    returns (rest: seq<Event>, kanji: seq<Kanji>, readings: seq<Reading>, senses: seq<Sense>,
             entryId: Option<JMDictEntryId>, toLookup: seq<JMDictEntryId>, panicked: bool)
    requires Taken(currentEntryId, entriesToLookup) == ClaimFor(entryKanji, outstanding)
    ensures Step(Assembled(kanji, readings, senses), rest, panicked)
            == EntryChild(name, input, Assembled(entryKanji, entryReading, entrySense))
    ensures Taken(entryId, toLookup) == ClaimFor(kanji, outstanding)
  {
    rest, kanji, readings, senses := input, entryKanji, entryReading, entrySense;
    entryId, toLookup, panicked := currentEntryId, entriesToLookup, false;
    if name == ElemKanji {
      rest, kanji, entryId, toLookup, panicked := KanjiInner(input, entryKanji, currentEntryId, entriesToLookup, outstanding);
    } else if name == ElemReading {
      rest, readings, panicked := ReadingInner(input, entryReading);
    } else if name == ElemSense {
      var currentSense;
      rest, currentSense, panicked := SenseInner(input);
      if !panicked {
        senses := entrySense + [currentSense];
      }
    }
  }

  /** Closing an entry (lines 188-193) extends the lookup of the closed
      entries by that entry's claim. */
  lemma CloseEntry(closed: seq<Assembled>, assembled: Assembled, requested: seq<JMDictEntryId>,
                   currentEntryId: Option<JMDictEntryId>, entriesToLookup: seq<JMDictEntryId>)
    requires Taken(currentEntryId, entriesToLookup) == ClaimFor(assembled.kanji, MatchAll(closed, requested).remaining)
    ensures MatchAll(closed + [assembled], requested)
            == Matched(MatchAll(closed, requested).emitted
                       + (if currentEntryId.Some?
                          then [JMDictEntry.New(currentEntryId.value, assembled.kanji, assembled.readings, assembled.senses)]
                          else []),
                       entriesToLookup)
  {
    assert (closed + [assembled])[..|closed|] == closed;
  }

  /** The state of the outer loop agrees with the reference semantics: the
      rest of the scan from here assembles the document, the entries closed
      so far have emitted what their lookup emits, the open entry's claim is
      the one its kanji make against the ids still outstanding, and the
      count is the number of closed entries. */
  ghost predicate Scanning(events: seq<Event>, requested: seq<JMDictEntryId>, input: seq<Event>, readingEntry: bool,
                           entry: Assembled, closed: seq<Assembled>, emitted: seq<JMDictEntry>,
                           currentEntryId: Option<JMDictEntryId>, entriesToLookup: seq<JMDictEntryId>,
                           totalEntryCount: nat)
  {
    && ParseFrom(input, readingEntry, entry, closed) == Parse(events)
    && (!readingEntry ==> entry.kanji == [])
    && emitted == MatchAll(closed, requested).emitted
    && Taken(currentEntryId, entriesToLookup) == ClaimFor(entry.kanji, MatchAll(closed, requested).remaining)
    && totalEntryCount == |closed|
  }

  /** `<entry>` outside an entry (lines 77-82) starts a fresh one. */
  lemma OpenEntryStep(events: seq<Event>, requested: seq<JMDictEntryId>, input: seq<Event>, entry: Assembled,
                      closed: seq<Assembled>, emitted: seq<JMDictEntry>,
                      currentEntryId: Option<JMDictEntryId>, entriesToLookup: seq<JMDictEntryId>, totalEntryCount: nat)
    requires Scanning(events, requested, input, false, entry, closed, emitted, currentEntryId, entriesToLookup, totalEntryCount)
    requires Next(input).Start? && Next(input).name == ElemEntry
    ensures Scanning(events, requested, Rest(input), true, Fresh, closed, emitted, currentEntryId, entriesToLookup, totalEntryCount)
  {
  }

  /** A child element of the open entry (lines 83-187): either the scan
      goes on with the entry as the child left it, or the reader failed and
      the scan ends as the reference semantics say. */
  lemma ChildStep(events: seq<Event>, requested: seq<JMDictEntryId>, input: seq<Event>, entry: Assembled,
                  closed: seq<Assembled>, emitted: seq<JMDictEntry>,
                  currentEntryId: Option<JMDictEntryId>, entriesToLookup: seq<JMDictEntryId>, totalEntryCount: nat,
                  after: Assembled, rest: seq<Event>, panicked: bool,
                  entryId: Option<JMDictEntryId>, toLookup: seq<JMDictEntryId>)
    requires Scanning(events, requested, input, true, entry, closed, emitted, currentEntryId, entriesToLookup, totalEntryCount)
    requires Next(input).Start?
    requires Step(after, rest, panicked) == EntryChild(Next(input).name, Rest(input), entry)
    requires Taken(entryId, toLookup) == ClaimFor(after.kanji, MatchAll(closed, requested).remaining)
    ensures !panicked ==> Scanning(events, requested, rest, true, after, closed, emitted, entryId, toLookup, totalEntryCount)
    ensures panicked ==> ScanResult(emitted, Panicked, toLookup) == Scan(events, requested)
  {
  }

  /** `</entry>` inside an entry (lines 188-199): the entry is emitted with
      its claimed id if it has one, and the loop state is reset. */
  lemma CloseEntryStep(events: seq<Event>, requested: seq<JMDictEntryId>, input: seq<Event>, entry: Assembled,
                       closed: seq<Assembled>, emitted: seq<JMDictEntry>,
                       currentEntryId: Option<JMDictEntryId>, entriesToLookup: seq<JMDictEntryId>, totalEntryCount: nat)
    requires Scanning(events, requested, input, true, entry, closed, emitted, currentEntryId, entriesToLookup, totalEntryCount)
    requires Next(input) == End(ElemEntry)
    ensures Scanning(events, requested, Rest(input), false, Fresh, closed + [entry],
                     emitted + (if currentEntryId.Some?
                                then [JMDictEntry.New(currentEntryId.value, entry.kanji, entry.readings, entry.senses)]
                                else []),
                     None, entriesToLookup, totalEntryCount + 1)
  {
    CloseEntry(closed, entry, requested, currentEntryId, entriesToLookup);
  }

  /** Every other event that is neither the end of input nor an error
      (text, the document type declaration, an unknown or stray element)
      leaves the loop state as it is. */
  lemma SkipStep(events: seq<Event>, requested: seq<JMDictEntryId>, input: seq<Event>, readingEntry: bool,
                 entry: Assembled, closed: seq<Assembled>, emitted: seq<JMDictEntry>,
                 currentEntryId: Option<JMDictEntryId>, entriesToLookup: seq<JMDictEntryId>, totalEntryCount: nat)
    requires Scanning(events, requested, input, readingEntry, entry, closed, emitted, currentEntryId, entriesToLookup, totalEntryCount)
    requires Next(input) != Eof && Next(input) != Error
    requires Next(input).Start? ==> !readingEntry && Next(input).name != ElemEntry
    requires Next(input).End? ==> !(readingEntry && Next(input).name == ElemEntry)
    ensures Scanning(events, requested, Rest(input), readingEntry, entry, closed, emitted, currentEntryId, entriesToLookup,
                     totalEntryCount)
  {
  }

  /** The end of input (line 204) or a reader error (lines 205-209) ends the
      scan as the reference semantics say. */
  lemma StopStep(events: seq<Event>, requested: seq<JMDictEntryId>, input: seq<Event>, readingEntry: bool,
                 entry: Assembled, closed: seq<Assembled>, emitted: seq<JMDictEntry>,
                 currentEntryId: Option<JMDictEntryId>, entriesToLookup: seq<JMDictEntryId>, totalEntryCount: nat)
    requires Scanning(events, requested, input, readingEntry, entry, closed, emitted, currentEntryId, entriesToLookup, totalEntryCount)
    requires Next(input) == Eof || Next(input) == Error
    ensures ScanResult(emitted, if Next(input) == Eof then Finished(totalEntryCount) else Panicked, entriesToLookup)
            == Scan(events, requested)
  {
  }

  /** `with_jmdict_entries`: one forward pass over the events. It emits
      exactly what the assembly of the document followed by the lookup of
      its closed entries emits, and ends only at the end of input. */
  method WithJMDictEntries(events: seq<Event>, entriesIds: seq<JMDictEntryId>)
    returns (emitted: seq<JMDictEntry>, outcome: ScanOutcome, ghost remaining: seq<JMDictEntryId>)
    ensures emitted == Scan(events, entriesIds).emitted
    ensures outcome == Scan(events, entriesIds).outcome
    ensures remaining == Scan(events, entriesIds).remaining
  {
    var entriesToLookup := entriesIds;
    var input := events;
    var totalEntryCount: nat := 0;
    var currentEntryId: Option<JMDictEntryId> := None;
    var readingEntry := false;
    var entryKanji: seq<Kanji> := [];
    var entryReading: seq<Reading> := [];
    var entrySense: seq<Sense> := [];
    ghost var closed: seq<Assembled> := [];
    emitted := [];
    while true
      invariant Scanning(events, entriesIds, input, readingEntry, Assembled(entryKanji, entryReading, entrySense),
                         closed, emitted, currentEntryId, entriesToLookup, totalEntryCount)
      decreases |input|
    {
      ghost var before := input;
      ghost var entry := Assembled(entryKanji, entryReading, entrySense);
      var event := Next(input);
      input := Rest(input);
      match event {
        case Start(name, _) =>
          if !readingEntry && name == ElemEntry {
            OpenEntryStep(events, entriesIds, before, entry, closed, emitted, currentEntryId, entriesToLookup,
                          totalEntryCount);
            readingEntry := true;
            entryKanji, entryReading, entrySense := [], [], [];
          } else if readingEntry {
            var panicked;
            ghost var outstanding := MatchAll(closed, entriesIds).remaining;
            ghost var idBefore, lookupBefore := currentEntryId, entriesToLookup;
            input, entryKanji, entryReading, entrySense, currentEntryId, entriesToLookup, panicked :=
              EntryChildElement(name, input, entryKanji, entryReading, entrySense,
                                currentEntryId, entriesToLookup, outstanding);
            ChildStep(events, entriesIds, before, entry, closed, emitted, idBefore, lookupBefore,
                      totalEntryCount, Assembled(entryKanji, entryReading, entrySense), input, panicked,
                      currentEntryId, entriesToLookup);
            if panicked {
              outcome, remaining := Panicked, entriesToLookup;
              return;
            }
          } else {
            SkipStep(events, entriesIds, before, readingEntry, entry, closed, emitted, currentEntryId, entriesToLookup,
                     totalEntryCount);
          }
        case End(name) =>
          if readingEntry && name == ElemEntry {
            CloseEntryStep(events, entriesIds, before, entry, closed, emitted, currentEntryId, entriesToLookup,
                           totalEntryCount);
            if currentEntryId.Some? {
              var currentEntry := JMDictEntry.New(currentEntryId.value, entryKanji, entryReading, entrySense);
              emitted := emitted + [currentEntry];
            }
            closed := closed + [entry];
            readingEntry := false;
            currentEntryId := None;
            totalEntryCount := totalEntryCount + 1;
            entryKanji, entryReading, entrySense := [], [], [];
          } else {
            SkipStep(events, entriesIds, before, readingEntry, entry, closed, emitted, currentEntryId, entriesToLookup,
                     totalEntryCount);
          }
        case Eof =>
          StopStep(events, entriesIds, before, readingEntry, entry, closed, emitted, currentEntryId, entriesToLookup,
                   totalEntryCount);
          break;
        case Error =>
          StopStep(events, entriesIds, before, readingEntry, entry, closed, emitted, currentEntryId, entriesToLookup,
                   totalEntryCount);
          outcome, remaining := Panicked, entriesToLookup;
          return;
        case DocType(_) =>
          // the keywords of the declaration are read and discarded
          SkipStep(events, entriesIds, before, readingEntry, entry, closed, emitted, currentEntryId, entriesToLookup,
                   totalEntryCount);
        case _ =>
          SkipStep(events, entriesIds, before, readingEntry, entry, closed, emitted, currentEntryId, entriesToLookup,
                   totalEntryCount);
      }
    }
    outcome, remaining := Finished(totalEntryCount), entriesToLookup;
  }

  /** Without a reader error the whole document is scanned and the number
      of entries it closes is returned. */
  lemma ScanWithoutErrorFinishes(events: seq<Event>, requested: seq<JMDictEntryId>)
    requires Error !in events
    ensures Scan(events, requested).outcome == Finished(|Parse(events).entries|)
  {
    ParseFromWithoutError(events, false, Fresh, []);
  }

  /** A panic stops the scan where the reader failed: the entries emitted
      until then do not depend on anything later in the document. */
  lemma ScanPanicIgnoresLaterEvents(events: seq<Event>, more: seq<Event>, requested: seq<JMDictEntryId>)
    requires Scan(events, requested).outcome.Panicked?
    ensures Scan(events + more, requested) == Scan(events, requested)
  {
    ParseFromAbortIgnoresSuffix(events, false, Fresh, [], more);
  }

  /** There is no early exit: the document is read to its end even once
      every requested id has been found, so how far the scan gets and the
      count it returns do not depend on the ids requested. */
  lemma ScanOutcomeIgnoresRequest(events: seq<Event>, a: seq<JMDictEntryId>, b: seq<JMDictEntryId>)
    ensures Scan(events, a).outcome == Scan(events, b).outcome
  {
  }

  /** Ids that are no written form of any entry of the document are never
      emitted. */
  lemma ScanWithoutHeadwords(events: seq<Event>, requested: seq<JMDictEntryId>)
    requires forall i :: 0 <= i < |Parse(events).entries| ==> !AnyMatch(Parse(events).entries[i].kanji, requested)
    ensures Scan(events, requested).emitted == []
  {
    MatchAllWithoutHeadwords(Parse(events).entries, requested);
  }

  /** An id requested `n` times is emitted with the first `n` entries of the
      document that have it as a written form. */
  lemma ScanRepeatedId(events: seq<Event>, id: JMDictEntryId, n: nat)
    ensures Scan(events, Repeat(id, n)).emitted == Granted(WithHeadword(Parse(events).entries, id), id, n).emitted
  {
    MatchAllRepeat(Parse(events).entries, id, n);
  }

  /** The scan stops at the first `Eof` event of the input: the events
      after it change nothing. */
  lemma ScanStopsAtEof(events: seq<Event>, after: seq<Event>, requested: seq<JMDictEntryId>)
    requires Eof in events
    ensures Scan(events + after, requested) == Scan(events, requested)
  {
    ParseFromStopsAtEof(events, false, Fresh, [], after);
  }
}
