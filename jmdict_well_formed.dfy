/** What the assembly of jmdict/src/lib.rs reads from a well-formed
    JMdict document: each `k_ele` holding one `keb`, each `r_ele` holding
    one `reb`, each `sense` holding its `gloss` elements, and each `entry`
    holding its `k_ele`, `r_ele` and `sense` elements in that order. The
    functions below write such a document as reader events; the lemmas
    show that reading it back gives exactly the kanji, readings, glosses
    and entries it was written from, in document order. */
module JMDictWellFormed {
  import opened Wrappers
  import opened XmlEvents
  import opened Entry
  import opened JMDictAssembly
  import opened JMDictLookup
  import opened JMDict

  /** `<keb>k</keb>` for each written form, in order. */
  function KebEvents(ks: seq<Kanji>): seq<Event>
  {
    if ks == [] then [] else [Start(ElemKeb, []), Text(ks[0].String()), End(ElemKeb)] + KebEvents(ks[1..])
  }

  /** `<reb>r</reb>` for each reading, in order. */
  function RebEvents(rs: seq<Reading>): seq<Event>
  {
    if rs == [] then [] else [Start(ElemReb, []), Text(rs[0].String()), End(ElemReb)] + RebEvents(rs[1..])
  }

  /** The attributes of a `gloss` start tag carrying the language `lang`. */
  function LangAttributes(lang: Option<string>): seq<Attribute>
  {
    if lang.Some? then [Attribute(AttrGlossLang, lang)] else []
  }

  /** `<gloss xml:lang="…">text</gloss>` for each gloss, in order. */
  function GlossEvents(gs: seq<Gloss>): seq<Event>
  {
    if gs == [] then []
    else [Start(ElemGloss, LangAttributes(gs[0].Lang())), Text(gs[0].Text()), End(ElemGloss)] + GlossEvents(gs[1..])
  }

  /** One `k_ele` per written form. */
  function KanjiElements(ks: seq<Kanji>): seq<Event>
  {
    if ks == [] then [] else [Start(ElemKanji, [])] + KebEvents([ks[0]]) + [End(ElemKanji)] + KanjiElements(ks[1..])
  }

  /** One `r_ele` per reading. */
  function ReadingElements(rs: seq<Reading>): seq<Event>
  {
    if rs == [] then [] else [Start(ElemReading, [])] + RebEvents([rs[0]]) + [End(ElemReading)] + ReadingElements(rs[1..])
  }

  /** One `sense` element per sense. */
  function SenseElements(ss: seq<Sense>): seq<Event>
  {
    if ss == [] then []
    else [Start(ElemSense, [])] + GlossEvents(ss[0].Glosses()) + [End(ElemSense)] + SenseElements(ss[1..])
  }

  /** One `entry` element. */
  function EntryEvents(a: Assembled): seq<Event>
  {
    [Start(ElemEntry, [])] + KanjiElements(a.kanji) + ReadingElements(a.readings) + SenseElements(a.senses) + [End(ElemEntry)]
  }

  /** A document of entries. */
  function DocumentEvents(entries: seq<Assembled>): seq<Event>
  {
    if entries == [] then [] else EntryEvents(entries[0]) + DocumentEvents(entries[1..])
  }

  /** The language attribute written for a gloss is the one read back. */
  lemma GlossLangOfLangAttributes(lang: Option<string>)
    ensures GlossLang(LangAttributes(lang)) == lang
  {
    if lang.Some? {
      assert IsLangValue(LangAttributes(lang)[0]);
    }
  }

  /** Appending the head of `s` and then its tail appends `s`. */
  lemma AppendHeadTail<T>(a: seq<T>, s: seq<T>)
    requires s != []
    ensures a + [s[0]] + s[1..] == a + s
  {
    assert a + [s[0]] + s[1..] == a + ([s[0]] + s[1..]);
    assert [s[0]] + s[1..] == s;
  }

  /** One `keb` element read by the `k_ele` loop. */
  lemma KanjiElementKeb(k: Kanji, kanji: seq<Kanji>, tail: seq<Event>)
    ensures KanjiElement([Start(ElemKeb, []), Text(k.String()), End(ElemKeb)] + tail, kanji)
            == KanjiElement(tail, kanji + [k])
  {
    var input := [Start(ElemKeb, []), Text(k.String()), End(ElemKeb)] + tail;
    assert Rest(input) == [Text(k.String()), End(ElemKeb)] + tail;
    ReadTextOfElement(k.String(), ElemKeb, tail);
  }

  /** One `reb` element read by the `r_ele` loop. */
  lemma ReadingElementReb(r: Reading, readings: seq<Reading>, tail: seq<Event>)
    ensures ReadingElement([Start(ElemReb, []), Text(r.String()), End(ElemReb)] + tail, readings)
            == ReadingElement(tail, readings + [r])
  {
    var input := [Start(ElemReb, []), Text(r.String()), End(ElemReb)] + tail;
    assert Rest(input) == [Text(r.String()), End(ElemReb)] + tail;
    ReadTextOfElement(r.String(), ElemReb, tail);
  }

  /** One `gloss` element read by the `sense` loop. */
  lemma SenseElementGloss(g: Gloss, sense: Sense, tail: seq<Event>)
    ensures SenseElement([Start(ElemGloss, LangAttributes(g.Lang())), Text(g.Text()), End(ElemGloss)] + tail, sense)
            == SenseElement(tail, sense.AddGloss(g))
  {
    var input := [Start(ElemGloss, LangAttributes(g.Lang())), Text(g.Text()), End(ElemGloss)] + tail;
    assert Rest(input) == [Text(g.Text()), End(ElemGloss)] + tail;
    ReadTextOfElement(g.Text(), ElemGloss, tail);
    GlossLangOfLangAttributes(g.Lang());
    assert MakeGloss(g.Text(), g.Lang()) == g;
  }

  /** The `k_ele` loop appends the written forms of its `keb` elements, one
      each, in document order, and stops right after `</k_ele>`. */
  lemma {:induction false} KanjiElementReadsKebs(ks: seq<Kanji>, kanji: seq<Kanji>, more: seq<Event>)
    ensures KanjiElement(KebEvents(ks) + [End(ElemKanji)] + more, kanji) == Step(kanji + ks, more, false)
    decreases |ks|
  {
    if ks == [] {
      assert KebEvents(ks) + [End(ElemKanji)] + more == [End(ElemKanji)] + more;
      assert Rest([End(ElemKanji)] + more) == more;
      assert kanji + ks == kanji;
    } else {
      var tail := KebEvents(ks[1..]) + [End(ElemKanji)] + more;
      assert KebEvents(ks) + [End(ElemKanji)] + more
             == [Start(ElemKeb, []), Text(ks[0].String()), End(ElemKeb)] + tail;
      KanjiElementKeb(ks[0], kanji, tail);
      KanjiElementReadsKebs(ks[1..], kanji + [ks[0]], more);
      AppendHeadTail(kanji, ks);
    }
  }

  /** The `r_ele` loop appends the readings of its `reb` elements, one
      each, in document order, and stops right after `</r_ele>`. */
  lemma {:induction false} ReadingElementReadsRebs(rs: seq<Reading>, readings: seq<Reading>, more: seq<Event>)
    ensures ReadingElement(RebEvents(rs) + [End(ElemReading)] + more, readings) == Step(readings + rs, more, false)
    decreases |rs|
  {
    if rs == [] {
      assert RebEvents(rs) + [End(ElemReading)] + more == [End(ElemReading)] + more;
      assert Rest([End(ElemReading)] + more) == more;
      assert readings + rs == readings;
    } else {
      var tail := RebEvents(rs[1..]) + [End(ElemReading)] + more;
      assert RebEvents(rs) + [End(ElemReading)] + more
             == [Start(ElemReb, []), Text(rs[0].String()), End(ElemReb)] + tail;
      ReadingElementReb(rs[0], readings, tail);
      ReadingElementReadsRebs(rs[1..], readings + [rs[0]], more);
      AppendHeadTail(readings, rs);
    }
  }

  /** The `sense` loop adds one gloss per `gloss` element, with its text
      and its `xml:lang` value, in document order, and stops right after
      `</sense>`. */
  lemma {:induction false} SenseElementReadsGlosses(gs: seq<Gloss>, sense: Sense, more: seq<Event>)
    ensures SenseElement(GlossEvents(gs) + [End(ElemSense)] + more, sense) == Step(Sense(sense.Glosses() + gs), more, false)
    decreases |gs|
  {
    if gs == [] {
      assert GlossEvents(gs) + [End(ElemSense)] + more == [End(ElemSense)] + more;
      assert Rest([End(ElemSense)] + more) == more;
      assert sense.Glosses() + gs == sense.Glosses();
    } else {
      var tail := GlossEvents(gs[1..]) + [End(ElemSense)] + more;
      assert GlossEvents(gs) + [End(ElemSense)] + more
             == [Start(ElemGloss, LangAttributes(gs[0].Lang())), Text(gs[0].Text()), End(ElemGloss)] + tail;
      SenseElementGloss(gs[0], sense, tail);
      SenseElementReadsGlosses(gs[1..], sense.AddGloss(gs[0]), more);
      AppendHeadTail(sense.Glosses(), gs);
    }
  }

  /** The child element names of an entry differ from `entry` and from
      one another. */
  lemma ChildNamesDiffer()
    ensures ElemKanji != ElemEntry && ElemReading != ElemEntry && ElemSense != ElemEntry
    ensures ElemReading != ElemKanji && ElemSense != ElemKanji && ElemSense != ElemReading
  {
    assert ElemEntry[0] == 'e' && ElemKanji[0] == 'k' && ElemReading[0] == 'r' && ElemSense[0] == 's';
  }

  /** Inside an entry, one `k_ele` element adds its written form. */
  lemma ParseKanjiElement(k: Kanji, tail: seq<Event>, current: Assembled, closed: seq<Assembled>)
    ensures ParseFrom([Start(ElemKanji, [])] + (KebEvents([k]) + [End(ElemKanji)] + tail), true, current, closed)
            == ParseFrom(tail, true, current.(kanji := current.kanji + [k]), closed)
  {
    var body := KebEvents([k]) + [End(ElemKanji)] + tail;
    assert Rest([Start(ElemKanji, [])] + body) == body;
    ChildNamesDiffer();
    KanjiElementReadsKebs([k], current.kanji, tail);
    assert EntryChild(ElemKanji, body, current) == Step(current.(kanji := current.kanji + [k]), tail, false);
  }

  /** Inside an entry, one `r_ele` element adds its reading. */
  lemma ParseReadingElement(r: Reading, tail: seq<Event>, current: Assembled, closed: seq<Assembled>)
    ensures ParseFrom([Start(ElemReading, [])] + (RebEvents([r]) + [End(ElemReading)] + tail), true, current, closed)
            == ParseFrom(tail, true, current.(readings := current.readings + [r]), closed)
  {
    var body := RebEvents([r]) + [End(ElemReading)] + tail;
    assert Rest([Start(ElemReading, [])] + body) == body;
    ChildNamesDiffer();
    ReadingElementReadsRebs([r], current.readings, tail);
    assert EntryChild(ElemReading, body, current) == Step(current.(readings := current.readings + [r]), tail, false);
  }

  /** Inside an entry, one `sense` element adds one sense holding its
      glosses. */
  lemma ParseSenseElement(sense: Sense, tail: seq<Event>, current: Assembled, closed: seq<Assembled>)
    ensures ParseFrom([Start(ElemSense, [])] + (GlossEvents(sense.Glosses()) + [End(ElemSense)] + tail), true, current, closed)
            == ParseFrom(tail, true, current.(senses := current.senses + [sense]), closed)
  {
    var body := GlossEvents(sense.Glosses()) + [End(ElemSense)] + tail;
    assert Rest([Start(ElemSense, [])] + body) == body;
    ChildNamesDiffer();
    SenseElementReadsGlosses(sense.Glosses(), Sense.New(), tail);
    assert Sense(Sense.New().Glosses() + sense.Glosses()) == sense;
    assert EntryChild(ElemSense, body, current) == Step(current.(senses := current.senses + [sense]), tail, false);
  }

  /** Inside an entry, the `k_ele` elements add their written forms to the
      entry's kanji, in order. */
  lemma {:induction false} ParseKanjiElements(ks: seq<Kanji>, rest: seq<Event>, current: Assembled, closed: seq<Assembled>)
    ensures ParseFrom(KanjiElements(ks) + rest, true, current, closed)
            == ParseFrom(rest, true, current.(kanji := current.kanji + ks), closed)
    decreases |ks|
  {
    if ks == [] {
      assert KanjiElements(ks) + rest == rest;
      assert current.kanji + ks == current.kanji;
    } else {
      var tail := KanjiElements(ks[1..]) + rest;
      assert KanjiElements(ks) + rest == [Start(ElemKanji, [])] + (KebEvents([ks[0]]) + [End(ElemKanji)] + tail);
      ParseKanjiElement(ks[0], tail, current, closed);
      ParseKanjiElements(ks[1..], rest, current.(kanji := current.kanji + [ks[0]]), closed);
      AppendHeadTail(current.kanji, ks);
    }
  }

  /** Inside an entry, the `r_ele` elements add their readings to the
      entry's readings, in order. */
  lemma {:induction false} ParseReadingElements(rs: seq<Reading>, rest: seq<Event>, current: Assembled, closed: seq<Assembled>)
    ensures ParseFrom(ReadingElements(rs) + rest, true, current, closed)
            == ParseFrom(rest, true, current.(readings := current.readings + rs), closed)
    decreases |rs|
  {
    if rs == [] {
      assert ReadingElements(rs) + rest == rest;
      assert current.readings + rs == current.readings;
    } else {
      var tail := ReadingElements(rs[1..]) + rest;
      assert ReadingElements(rs) + rest == [Start(ElemReading, [])] + (RebEvents([rs[0]]) + [End(ElemReading)] + tail);
      ParseReadingElement(rs[0], tail, current, closed);
      ParseReadingElements(rs[1..], rest, current.(readings := current.readings + [rs[0]]), closed);
      AppendHeadTail(current.readings, rs);
    }
  }

  /** Inside an entry, each `sense` element adds one sense holding its
      glosses, in order. */
  lemma {:induction false} ParseSenseElements(ss: seq<Sense>, rest: seq<Event>, current: Assembled, closed: seq<Assembled>)
    ensures ParseFrom(SenseElements(ss) + rest, true, current, closed)
            == ParseFrom(rest, true, current.(senses := current.senses + ss), closed)
    decreases |ss|
  {
    if ss == [] {
      assert SenseElements(ss) + rest == rest;
      assert current.senses + ss == current.senses;
    } else {
      var tail := SenseElements(ss[1..]) + rest;
      assert SenseElements(ss) + rest == [Start(ElemSense, [])] + (GlossEvents(ss[0].Glosses()) + [End(ElemSense)] + tail);
      ParseSenseElement(ss[0], tail, current, closed);
      ParseSenseElements(ss[1..], rest, current.(senses := current.senses + [ss[0]]), closed);
      AppendHeadTail(current.senses, ss);
    }
  }

  /** Regrouping an `entry` element followed by more events so that it is
      read from the front. */
  lemma Regroup<T>(p: seq<T>, q: seq<T>, r: seq<T>, t: seq<T>, u: seq<T>, more: seq<T>)
    ensures p + q + r + t + u + more == p + (q + (r + (t + (u + more))))
  {
  }

  /** An `entry` element is closed as exactly the entry it was written
      from, whatever state the loop was in outside an entry. */
  lemma ParseEntry(a: Assembled, more: seq<Event>, current: Assembled, closed: seq<Assembled>)
    ensures ParseFrom(EntryEvents(a) + more, false, current, closed) == ParseFrom(more, false, Fresh, closed + [a])
  {
    var afterSenses := [End(ElemEntry)] + more;
    var afterReadings := SenseElements(a.senses) + afterSenses;
    var afterKanji := ReadingElements(a.readings) + afterReadings;
    var input := EntryEvents(a) + more;
    Regroup([Start(ElemEntry, [])], KanjiElements(a.kanji), ReadingElements(a.readings), SenseElements(a.senses),
            [End(ElemEntry)], more);
    assert input == [Start(ElemEntry, [])] + (KanjiElements(a.kanji) + afterKanji);
    assert ParseFrom(input, false, current, closed) == ParseFrom(KanjiElements(a.kanji) + afterKanji, true, Fresh, closed);
    var withKanji := Assembled(a.kanji, [], []);
    var withReadings := Assembled(a.kanji, a.readings, []);
    assert [] + a.kanji == a.kanji && [] + a.readings == a.readings && [] + a.senses == a.senses;
    ParseKanjiElements(a.kanji, afterKanji, Fresh, closed);
    ParseReadingElements(a.readings, afterReadings, withKanji, closed);
    ParseSenseElements(a.senses, afterSenses, withReadings, closed);
    assert Rest(afterSenses) == more;
  }

  /** A document written from a list of entries is read back as exactly
      those entries, in order, with none left open and no error. */
  lemma {:induction false} ParseDocumentEvents(entries: seq<Assembled>)
    ensures Parse(DocumentEvents(entries)) == Document(entries, [], false)
  {
    ParseDocumentFrom(entries, []);
    assert [] + entries == entries;
  }

  lemma {:induction false} ParseDocumentFrom(entries: seq<Assembled>, closed: seq<Assembled>)
    ensures ParseFrom(DocumentEvents(entries), false, Fresh, closed) == Document(closed + entries, [], false)
    decreases |entries|
  {
    if entries == [] {
      assert closed + entries == closed;
    } else {
      ParseEntry(entries[0], DocumentEvents(entries[1..]), Fresh, closed);
      ParseDocumentFrom(entries[1..], closed + [entries[0]]);
      AppendHeadTail(closed, entries);
    }
  }

  /** Scanning a well-formed document finishes with the number of its
      entries, and emits exactly what the lookup of those entries, in
      document order, emits. */
  lemma ScanDocumentEvents(entries: seq<Assembled>, requested: seq<JMDictEntryId>)
    ensures Scan(DocumentEvents(entries), requested)
            == ScanResult(MatchAll(entries, requested).emitted, Finished(|entries|), MatchAll(entries, requested).remaining)
  {
    ParseDocumentEvents(entries);
  }
}
