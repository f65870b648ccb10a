/** Reference semantics of the entry assembly in jmdict/src/lib.rs
    (`with_jmdict_entries`, lines 71-212), without the id lookup: which
    entries the event stream closes, with which kanji, readings and senses,
    and whether a reader error aborts the scan. Each function is one loop of
    the source, consuming events from the front of its input. */
module JMDictAssembly {
  import opened Wrappers
  import opened XmlEvents
  import opened Entry

  const ElemEntry: string := "entry"
  const ElemKanji: string := "k_ele"
  const ElemKeb: string := "keb"
  const ElemReading: string := "r_ele"
  const ElemReb: string := "reb"
  const ElemSense: string := "sense"
  const ElemGloss: string := "gloss"
  const AttrGlossLang: string := "xml:lang"

  /** The three per-entry vectors `entry_kanji`, `entry_reading`, `entry_sense`. */
  datatype Assembled = Assembled(kanji: seq<Kanji>, readings: seq<Reading>, senses: seq<Sense>)

  /** The vectors as they are at `<entry>` and after `</entry>`. */
  const Fresh: Assembled := Assembled([], [], [])

  /** What a scan of a document assembles: the entries closed by `</entry>`
      in document order, the kanji read so far of an entry still open when
      the scan stopped (empty if none is open), and whether a reader error
      aborted the scan. */
  datatype Document = Document(entries: seq<Assembled>, open: seq<Kanji>, aborted: bool)

  /** The result of one inner loop: what it built, what is left to read, and
      whether it stopped on a reader error. */
  datatype Step<T> = Step(value: T, rest: seq<Event>, aborted: bool)

  predicate IsLangValue(a: Attribute)
  {
    a.key == AttrGlossLang && a.value.Some?
  }

  /** The attribute chain of lines 154-159: the value of the first
      `xml:lang` attribute whose value decodes, if there is one. */
  function GlossLang(attributes: seq<Attribute>): (lang: Option<string>)
    ensures lang.None? ==> forall i :: 0 <= i < |attributes| ==> !IsLangValue(attributes[i])
    ensures lang.Some? ==>
              exists i :: 0 <= i < |attributes| && attributes[i] == Attribute(AttrGlossLang, lang)
                                                && forall j :: 0 <= j < i ==> !IsLangValue(attributes[j])
  {
    if attributes == [] then None
    else if IsLangValue(attributes[0]) then attributes[0].value
    else
      var lang := GlossLang(attributes[1..]);
      assert lang.Some? ==> exists i :: 1 <= i < |attributes| && attributes[i] == Attribute(AttrGlossLang, lang)
                                                              && forall j :: 0 <= j < i ==> !IsLangValue(attributes[j]) by {
        if lang.Some? {
          var i :| 0 <= i < |attributes[1..]| && attributes[1..][i] == Attribute(AttrGlossLang, lang)
                   && forall j :: 0 <= j < i ==> !IsLangValue(attributes[1..][j]);
          assert attributes[i + 1] == Attribute(AttrGlossLang, lang);
          forall j | 0 <= j < i + 1 ensures !IsLangValue(attributes[j]) {
            if j > 0 { assert attributes[j] == attributes[1..][j - 1]; }
          }
        }
      }
      lang
  }

  /** The gloss built at lines 163-168. */
  function MakeGloss(text: string, lang: Option<string>): (g: Gloss)
    ensures g.Text() == text && g.Lang() == lang
  {
    if lang.Some? then Gloss.NewWithLang(text, lang.value) else Gloss.New(text)
  }

  /** The `'kanji_inner` loop (lines 87-114): every `keb` text read inside
      `k_ele` is appended, in order; it stops at `</k_ele>` or at the end of
      input, and aborts on a reader error. */
  function KanjiElement(input: seq<Event>, kanji: seq<Kanji>): (r: Step<seq<Kanji>>)
    ensures IsSuffix(r.rest, input)
    ensures kanji <= r.value
    decreases |input|
  {
    match Next(input)
    case Start(name, _) =>
      if name == ElemKeb then
        var kanjiText := ReadText(Rest(input), ElemKeb);
        SuffixTransitive(kanjiText.rest, Rest(input), input);
        var r := KanjiElement(kanjiText.rest,
                              if kanjiText.text.Some? then kanji + [Kanji(kanjiText.text.value)] else kanji);
        SuffixTransitive(r.rest, kanjiText.rest, input);
        r
      else
        var r := KanjiElement(Rest(input), kanji);
        SuffixTransitive(r.rest, Rest(input), input);
        r
    case Eof => Step(kanji, Rest(input), false)
    case End(name) =>
      if name == ElemKanji then Step(kanji, Rest(input), false)
      else
        var r := KanjiElement(Rest(input), kanji);
        SuffixTransitive(r.rest, Rest(input), input);
        r
    case Error => Step(kanji, Rest(input), true)
    case _ =>
      var r := KanjiElement(Rest(input), kanji);
      SuffixTransitive(r.rest, Rest(input), input);
      r
  }

  /** The `'reading_inner` loop (lines 119-143), the same for `reb` in `r_ele`. */
  function ReadingElement(input: seq<Event>, readings: seq<Reading>): (r: Step<seq<Reading>>)
    ensures IsSuffix(r.rest, input)
    ensures readings <= r.value
    decreases |input|
  {
    match Next(input)
    case Start(name, _) =>
      if name == ElemReb then
        var readingText := ReadText(Rest(input), ElemReb);
        SuffixTransitive(readingText.rest, Rest(input), input);
        var r := ReadingElement(readingText.rest,
                                if readingText.text.Some? then readings + [Reading(readingText.text.value)] else readings);
        SuffixTransitive(r.rest, readingText.rest, input);
        r
      else
        var r := ReadingElement(Rest(input), readings);
        SuffixTransitive(r.rest, Rest(input), input);
        r
    case Eof => Step(readings, Rest(input), false)
    case End(name) =>
      if name == ElemReading then Step(readings, Rest(input), false)
      else
        var r := ReadingElement(Rest(input), readings);
        SuffixTransitive(r.rest, Rest(input), input);
        r
    case Error => Step(readings, Rest(input), true)
    case _ =>
      var r := ReadingElement(Rest(input), readings);
      SuffixTransitive(r.rest, Rest(input), input);
      r
  }

  /** The `'sense_inner` loop (lines 150-183): every `gloss` read inside
      `sense` becomes one gloss of the sense, in order, tagged with its
      `xml:lang` value. */
  function SenseElement(input: seq<Event>, sense: Sense): (r: Step<Sense>)
    ensures IsSuffix(r.rest, input)
    ensures sense.Glosses() <= r.value.Glosses()
    decreases |input|
  {
    match Next(input)
    case Start(name, attributes) =>
      if name == ElemGloss then
        var langAttribute := GlossLang(attributes);
        var glossText := ReadText(Rest(input), ElemGloss);
        SuffixTransitive(glossText.rest, Rest(input), input);
        var r := SenseElement(glossText.rest,
                              if glossText.text.Some? then sense.AddGloss(MakeGloss(glossText.text.value, langAttribute))
                              else sense);
        SuffixTransitive(r.rest, glossText.rest, input);
        r
      else
        var r := SenseElement(Rest(input), sense);
        SuffixTransitive(r.rest, Rest(input), input);
        r
    case End(name) =>
      if name == ElemSense then Step(sense, Rest(input), false)
      else
        var r := SenseElement(Rest(input), sense);
        SuffixTransitive(r.rest, Rest(input), input);
        r
    case Eof => Step(sense, Rest(input), false)
    case Error => Step(sense, Rest(input), true)
    case _ =>
      var r := SenseElement(Rest(input), sense);
      SuffixTransitive(r.rest, Rest(input), input);
      r
  }

  /** A start tag met inside an entry (lines 83-187): `k_ele`, `r_ele` and
      `sense` run their inner loop and add to the entry's vectors; any other
      element is ignored. On a reader error the vectors are those of the
      moment of the error. */
  function EntryChild(name: string, input: seq<Event>, current: Assembled): (r: Step<Assembled>)
    ensures IsSuffix(r.rest, input)
    ensures current.kanji <= r.value.kanji
  {
    if name == ElemKanji then
      var k := KanjiElement(input, current.kanji);
      Step(current.(kanji := k.value), k.rest, k.aborted)
    else if name == ElemReading then
      var k := ReadingElement(input, current.readings);
      Step(current.(readings := k.value), k.rest, k.aborted)
    else if name == ElemSense then
      var k := SenseElement(input, Sense.New());
      Step(if k.aborted then current else current.(senses := current.senses + [k.value]), k.rest, k.aborted)
    else
      Step(current, input, false)
  }

  /** Each child element adds to one list of the entry only: `k_ele` to
      the kanji, `r_ele` to the readings, and `sense` exactly one sense,
      even one without glosses, unless the reader fails. Any other element
      changes nothing and reads nothing. */
  lemma EntryChildUpdatesOneList(name: string, input: seq<Event>, current: Assembled)
    ensures var r := EntryChild(name, input, current);
            && (name == ElemKanji ==>
                  current.kanji <= r.value.kanji && r.value.readings == current.readings && r.value.senses == current.senses)
            && (name == ElemReading ==>
                  r.value.kanji == current.kanji && current.readings <= r.value.readings && r.value.senses == current.senses)
            && (name == ElemSense ==> r.value.kanji == current.kanji && r.value.readings == current.readings)
            && (name == ElemSense && !r.aborted ==>
                  |r.value.senses| == |current.senses| + 1 && current.senses <= r.value.senses)
            && (name != ElemKanji && name != ElemReading && name != ElemSense ==> r == Step(current, input, false))
  {
  }

  /** The outer loop (lines 71-212) from a given state: whether an entry is
      being read (`reading_entry`), the entry's vectors so far, and the
      entries closed so far. Only `Eof` ends it; a reader error aborts. */
  function ParseFrom(input: seq<Event>, inEntry: bool, current: Assembled, closed: seq<Assembled>): (d: Document)
    ensures closed <= d.entries
    decreases |input|
  {
    match Next(input)
    case Start(name, _) =>
      if !inEntry && name == ElemEntry then
        ParseFrom(Rest(input), true, Fresh, closed)
      else if inEntry then
        var r := EntryChild(name, Rest(input), current);
        if r.aborted then Document(closed, r.value.kanji, true)
        else ParseFrom(r.rest, true, r.value, closed)
      else
        ParseFrom(Rest(input), inEntry, current, closed)
    case End(name) =>
      if inEntry && name == ElemEntry then
        ParseFrom(Rest(input), false, Fresh, closed + [current])
      else
        ParseFrom(Rest(input), inEntry, current, closed)
    case Eof => Document(closed, if inEntry then current.kanji else [], false)
    case Error => Document(closed, if inEntry then current.kanji else [], true)
    case _ =>
      // text between elements, the document type declaration (whose
      // keywords lines 201-203 read and discard) and every other event
      ParseFrom(Rest(input), inEntry, current, closed)
  }

  /** A whole document, from the state set up at lines 61-70. Every entry
      it reports was closed by an `</entry>` tag of its own. */
  function Parse(events: seq<Event>): (d: Document)
    ensures |d.entries| <= multiset(events)[End(ElemEntry)]
  {
    EntryCountBound(events, false, Fresh, []);
    ParseFrom(events, false, Fresh, [])
  }

  // ---------------------------------------------------------------------
  // Reader errors: only an `Error` event aborts the scan

  lemma AbsentFromSuffix(s: seq<Event>, t: seq<Event>, x: Event)
    requires IsSuffix(s, t) && x !in t
    ensures x !in s
  {
    SuffixMultiset(s, t);
    assert multiset(t)[x] == 0;
  }

  lemma {:induction false} KanjiElementWithoutError(input: seq<Event>, kanji: seq<Kanji>)
    requires Error !in input
    ensures !KanjiElement(input, kanji).aborted
    decreases |input|
  {
    if input != [] {
      AbsentFromSuffix(Rest(input), input, Error);
      match Next(input)
      case Start(name, _) =>
        if name == ElemKeb {
          var kanjiText := ReadText(Rest(input), ElemKeb);
          AbsentFromSuffix(kanjiText.rest, input, Error);
          KanjiElementWithoutError(kanjiText.rest,
                                   if kanjiText.text.Some? then kanji + [Kanji(kanjiText.text.value)] else kanji);
        } else {
          KanjiElementWithoutError(Rest(input), kanji);
        }
      case End(name) =>
        if name != ElemKanji {
          KanjiElementWithoutError(Rest(input), kanji);
        }
      case Eof =>
      case Text(_) => KanjiElementWithoutError(Rest(input), kanji);
      case DocType(_) => KanjiElementWithoutError(Rest(input), kanji);
      case Other => KanjiElementWithoutError(Rest(input), kanji);
    }
  }

  lemma {:induction false} ReadingElementWithoutError(input: seq<Event>, readings: seq<Reading>)
    requires Error !in input
    ensures !ReadingElement(input, readings).aborted
    decreases |input|
  {
    if input != [] {
      AbsentFromSuffix(Rest(input), input, Error);
      match Next(input)
      case Start(name, _) =>
        if name == ElemReb {
          var readingText := ReadText(Rest(input), ElemReb);
          AbsentFromSuffix(readingText.rest, input, Error);
          ReadingElementWithoutError(readingText.rest,
                                     if readingText.text.Some? then readings + [Reading(readingText.text.value)] else readings);
        } else {
          ReadingElementWithoutError(Rest(input), readings);
        }
      case End(name) =>
        if name != ElemReading {
          ReadingElementWithoutError(Rest(input), readings);
        }
      case Eof =>
      case Text(_) => ReadingElementWithoutError(Rest(input), readings);
      case DocType(_) => ReadingElementWithoutError(Rest(input), readings);
      case Other => ReadingElementWithoutError(Rest(input), readings);
    }
  }

  lemma {:induction false} SenseElementWithoutError(input: seq<Event>, sense: Sense)
    requires Error !in input
    ensures !SenseElement(input, sense).aborted
    decreases |input|
  {
    if input != [] {
      AbsentFromSuffix(Rest(input), input, Error);
      match Next(input)
      case Start(name, attributes) =>
        if name == ElemGloss {
          var glossText := ReadText(Rest(input), ElemGloss);
          AbsentFromSuffix(glossText.rest, input, Error);
          SenseElementWithoutError(glossText.rest,
                                   if glossText.text.Some? then sense.AddGloss(MakeGloss(glossText.text.value, GlossLang(attributes)))
                                   else sense);
        } else {
          SenseElementWithoutError(Rest(input), sense);
        }
      case End(name) =>
        if name != ElemSense {
          SenseElementWithoutError(Rest(input), sense);
        }
      case Eof =>
      case Text(_) => SenseElementWithoutError(Rest(input), sense);
      case DocType(_) => SenseElementWithoutError(Rest(input), sense);
      case Other => SenseElementWithoutError(Rest(input), sense);
    }
  }

  lemma EntryChildWithoutError(name: string, input: seq<Event>, current: Assembled)
    requires Error !in input
    ensures !EntryChild(name, input, current).aborted
  {
    KanjiElementWithoutError(input, current.kanji);
    ReadingElementWithoutError(input, current.readings);
    SenseElementWithoutError(input, Sense.New());
  }

  /** Every abort comes from a reader error: a document in which the reader
      reports none is scanned to its end. */
  lemma {:induction false} ParseFromWithoutError(input: seq<Event>, inEntry: bool, current: Assembled, closed: seq<Assembled>)
    requires Error !in input
    ensures !ParseFrom(input, inEntry, current, closed).aborted
    decreases |input|
  {
    if input != [] {
      AbsentFromSuffix(Rest(input), input, Error);
      match Next(input)
      case Start(name, _) =>
        if !inEntry && name == ElemEntry {
          ParseFromWithoutError(Rest(input), true, Fresh, closed);
        } else if inEntry {
          var r := EntryChild(name, Rest(input), current);
          EntryChildWithoutError(name, Rest(input), current);
          AbsentFromSuffix(r.rest, input, Error);
          ParseFromWithoutError(r.rest, true, r.value, closed);
        } else {
          ParseFromWithoutError(Rest(input), inEntry, current, closed);
        }
      case End(name) =>
        if inEntry && name == ElemEntry {
          ParseFromWithoutError(Rest(input), false, Fresh, closed + [current]);
        } else {
          ParseFromWithoutError(Rest(input), inEntry, current, closed);
        }
      case Eof =>
      case Text(_) => ParseFromWithoutError(Rest(input), inEntry, current, closed);
      case DocType(_) => ParseFromWithoutError(Rest(input), inEntry, current, closed);
      case Other => ParseFromWithoutError(Rest(input), inEntry, current, closed);
    }
  }

  // ---------------------------------------------------------------------
  // Nothing after the point where a loop stops is ever read

  /** `k_ele` reading stops at its closing tag, at the end of input and at
      a reader error, where it aborts. */
  lemma KanjiElementStops(input: seq<Event>, kanji: seq<Kanji>)
    requires Next(input) == Eof || Next(input).Error? || Next(input) == End(ElemKanji)
    ensures KanjiElement(input, kanji) == Step(kanji, Rest(input), Next(input).Error?)
  {
  }

  lemma ReadingElementStops(input: seq<Event>, readings: seq<Reading>)
    requires Next(input) == Eof || Next(input).Error? || Next(input) == End(ElemReading)
    ensures ReadingElement(input, readings) == Step(readings, Rest(input), Next(input).Error?)
  {
  }

  lemma SenseElementStops(input: seq<Event>, sense: Sense)
    requires Next(input) == Eof || Next(input).Error? || Next(input) == End(ElemSense)
    ensures SenseElement(input, sense) == Step(sense, Rest(input), Next(input).Error?)
  {
  }

  /** A `keb` start tag inside `k_ele`: its text, when there is one, is
      appended and reading goes on after its end tag. */
  lemma KanjiElementAtKeb(input: seq<Event>, kanji: seq<Kanji>)
    requires Next(input).Start? && Next(input).name == ElemKeb
    ensures var t := ReadText(Rest(input), ElemKeb);
            KanjiElement(input, kanji) == KanjiElement(t.rest, if t.text.Some? then kanji + [Kanji(t.text.value)] else kanji)
  {
  }

  lemma ReadingElementAtReb(input: seq<Event>, readings: seq<Reading>)
    requires Next(input).Start? && Next(input).name == ElemReb
    ensures var t := ReadText(Rest(input), ElemReb);
            ReadingElement(input, readings)
            == ReadingElement(t.rest, if t.text.Some? then readings + [Reading(t.text.value)] else readings)
  {
  }

  lemma SenseElementAtGloss(input: seq<Event>, sense: Sense)
    requires Next(input).Start? && Next(input).name == ElemGloss
    ensures var t := ReadText(Rest(input), ElemGloss);
            SenseElement(input, sense)
            == SenseElement(t.rest, if t.text.Some? then sense.AddGloss(MakeGloss(t.text.value, GlossLang(Next(input).attributes)))
                                    else sense)
  {
  }

  /** Inside `k_ele`, an event that is not a `keb` start tag, the closing
      tag, the end of input or a reader error is skipped. */
  lemma KanjiElementSkips(input: seq<Event>, kanji: seq<Kanji>)
    requires Next(input) != Eof && !Next(input).Error? && Next(input) != End(ElemKanji)
    requires !(Next(input).Start? && Next(input).name == ElemKeb)
    ensures KanjiElement(input, kanji) == KanjiElement(Rest(input), kanji)
  {
  }

  lemma ReadingElementSkips(input: seq<Event>, readings: seq<Reading>)
    requires Next(input) != Eof && !Next(input).Error? && Next(input) != End(ElemReading)
    requires !(Next(input).Start? && Next(input).name == ElemReb)
    ensures ReadingElement(input, readings) == ReadingElement(Rest(input), readings)
  {
  }

  lemma SenseElementSkips(input: seq<Event>, sense: Sense)
    requires Next(input) != Eof && !Next(input).Error? && Next(input) != End(ElemSense)
    requires !(Next(input).Start? && Next(input).name == ElemGloss)
    ensures SenseElement(input, sense) == SenseElement(Rest(input), sense)
  {
  }

  /** The step of `KanjiElementExtends` at a `keb` start tag. */
  lemma {:induction false} KanjiElementExtendsAtKeb(input: seq<Event>, kanji: seq<Kanji>, more: seq<Event>)
    requires Next(input).Start? && Next(input).name == ElemKeb
    requires KanjiElement(input, kanji).rest != [] || KanjiElement(input, kanji).aborted
    ensures KanjiElement(input + more, kanji)
          == Step(KanjiElement(input, kanji).value, KanjiElement(input, kanji).rest + more, KanjiElement(input, kanji).aborted)
    decreases |input|, 0
  {
    NextRestExtend(input, more);
    var kanjiText := ReadText(Rest(input), ElemKeb);
    var kanji' := if kanjiText.text.Some? then kanji + [Kanji(kanjiText.text.value)] else kanji;
    KanjiElementAtKeb(input, kanji);
    KanjiElementAtKeb(input + more, kanji);
    assert KanjiElement([], kanji') == Step(kanji', [], false);
    ReadTextExtends(Rest(input), ElemKeb, more);
    KanjiElementExtends(kanjiText.rest, kanji', more);
  }

  lemma {:induction false} KanjiElementExtends(input: seq<Event>, kanji: seq<Kanji>, more: seq<Event>)
    requires KanjiElement(input, kanji).rest != [] || KanjiElement(input, kanji).aborted
    ensures KanjiElement(input + more, kanji)
            == Step(KanjiElement(input, kanji).value, KanjiElement(input, kanji).rest + more, KanjiElement(input, kanji).aborted)
    decreases |input|, 1
  {
    var e := Next(input);
    if e == Eof {
      // stops with nothing left and no error, which the precondition excludes
    } else if e.Error? || e == End(ElemKanji) {
      NextRestExtend(input, more);
      KanjiElementStops(input, kanji);
      KanjiElementStops(input + more, kanji);
    } else if e.Start? && e.name == ElemKeb {
      KanjiElementExtendsAtKeb(input, kanji, more);
    } else {
      NextRestExtend(input, more);
      KanjiElementSkips(input, kanji);
      KanjiElementSkips(input + more, kanji);
      KanjiElementExtends(Rest(input), kanji, more);
    }
  }

  /** The step of `ReadingElementExtends` at a `reb` start tag. */
  lemma {:induction false} ReadingElementExtendsAtReb(input: seq<Event>, readings: seq<Reading>, more: seq<Event>)
    requires Next(input).Start? && Next(input).name == ElemReb
    requires ReadingElement(input, readings).rest != [] || ReadingElement(input, readings).aborted
    ensures ReadingElement(input + more, readings)
          == Step(ReadingElement(input, readings).value, ReadingElement(input, readings).rest + more, ReadingElement(input, readings).aborted)
    decreases |input|, 0
  {
    NextRestExtend(input, more);
    var readingText := ReadText(Rest(input), ElemReb);
    var readings' := if readingText.text.Some? then readings + [Reading(readingText.text.value)] else readings;
    ReadingElementAtReb(input, readings);
    ReadingElementAtReb(input + more, readings);
    assert ReadingElement([], readings') == Step(readings', [], false);
    ReadTextExtends(Rest(input), ElemReb, more);
    ReadingElementExtends(readingText.rest, readings', more);
  }

  lemma {:induction false} ReadingElementExtends(input: seq<Event>, readings: seq<Reading>, more: seq<Event>)
    requires ReadingElement(input, readings).rest != [] || ReadingElement(input, readings).aborted
    ensures ReadingElement(input + more, readings)
            == Step(ReadingElement(input, readings).value, ReadingElement(input, readings).rest + more,
                    ReadingElement(input, readings).aborted)
    decreases |input|, 1
  {
    var e := Next(input);
    if e == Eof {
      // stops with nothing left and no error, which the precondition excludes
    } else if e.Error? || e == End(ElemReading) {
      NextRestExtend(input, more);
      ReadingElementStops(input, readings);
      ReadingElementStops(input + more, readings);
    } else if e.Start? && e.name == ElemReb {
      ReadingElementExtendsAtReb(input, readings, more);
    } else {
      NextRestExtend(input, more);
      ReadingElementSkips(input, readings);
      ReadingElementSkips(input + more, readings);
      ReadingElementExtends(Rest(input), readings, more);
    }
  }

  /** The step of `SenseElementExtends` at a `gloss` start tag. */
  lemma {:induction false} SenseElementExtendsAtGloss(input: seq<Event>, sense: Sense, more: seq<Event>)
    requires Next(input).Start? && Next(input).name == ElemGloss
    requires SenseElement(input, sense).rest != [] || SenseElement(input, sense).aborted
    ensures SenseElement(input + more, sense)
          == Step(SenseElement(input, sense).value, SenseElement(input, sense).rest + more, SenseElement(input, sense).aborted)
    decreases |input|, 0
  {
    NextRestExtend(input, more);
    var glossText := ReadText(Rest(input), ElemGloss);
    var sense' := if glossText.text.Some? then sense.AddGloss(MakeGloss(glossText.text.value, GlossLang(Next(input).attributes)))
                  else sense;
    SenseElementAtGloss(input, sense);
    SenseElementAtGloss(input + more, sense);
    assert SenseElement([], sense') == Step(sense', [], false);
    ReadTextExtends(Rest(input), ElemGloss, more);
    SenseElementExtends(glossText.rest, sense', more);
  }

  lemma {:induction false} SenseElementExtends(input: seq<Event>, sense: Sense, more: seq<Event>)
    requires SenseElement(input, sense).rest != [] || SenseElement(input, sense).aborted
    ensures SenseElement(input + more, sense)
            == Step(SenseElement(input, sense).value, SenseElement(input, sense).rest + more, SenseElement(input, sense).aborted)
    decreases |input|, 1
  {
    var e := Next(input);
    if e == Eof {
      // stops with nothing left and no error, which the precondition excludes
    } else if e.Error? || e == End(ElemSense) {
      NextRestExtend(input, more);
      SenseElementStops(input, sense);
      SenseElementStops(input + more, sense);
    } else if e.Start? && e.name == ElemGloss {
      SenseElementExtendsAtGloss(input, sense, more);
    } else {
      NextRestExtend(input, more);
      SenseElementSkips(input, sense);
      SenseElementSkips(input + more, sense);
      SenseElementExtends(Rest(input), sense, more);
    }
  }

  lemma EntryChildExtends(name: string, input: seq<Event>, current: Assembled, more: seq<Event>)
    requires EntryChild(name, input, current).rest != [] || EntryChild(name, input, current).aborted
    ensures EntryChild(name, input + more, current)
            == Step(EntryChild(name, input, current).value, EntryChild(name, input, current).rest + more,
                    EntryChild(name, input, current).aborted)
  {
    if name == ElemKanji {
      KanjiElementExtends(input, current.kanji, more);
    } else if name == ElemReading {
      ReadingElementExtends(input, current.readings, more);
    } else if name == ElemSense {
      SenseElementExtends(input, Sense.New(), more);
    }
  }

  /** An aborted scan never looked past the reader error: whatever follows
      it in the document cannot change what was assembled. */
  lemma {:induction false} ParseFromAbortIgnoresSuffix(input: seq<Event>, inEntry: bool, current: Assembled,
                                                       closed: seq<Assembled>, more: seq<Event>)
    requires ParseFrom(input, inEntry, current, closed).aborted
    ensures ParseFrom(input + more, inEntry, current, closed) == ParseFrom(input, inEntry, current, closed)
    decreases |input|
  {
    NextRestExtend(input, more);
    match Next(input)
    case Start(name, _) =>
      if !inEntry && name == ElemEntry {
        ParseFromAbortIgnoresSuffix(Rest(input), true, Fresh, closed, more);
      } else if inEntry {
        var r := EntryChild(name, Rest(input), current);
        assert ParseFrom([], true, r.value, closed).aborted == false;
        EntryChildExtends(name, Rest(input), current, more);
        if !r.aborted {
          ParseFromAbortIgnoresSuffix(r.rest, true, r.value, closed, more);
        }
      } else {
        ParseFromAbortIgnoresSuffix(Rest(input), inEntry, current, closed, more);
      }
    case End(name) =>
      if inEntry && name == ElemEntry {
        ParseFromAbortIgnoresSuffix(Rest(input), false, Fresh, closed + [current], more);
      } else {
        ParseFromAbortIgnoresSuffix(Rest(input), inEntry, current, closed, more);
      }
    case Eof =>
    case Error =>
    case Text(_) => ParseFromAbortIgnoresSuffix(Rest(input), inEntry, current, closed, more);
    case DocType(_) => ParseFromAbortIgnoresSuffix(Rest(input), inEntry, current, closed, more);
    case Other => ParseFromAbortIgnoresSuffix(Rest(input), inEntry, current, closed, more);
  }

  // ---------------------------------------------------------------------
  // Nothing after an `Eof` event is read

  /** The `k_ele` loop over an input holding an `Eof` behaves the same
      whatever follows that `Eof`. */
  lemma {:induction false} KanjiElementStopsAtEof(input: seq<Event>, kanji: seq<Kanji>, after: seq<Event>)
    requires Eof in input
    ensures KanjiElement(input, kanji).rest == [] || Eof in KanjiElement(input, kanji).rest
    ensures KanjiElement(input + after, kanji)
            == Step(KanjiElement(input, kanji).value, Continued(KanjiElement(input, kanji).rest, after), KanjiElement(input, kanji).aborted)
    decreases |input|
  {
    if Next(input) == Eof {
      assert (input + after)[0] == input[0];
      KanjiElementStops(input, kanji);
      KanjiElementStops(input + after, kanji);
    } else if Next(input) == Error || Next(input) == End(ElemKanji) {
      NextRestExtend(input, after);
      EofAhead(input);
      KanjiElementStops(input, kanji);
      KanjiElementStops(input + after, kanji);
    } else if Next(input).Start? && Next(input).name == ElemKeb {
      NextRestExtend(input, after);
      EofAhead(input);
      var kanjiText := ReadText(Rest(input), ElemKeb);
      var kanji' := if kanjiText.text.Some? then kanji + [Kanji(kanjiText.text.value)] else kanji;
      ReadTextStopsAtEof(Rest(input), ElemKeb, after);
      KanjiElementAtKeb(input, kanji);
      KanjiElementAtKeb(input + after, kanji);
      if kanjiText.rest != [] {
        KanjiElementStopsAtEof(kanjiText.rest, kanji', after);
      }
    } else {
      NextRestExtend(input, after);
      EofAhead(input);
      KanjiElementSkips(input, kanji);
      KanjiElementSkips(input + after, kanji);
      KanjiElementStopsAtEof(Rest(input), kanji, after);
    }
  }

  /** The same for the `r_ele` loop. */
  lemma {:induction false} ReadingElementStopsAtEof(input: seq<Event>, readings: seq<Reading>, after: seq<Event>)
    requires Eof in input
    ensures ReadingElement(input, readings).rest == [] || Eof in ReadingElement(input, readings).rest
    ensures ReadingElement(input + after, readings)
            == Step(ReadingElement(input, readings).value, Continued(ReadingElement(input, readings).rest, after), ReadingElement(input, readings).aborted)
    decreases |input|
  {
    if Next(input) == Eof {
      assert (input + after)[0] == input[0];
      ReadingElementStops(input, readings);
      ReadingElementStops(input + after, readings);
    } else if Next(input) == Error || Next(input) == End(ElemReading) {
      NextRestExtend(input, after);
      EofAhead(input);
      ReadingElementStops(input, readings);
      ReadingElementStops(input + after, readings);
    } else if Next(input).Start? && Next(input).name == ElemReb {
      NextRestExtend(input, after);
      EofAhead(input);
      var readingText := ReadText(Rest(input), ElemReb);
      var readings' := if readingText.text.Some? then readings + [Reading(readingText.text.value)] else readings;
      ReadTextStopsAtEof(Rest(input), ElemReb, after);
      ReadingElementAtReb(input, readings);
      ReadingElementAtReb(input + after, readings);
      if readingText.rest != [] {
        ReadingElementStopsAtEof(readingText.rest, readings', after);
      }
    } else {
      NextRestExtend(input, after);
      EofAhead(input);
      ReadingElementSkips(input, readings);
      ReadingElementSkips(input + after, readings);
      ReadingElementStopsAtEof(Rest(input), readings, after);
    }
  }

  /** The same for the `sense` loop. */
  lemma {:induction false} SenseElementStopsAtEof(input: seq<Event>, sense: Sense, after: seq<Event>)
    requires Eof in input
    ensures SenseElement(input, sense).rest == [] || Eof in SenseElement(input, sense).rest
    ensures SenseElement(input + after, sense)
            == Step(SenseElement(input, sense).value, Continued(SenseElement(input, sense).rest, after), SenseElement(input, sense).aborted)
    decreases |input|
  {
    if Next(input) == Eof {
      assert (input + after)[0] == input[0];
      SenseElementStops(input, sense);
      SenseElementStops(input + after, sense);
    } else if Next(input) == Error || Next(input) == End(ElemSense) {
      NextRestExtend(input, after);
      EofAhead(input);
      SenseElementStops(input, sense);
      SenseElementStops(input + after, sense);
    } else if Next(input).Start? && Next(input).name == ElemGloss {
      NextRestExtend(input, after);
      EofAhead(input);
      var glossText := ReadText(Rest(input), ElemGloss);
      var sense' := if glossText.text.Some? then sense.AddGloss(MakeGloss(glossText.text.value, GlossLang(Next(input).attributes))) else sense;
      ReadTextStopsAtEof(Rest(input), ElemGloss, after);
      SenseElementAtGloss(input, sense);
      SenseElementAtGloss(input + after, sense);
      if glossText.rest != [] {
        SenseElementStopsAtEof(glossText.rest, sense', after);
      }
    } else {
      NextRestExtend(input, after);
      EofAhead(input);
      SenseElementSkips(input, sense);
      SenseElementSkips(input + after, sense);
      SenseElementStopsAtEof(Rest(input), sense, after);
    }
  }

  /** The same for a child element of an entry. */
  lemma EntryChildStopsAtEof(name: string, input: seq<Event>, current: Assembled, after: seq<Event>)
    requires Eof in input
    ensures EntryChild(name, input, current).rest == [] || Eof in EntryChild(name, input, current).rest
    ensures EntryChild(name, input + after, current)
            == Step(EntryChild(name, input, current).value, Continued(EntryChild(name, input, current).rest, after),
                    EntryChild(name, input, current).aborted)
  {
    if name == ElemKanji {
      KanjiElementStopsAtEof(input, current.kanji, after);
    } else if name == ElemReading {
      ReadingElementStopsAtEof(input, current.readings, after);
    } else if name == ElemSense {
      SenseElementStopsAtEof(input, Sense.New(), after);
    }
  }

  /** The scan ends at the first `Eof` event: whatever follows it in the
      input is never read, exactly as the reader yields `Eof` forever once
      it has yielded it. */
  lemma {:induction false} ParseFromStopsAtEof(input: seq<Event>, inEntry: bool, current: Assembled,
                                               closed: seq<Assembled>, after: seq<Event>)
    requires Eof in input
    ensures ParseFrom(input + after, inEntry, current, closed) == ParseFrom(input, inEntry, current, closed)
    decreases |input|
  {
    if Next(input) == Eof {
      assert (input + after)[0] == input[0];
    } else {
      NextRestExtend(input, after);
      EofAhead(input);
      match Next(input)
      case Start(name, _) =>
        if !inEntry && name == ElemEntry {
          ParseFromStopsAtEof(Rest(input), true, Fresh, closed, after);
        } else if inEntry {
          var r := EntryChild(name, Rest(input), current);
          EntryChildStopsAtEof(name, Rest(input), current, after);
          if !r.aborted && r.rest != [] {
            ParseFromStopsAtEof(r.rest, true, r.value, closed, after);
          }
        } else {
          ParseFromStopsAtEof(Rest(input), inEntry, current, closed, after);
        }
      case End(name) =>
        if inEntry && name == ElemEntry {
          ParseFromStopsAtEof(Rest(input), false, Fresh, closed + [current], after);
        } else {
          ParseFromStopsAtEof(Rest(input), inEntry, current, closed, after);
        }
      case Error =>
      case Text(_) => ParseFromStopsAtEof(Rest(input), inEntry, current, closed, after);
      case DocType(_) => ParseFromStopsAtEof(Rest(input), inEntry, current, closed, after);
      case Other => ParseFromStopsAtEof(Rest(input), inEntry, current, closed, after);
    }
  }

  // ---------------------------------------------------------------------
  // Entries are assembled independently of one another

  /** The entries already closed are only ever extended: the scan from any
      point adds the same entries whatever came before. */
  /** The step of `ParseFromAppendsToClosed` at `</entry>` inside an entry. */
  lemma {:induction false} ParseFromAppendsToClosedAtEnd(input: seq<Event>, current: Assembled, closed: seq<Assembled>)
    requires Next(input) == End(ElemEntry)
    ensures var alone := ParseFrom(input, true, current, []);
            ParseFrom(input, true, current, closed) == Document(closed + alone.entries, alone.open, alone.aborted)
    decreases |input|, 0
  {
    var tail := ParseFrom(Rest(input), false, Fresh, []);
    ParseFromAppendsToClosed(Rest(input), false, Fresh, closed + [current]);
    ParseFromAppendsToClosed(Rest(input), false, Fresh, [current]);
    assert [] + [current] == [current];
    assert ParseFrom(input, true, current, []) == ParseFrom(Rest(input), false, Fresh, [current]);
    assert closed + [current] + tail.entries == closed + ([current] + tail.entries);
  }

  lemma {:induction false} ParseFromAppendsToClosed(input: seq<Event>, inEntry: bool, current: Assembled, closed: seq<Assembled>)
    ensures var alone := ParseFrom(input, inEntry, current, []);
            ParseFrom(input, inEntry, current, closed) == Document(closed + alone.entries, alone.open, alone.aborted)
    decreases |input|, 1
  {
    match Next(input)
    case Start(name, _) =>
      if !inEntry && name == ElemEntry {
        ParseFromAppendsToClosed(Rest(input), true, Fresh, closed);
      } else if inEntry {
        var r := EntryChild(name, Rest(input), current);
        if !r.aborted {
          ParseFromAppendsToClosed(r.rest, true, r.value, closed);
        }
      } else {
        ParseFromAppendsToClosed(Rest(input), inEntry, current, closed);
      }
    case End(name) =>
      if inEntry && name == ElemEntry {
        ParseFromAppendsToClosedAtEnd(input, current, closed);
      } else {
        ParseFromAppendsToClosed(Rest(input), inEntry, current, closed);
      }
    case Eof =>
    case Error =>
    case Text(_) => ParseFromAppendsToClosed(Rest(input), inEntry, current, closed);
    case DocType(_) => ParseFromAppendsToClosed(Rest(input), inEntry, current, closed);
    case Other => ParseFromAppendsToClosed(Rest(input), inEntry, current, closed);
  }

  /** Outside an entry the per-entry vectors are never read: `<entry>`
      clears them before any child element is read, so nothing left over
      from an earlier entry reaches a later one. */
  lemma {:induction false} OutsideEntryStateIsUnused(input: seq<Event>, current: Assembled, closed: seq<Assembled>)
    ensures ParseFrom(input, false, current, closed) == ParseFrom(input, false, Fresh, closed)
    decreases |input|
  {
    match Next(input)
    case Start(name, _) =>
      if name != ElemEntry {
        OutsideEntryStateIsUnused(Rest(input), current, closed);
      }
    case End(name) => OutsideEntryStateIsUnused(Rest(input), current, closed);
    case Eof =>
    case Error =>
    case Text(_) => OutsideEntryStateIsUnused(Rest(input), current, closed);
    case DocType(_) => OutsideEntryStateIsUnused(Rest(input), current, closed);
    case Other => OutsideEntryStateIsUnused(Rest(input), current, closed);
  }

  /** After `</entry>` the rest of the document is scanned exactly as a
      document of its own. */
  lemma AfterEntryIsFreshDocument(input: seq<Event>, current: Assembled, closed: seq<Assembled>)
    ensures ParseFrom(input, false, current, closed)
            == Document(closed + Parse(input).entries, Parse(input).open, Parse(input).aborted)
  {
    OutsideEntryStateIsUnused(input, current, closed);
    ParseFromAppendsToClosed(input, false, Fresh, closed);
  }

  // ---------------------------------------------------------------------
  // Every entry is closed by its own `</entry>`

  lemma RestCount(input: seq<Event>, x: Event)
    requires Next(input) != Eof
    ensures multiset(input)[x] == multiset(Rest(input))[x] + (if Next(input) == x then 1 else 0)
  {
    assert input == [input[0]] + input[1..];
  }

  /** No more entries are reported than there are `</entry>` tags. */
  lemma {:induction false} EntryCountBound(input: seq<Event>, inEntry: bool, current: Assembled, closed: seq<Assembled>)
    ensures |ParseFrom(input, inEntry, current, closed).entries| <= |closed| + multiset(input)[End(ElemEntry)]
    decreases |input|
  {
    if Next(input) != Eof {
      RestCount(input, End(ElemEntry));
      SuffixMultiset(Rest(input), input);
      match Next(input)
      case Start(name, _) =>
        if !inEntry && name == ElemEntry {
          EntryCountBound(Rest(input), true, Fresh, closed);
        } else if inEntry {
          var r := EntryChild(name, Rest(input), current);
          if !r.aborted {
            SuffixMultiset(r.rest, input);
            EntryCountBound(r.rest, true, r.value, closed);
          }
        } else {
          EntryCountBound(Rest(input), inEntry, current, closed);
        }
      case End(name) =>
        if inEntry && name == ElemEntry {
          EntryCountBound(Rest(input), false, Fresh, closed + [current]);
        } else {
          EntryCountBound(Rest(input), inEntry, current, closed);
        }
      case Eof =>
      case Error =>
      case Text(_) => EntryCountBound(Rest(input), inEntry, current, closed);
      case DocType(_) => EntryCountBound(Rest(input), inEntry, current, closed);
      case Other => EntryCountBound(Rest(input), inEntry, current, closed);
    }
  }
}
