/** The dictionary record of jmdict/src/entry.rs and its parts. */
module Entry {
  import opened Wrappers
  import Ids = EntryId

  /** A written form (`keb` text). */
  datatype Kanji = Kanji(kanjiString: string) {
    function String(): string { kanjiString }
  }

  /** A reading (`reb` text). */
  datatype Reading = Reading(kanaString: string) {
    function String(): string { kanaString }
  }

  /** A gloss: its text and the value of its `xml:lang` attribute, if any. */
  datatype Gloss = Gloss(glossString: string, glossLang: Option<string>) {

    /** `Gloss::new`: a gloss with no language tag. */
    static function New(glossString: string): (g: Gloss)
      ensures g.Text() == glossString && g.Lang() == None
    {
      Gloss(glossString, None)
    }

    /** `Gloss::new_with_lang`: a gloss tagged with a language. */
    static function NewWithLang(glossString: string, lang: string): (g: Gloss)
      ensures g.Text() == glossString && g.Lang() == Some(lang)
    {
      Gloss(glossString, Some(lang))
    }

    function Text(): string { glossString }

    function Lang(): Option<string> { glossLang }
  }

  /** One sense: its glosses in document order. `add_gloss` pushes onto a
      vector owned by the sense alone, so a functional update is exact. */
  datatype Sense = Sense(glossList: seq<Gloss>) {

    /** `Sense::new`: a sense starts with no gloss. */
    static function New(): (s: Sense)
      ensures s.Glosses() == []
    {
      Sense([])
    }

    /** `add_gloss`: exactly one gloss more, at the end; the earlier ones are
        kept in place. */
    function AddGloss(gloss: Gloss): (s: Sense)
      ensures |s.Glosses()| == |Glosses()| + 1
      ensures s.Glosses()[..|Glosses()|] == Glosses()
      ensures s.Glosses()[|Glosses()|] == gloss
    {
      Sense(glossList + [gloss])
    }

    function Glosses(): seq<Gloss> { glossList }
  }

  /** An assembled dictionary entry, keyed by the id that claimed it. */
  datatype JMDictEntry = JMDictEntry(
    entryId: Ids.JMDictEntryId,
    kanjiList: seq<Kanji>,
    readingList: seq<Reading>,
    senseList: seq<Sense>)
  {
    /** `JMDictEntry::new`: the lists are stored unchanged and the id keeps
        its headword text (only its ownership changes). */
    static function New(
      entryId: Ids.JMDictEntryId,
      kanjiList: seq<Kanji>,
      readingList: seq<Reading>,
      senseList: seq<Sense>): (e: JMDictEntry)
      ensures e.EntryId() == entryId
      ensures e.KanjiForms() == kanjiList && e.Readings() == readingList && e.Senses() == senseList
    {
      JMDictEntry(entryId.IntoOwned(), kanjiList, readingList, senseList)
    }

    /** The key the entry was claimed by (read by the server as `entry_id()`). */
    function EntryId(): Ids.JMDictEntryId { entryId }

    /** `kanji()` */
    function KanjiForms(): seq<Kanji> { kanjiList }

    /** `readings()` */
    function Readings(): seq<Reading> { readingList }

    /** `senses()` */
    function Senses(): seq<Sense> { senseList }
  }

  /** Each constructor's argument is what its accessor returns. */
  lemma AccessorsReturnConstructorArguments(s: string, lang: string)
    ensures Kanji(s).String() == s && Reading(s).String() == s
    ensures Gloss.New(s).Text() == s && Gloss.New(s).Lang() == None
    ensures Gloss.NewWithLang(s, lang).Text() == s && Gloss.NewWithLang(s, lang).Lang() == Some(lang)
  {
  }
}
