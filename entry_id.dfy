/** The lookup key of jmdict/src/entry_id.rs. Rust's `Cow<str>` is a plain
    string here: ownership does not exist for values, so `into_owned` is the
    identity on the key. */
module EntryId {

  /** A requested key. There is a single variant: a written (kanji) headword.
      The derived `PartialEq` is Dafny's structural equality. */
  datatype JMDictEntryId = Kanji(kanji: string) {

    /** `from_kanji`: wrap a headword text as a key. A key built from a text
        always matches that text. */
    static function FromKanji(s: string): (id: JMDictEntryId)
      ensures id.MatchKanji(s)
    {
      Kanji(s)
    }

    /** `match_kanji`: exact comparison with a headword text, with no
        normalisation of any kind. */
    predicate MatchKanji(kanjiString: string)
    {
      match this
      case Kanji(myKanji) => kanjiString == myKanji
    }

    /** `into_owned`: only the ownership of the text changes, never the key. */
    function IntoOwned(): (owned: JMDictEntryId)
      ensures owned == this
    {
      match this
      case Kanji(myKanji) => Kanji(myKanji)
    }
  }

  /** Matching is exact string equality with the key's headword. */
  lemma MatchKanjiIsExact(id: JMDictEntryId, s: string)
    ensures id.MatchKanji(s) <==> id.kanji == s
  {
  }

  /** With a single variant, derived equality and matching agree. */
  lemma EqualityAgreesWithMatch(a: JMDictEntryId, b: JMDictEntryId)
    ensures a == b <==> a.MatchKanji(b.kanji)
  {
  }
}
