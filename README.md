# jmdict streaming lookup, in Dafny

This project models how the `jmdict` crate finds dictionary entries in a
single streaming pass over the JMdict XML document, and how the server's
`get_words` handler puts what was found back in request order.

## What is modelled

- **The key** (`EntryId`, jmdict/src/entry_id.rs). `JMDictEntryId` has one
  variant, a written headword. `match_kanji` is exact string equality.
  `into_owned` only changes ownership, so on values it is the identity.
- **The record** (`Entry`, jmdict/src/entry.rs). It covers `JMDictEntry`,
  `Kanji`, `Reading`, `Sense` and `Gloss`, their constructors and their
  accessors. `Sense::add_gloss` pushes onto a vector that only the sense
  owns, so it is modelled as a functional update.
- **The reader** (`XmlEvents`). The quick_xml reader is not modelled. A
  document is the sequence of events the reader yields, read from the
  front. Once the sequence is used up, or once an `Eof` event has been
  read, every further read yields `Eof`, so nothing after an `Eof` event
  is ever read (`JMDict.ScanStopsAtEof`).
  `read_text` and `read_to_end` are modelled as these functions:
  - a `Text` event followed by a skip to the matching end tag gives the text;
  - an immediate end tag gives the empty text;
  - anything else is an error, which lib.rs ignores (`if let Ok`).
- **The scan** (jmdict/src/lib.rs). It is modelled twice:
  - The reference semantics come in two parts:
    - `JMDictAssembly.Parse` states which entries the document closes, with
      which kanji, readings and senses, and whether a reader error aborts;
    - `JMDictLookup.MatchAll` states which closed entries claim an
      outstanding id. An entry claims the first id equal to its first
      matching `keb` text, and that id is removed at once.
  - `JMDict.Scan` combines the two.
  - The imperative model follows the source loop for loop:
    - `JMDict.WithJMDictEntries` is the outer event loop;
    - `KanjiInner`, `ReadingInner` and `SenseInner` are the three inner loops;
    - `LookupEntryId` is the find-and-remove on the outstanding ids.
  - The method is proved to produce exactly `Scan`'s result. So the
    interleaved loop, where the lookup happens while an entry is still
    being read, emits what "assemble the document, then match the closed
    entries in order" emits.
  - The `on_entry` callback becomes the returned sequence of emitted
    entries.
  - A `panic!` on a reader error becomes the `Panicked` outcome. The
    entries emitted before it have already been handed to the callback.
- **Well-formed documents** (`JMDictWellFormed`). It writes a JMdict
  document as reader events: each `k_ele` holds one `keb`, each `r_ele`
  one `reb`, each `sense` its `gloss` elements, and each `entry` its
  `k_ele`, `r_ele` and `sense` elements. Reading such a document back
  gives exactly the written forms, readings, glosses (text and language)
  and entries it was written from, in document order. On such a document
  the scan finishes, counts every entry, and emits what the lookup of
  those entries emits.
- **The server step** (`Server`, src/main.rs:91-99):
  - `CollectEntries` inserts each emitted entry into a map under the id it
    matched.
  - `Reorder` is the `filter_map` over the requested ids.
  - `GetWords` chains the scan, the collection and the reorder.
  - `JMDictEntry` in entry.rs has no `entry_id()` accessor and does not
    derive `Clone`, although main.rs uses both. The model adds an
    `EntryId()` accessor that returns the stored key.

Behaviour of the code worth knowing:

- There is no early exit. Only `Eof` ends the loop, even after every
  requested id has been found, so the returned count never depends on the
  request (`JMDict.ScanOutcomeIgnoresRequest`).
- An id is removed from the outstanding ids when a `keb` text matches, not
  at `</entry>`. An entry still open at the end of input may have claimed
  an id. That id is then neither emitted nor left outstanding. This is why
  `Scan` states exact conservation of the requested ids only when no entry
  is left open.
- `reb` texts never take part in matching.
- A requested id that occurs twice takes two slots. It is given to two
  different entries that have it as a written form (`MatchAllRepeat`).
- `read_text` yields an empty string for an empty element. So an empty
  `keb` can match a requested empty id.

## Model

| member | source | states |
|---|---|---|
| EntryId.JMDictEntryId.FromKanji | jmdict/src/entry_id.rs:10-12 | a key built from a text matches that text |
| EntryId.JMDictEntryId.IntoOwned | jmdict/src/entry_id.rs:19-25 | converting to an owned key gives back the same key |
| EntryId.MatchKanjiIsExact | jmdict/src/entry_id.rs:13-18 | `match_kanji(s)` holds exactly when the key's headword equals `s`, with no normalisation |
| EntryId.EqualityAgreesWithMatch | jmdict/src/entry_id.rs:4-16 | derived equality of two keys holds exactly when one matches the other's headword |
| Entry.Gloss.New | jmdict/src/entry.rs:87-89 | the gloss has the given text and no language |
| Entry.Gloss.NewWithLang | jmdict/src/entry.rs:90-92 | the gloss has the given text and `Some(lang)` as language |
| Entry.Sense.New | jmdict/src/entry.rs:70-74 | a new sense has no gloss |
| Entry.Sense.AddGloss | jmdict/src/entry.rs:75-77 | exactly one gloss more, at the end, with the earlier glosses unchanged |
| Entry.JMDictEntry.New | jmdict/src/entry.rs:13-37 | the accessors return the id and the three lists passed in, unchanged |
| Entry.AccessorsReturnConstructorArguments | jmdict/src/entry.rs:43-98 | `Kanji` and `Reading` `string()`, and `Gloss` `text()` and `lang()`, return what their constructors were given |
| XmlEvents.ReadText | jmdict/src/lib.rs:91-92 | a text is read only from a `Text` event, or is empty when the end tag follows immediately; conversely a `Text` event whose end tag is found gives its content, and an immediate end tag gives the empty text; nothing before the current position is read |
| XmlEvents.ReadTextOfElement | jmdict/src/lib.rs:91-92 | a text element read in full gives its content and resumes right after its end tag |
| XmlEvents.ReadToEndStopsAtEof | jmdict/src/lib.rs:91-92 | skipping to an end tag never reads past an `Eof` event |
| XmlEvents.ReadTextStopsAtEof | jmdict/src/lib.rs:91-92 | reading a text never reads past an `Eof` event |
| JMDictAssembly.GlossLang | jmdict/src/lib.rs:154-159 | the gloss language is the value of the first `xml:lang` attribute whose value decodes, and `None` when there is none |
| JMDictAssembly.MakeGloss | jmdict/src/lib.rs:163-168 | the gloss carries the text read and the language found |
| JMDictAssembly.KanjiElement | jmdict/src/lib.rs:87-114 | the `k_ele` loop only appends to the kanji list and reads on from where it starts |
| JMDictAssembly.ReadingElement | jmdict/src/lib.rs:119-143 | the `r_ele` loop only appends to the reading list and reads on from where it starts |
| JMDictAssembly.SenseElement | jmdict/src/lib.rs:150-183 | the `sense` loop only appends glosses to the sense and reads on from where it starts |
| JMDictAssembly.EntryChild | jmdict/src/lib.rs:83-187 | a child element of an entry reads only forward and never loses a kanji already read |
| JMDictAssembly.EntryChildUpdatesOneList | jmdict/src/lib.rs:83-187 | `k_ele` touches only the kanji, `r_ele` only the readings, and `sense` appends exactly one sense (even one without glosses) unless the reader fails; any other element changes nothing and reads nothing |
| JMDictAssembly.ParseFrom | jmdict/src/lib.rs:71-212 | entries already closed are never changed or dropped by the rest of the scan |
| JMDictAssembly.Parse | jmdict/src/lib.rs:61-212 | a whole document reports no more entries than it has `</entry>` tags |
| JMDictAssembly.KanjiElementWithoutError | jmdict/src/lib.rs:107-111 | without a reader error the `k_ele` loop does not abort |
| JMDictAssembly.ReadingElementWithoutError | jmdict/src/lib.rs:136-140 | without a reader error the `r_ele` loop does not abort |
| JMDictAssembly.SenseElementWithoutError | jmdict/src/lib.rs:176-180 | without a reader error the `sense` loop does not abort |
| JMDictAssembly.EntryChildWithoutError | jmdict/src/lib.rs:83-187 | without a reader error no child element of an entry aborts |
| JMDictAssembly.ParseFromWithoutError | jmdict/src/lib.rs:205-209 | only a reader error aborts the scan: a document without one is read to its end |
| JMDictAssembly.KanjiElementExtends | jmdict/src/lib.rs:87-114 | the `k_ele` loop reads nothing past the point where it stops |
| JMDictAssembly.ReadingElementExtends | jmdict/src/lib.rs:119-143 | the `r_ele` loop reads nothing past the point where it stops |
| JMDictAssembly.SenseElementExtends | jmdict/src/lib.rs:150-183 | the `sense` loop reads nothing past the point where it stops |
| JMDictAssembly.EntryChildExtends | jmdict/src/lib.rs:83-187 | a child element of an entry reads nothing past the point where it stops |
| JMDictAssembly.ParseFromAbortIgnoresSuffix | jmdict/src/lib.rs:205-209 | after a reader error nothing more is read: what follows in the document cannot change the result |
| JMDictAssembly.KanjiElementStopsAtEof | jmdict/src/lib.rs:105 | the `k_ele` loop ends at an `Eof` event, and the events after it change nothing |
| JMDictAssembly.ReadingElementStopsAtEof | jmdict/src/lib.rs:132 | the `r_ele` loop ends at an `Eof` event, and the events after it change nothing |
| JMDictAssembly.SenseElementStopsAtEof | jmdict/src/lib.rs:175 | the `sense` loop ends at an `Eof` event, and the events after it change nothing |
| JMDictAssembly.EntryChildStopsAtEof | jmdict/src/lib.rs:83-187 | a child element of an entry never reads past an `Eof` event |
| JMDictAssembly.ParseFromStopsAtEof | jmdict/src/lib.rs:204 | the outer loop ends at the first `Eof` event: the events after it change nothing |
| JMDictAssembly.ParseFromAppendsToClosed | jmdict/src/lib.rs:188-199 | the entries closed from any point on are the same whatever was closed before; they are appended after it |
| JMDictAssembly.OutsideEntryStateIsUnused | jmdict/src/lib.rs:77-82 | outside an entry, the per-entry vectors left over from earlier entries have no effect: `<entry>` clears them |
| JMDictAssembly.AfterEntryIsFreshDocument | jmdict/src/lib.rs:194-199 | after `</entry>` the rest of the document is scanned as a document of its own, so nothing leaks between entries |
| JMDictAssembly.EntryCountBound | jmdict/src/lib.rs:188-196 | no more entries are closed than there are `</entry>` events |
| JMDictLookup.TakeFirst | jmdict/src/lib.rs:32-47 | the id taken satisfies the predicate and is one of the list, which loses exactly that one occurrence; when none satisfies it, nothing is taken and the list is unchanged |
| JMDictLookup.TakeFirstAt | jmdict/src/lib.rs:36-43 | the id taken is the one at the lowest matching index, and the list left is the original with that index deleted, order kept |
| JMDictLookup.ClaimFor | jmdict/src/lib.rs:91-100 | an entry claims an id exactly when one of its `keb` texts equals an outstanding id; the id claimed is one of its own written forms and is removed once; an entry that claims nothing leaves the outstanding ids unchanged |
| JMDictLookup.ClaimForFirstHeadword | jmdict/src/lib.rs:95-100 | first match wins: the claim is made by the first `keb` text in document order that equals an outstanding id, taking the first such id in request order |
| JMDictLookup.MatchAll | jmdict/src/lib.rs:188-193 | requested ids = ids left outstanding + ids of the emitted entries (as multisets); at most one entry per closed entry; every emitted entry carries one of its own written forms as its id and the lists assembled for one closed entry |
| JMDictLookup.MatchAllNextEntry | jmdict/src/lib.rs:188-195 | a closed entry is emitted exactly when one of its written forms is still outstanding, carrying that id and its own lists; otherwise nothing changes |
| JMDictLookup.MatchAllWithoutHeadwords | jmdict/src/lib.rs:95-99 | ids that are no written form of any entry are never claimed: nothing is emitted and all stay outstanding |
| JMDictLookup.ClaimForRepeat | jmdict/src/lib.rs:95-100 | with `n` copies of one id outstanding, an entry having it as a written form takes exactly one copy |
| JMDictLookup.MatchAllRepeat | jmdict/src/lib.rs:61-99 | an id requested `n` times goes to the first `n` entries, in document order, that have it as a written form; copies left over stay outstanding |
| JMDict.Scan | jmdict/src/lib.rs:50-215 | the emitted ids are a sub-multiset of the requested ids (all of them accounted for unless an entry is left open); every emitted entry carries its own written form and the lists of one closed entry; a finished scan reports the number of closed entries |
| JMDict.LookupEntryId | jmdict/src/lib.rs:32-47 | finds the lowest-index id satisfying the predicate and deletes that index, order kept; otherwise `None` and the list is unchanged |
| JMDict.KanjiInner | jmdict/src/lib.rs:87-114 | the `k_ele` loop reads the kanji of the reference semantics and keeps the entry's claim in step with them |
| JMDict.ReadingInner | jmdict/src/lib.rs:119-143 | the `r_ele` loop reads the readings of the reference semantics |
| JMDict.SenseInner | jmdict/src/lib.rs:149-184 | the `sense` loop builds the sense of the reference semantics |
| JMDict.EntryChildElement | jmdict/src/lib.rs:83-187 | a child element of an entry updates the vectors as the reference semantics do and keeps the claim in step with the kanji read |
| JMDict.CloseEntry | jmdict/src/lib.rs:188-199 | closing an entry emits it with its claimed id exactly when it claimed one, and leaves the remaining ids as the lookup left them |
| JMDict.OpenEntryStep | jmdict/src/lib.rs:77-82 | `<entry>` outside an entry starts an empty entry and keeps the loop in step with the reference semantics |
| JMDict.ChildStep | jmdict/src/lib.rs:83-187 | after a child element of an entry the loop is either still in step with the reference semantics or has panicked with exactly the result `Scan` gives |
| JMDict.CloseEntryStep | jmdict/src/lib.rs:188-199 | `</entry>` appends the entry to the closed ones, emits it exactly when it claimed an id, resets the entry state and counts it |
| JMDict.SkipStep | jmdict/src/lib.rs:200-210 | text, the document type declaration and elements the loop does not handle change nothing but the read position |
| JMDict.StopStep | jmdict/src/lib.rs:204-209 | the end of input finishes with the count of closed entries and a reader error panics, each with the result `Scan` gives |
| JMDict.WithJMDictEntries | jmdict/src/lib.rs:50-215 | the event loop emits, returns and aborts exactly as `Scan` says |
| JMDict.ScanWithoutErrorFinishes | jmdict/src/lib.rs:204-214 | without a reader error the scan reaches the end of input and returns the number of closed entries |
| JMDict.ScanPanicIgnoresLaterEvents | jmdict/src/lib.rs:205-209 | a panic stops the scan at the reader error: the entries emitted before it do not depend on the rest of the document |
| JMDict.ScanOutcomeIgnoresRequest | jmdict/src/lib.rs:71-212 | there is no early exit: the outcome and the count are the same whatever ids are requested |
| JMDict.ScanWithoutHeadwords | jmdict/src/lib.rs:95-99 | requested ids that are no written form of any closed entry produce no entry |
| JMDict.ScanRepeatedId | jmdict/src/lib.rs:61-99 | an id requested `n` times yields the first `n` entries that have it as a written form |
| JMDict.ScanStopsAtEof | jmdict/src/lib.rs:204 | the scan's emitted entries, outcome and count do not depend on anything after the first `Eof` event |
| JMDictWellFormed.GlossLangOfLangAttributes | jmdict/src/lib.rs:154-159 | the `xml:lang` attribute written on a gloss is the language read back |
| JMDictWellFormed.KanjiElementKeb | jmdict/src/lib.rs:90-94 | one `keb` element appends its text as one written form and reading resumes after `</keb>` |
| JMDictWellFormed.ReadingElementReb | jmdict/src/lib.rs:122-128 | one `reb` element appends its text as one reading and reading resumes after `</reb>` |
| JMDictWellFormed.SenseElementGloss | jmdict/src/lib.rs:153-170 | one `gloss` element adds one gloss with its text and its `xml:lang` value |
| JMDictWellFormed.KanjiElementReadsKebs | jmdict/src/lib.rs:87-114 | the `k_ele` loop appends exactly the written forms of its `keb` elements, one each, in document order, and stops right after `</k_ele>` |
| JMDictWellFormed.ReadingElementReadsRebs | jmdict/src/lib.rs:119-143 | the `r_ele` loop appends exactly the readings of its `reb` elements, one each, in document order, and stops right after `</r_ele>` |
| JMDictWellFormed.SenseElementReadsGlosses | jmdict/src/lib.rs:150-183 | the `sense` loop adds exactly the glosses of its `gloss` elements, text and language, one each, in document order, and stops right after `</sense>` |
| JMDictWellFormed.ChildNamesDiffer | jmdict/src/lib.rs:83-187 | the element names `k_ele`, `r_ele` and `sense` that an entry's children are matched on differ from `entry` and from one another, so each child reaches its own branch |
| JMDictWellFormed.ParseKanjiElement | jmdict/src/lib.rs:85-114 | inside an entry, one `k_ele` element holding one `keb` appends that written form to the entry's kanji and reading resumes right after its end tag |
| JMDictWellFormed.ParseReadingElement | jmdict/src/lib.rs:117-143 | inside an entry, one `r_ele` element holding one `reb` appends that reading to the entry's readings and reading resumes right after its end tag |
| JMDictWellFormed.ParseSenseElement | jmdict/src/lib.rs:146-184 | inside an entry, one `sense` element appends a sense holding exactly its glosses, in order, and reading resumes right after its end tag |
| JMDictWellFormed.ParseKanjiElements | jmdict/src/lib.rs:85-114 | inside an entry, the `k_ele` elements add their written forms to the entry's kanji, in order |
| JMDictWellFormed.ParseReadingElements | jmdict/src/lib.rs:117-143 | inside an entry, the `r_ele` elements add their readings to the entry's readings, in order |
| JMDictWellFormed.ParseSenseElements | jmdict/src/lib.rs:146-184 | inside an entry, each `sense` element adds one sense holding its glosses, in order |
| JMDictWellFormed.ParseEntry | jmdict/src/lib.rs:77-199 | an `entry` element is closed as exactly the entry it was written from, and the loop returns to its fresh state |
| JMDictWellFormed.ParseDocumentEvents | jmdict/src/lib.rs:61-212 | a document written from a list of entries is read back as exactly those entries, in order, with none left open and no error |
| JMDictWellFormed.ScanDocumentEvents | jmdict/src/lib.rs:61-212 | scanning a well-formed document finishes with the number of its entries and emits exactly what the lookup of those entries emits |
| Server.FoundIds | src/main.rs:96-99 | the ids kept are all in the map, and there are no more of them than were requested |
| Server.FoundIdsCount | src/main.rs:96-99 | an id with an entry is kept as often as it was requested, so a repeated id gives its entry repeatedly; an id without one is dropped entirely |
| Server.FoundIdsAppend | src/main.rs:96-99 | filtering keeps request order: the ids kept from `a + b` are those kept from `a` followed by those kept from `b` |
| Server.FoundIdsAllPresent | src/main.rs:96-99 | when every requested id has an entry, nothing is dropped |
| Server.Reorder | src/main.rs:96-99 | the response has one entry per kept id, at the same position, namely that id's map value; it is never longer than the request |
| Server.CollectedKeys | src/main.rs:91-94 | the map is keyed by exactly the ids of the emitted entries |
| Server.CollectedLastWins | src/main.rs:91-94 | each key maps to the last emitted entry with that id: a later insert replaces an earlier one |
| Server.CollectEntries | src/main.rs:91-94 | inserting each emitted entry under its matched id builds the map described above |
| Server.ReorderFromCollected | src/main.rs:91-99 | every response entry was emitted by the scan and carries the id at its position among the kept ids |
| Server.GetWords | src/main.rs:91-99 | the scan gets the requested ids in their original order; the handler responds exactly when the scan does not panic; the response lists the collected entries in request order, each carrying the requested id at its position and one of its own written forms |

## Left out

- The quick_xml tokenizer. XML lexical rules, entity expansion and buffer offsets are not modelled: a document is the sequence of events the reader yields. The `read_text` and `read_to_end` behaviour described above is assumed, not derived.
- Attributes the reader cannot parse are not modelled separately. lib.rs drops them (`filter_map(Result::ok)`), so they are simply absent from an event's attribute list.
- `with_jmdict_gz_entries` (jmdict/src/lib.rs:15-30): gzip decompression and buffering are library I/O.
- `read_keywords` (jmdict/src/lib.rs:222-247): it reads the document type declaration line by line and always returns an empty list. The `DocType` event is a no-op in the model.
- A failure reading a keyword line inside `read_keywords` would panic. It is not modelled.
- Panic messages and `buffer_position` are not modelled. A panic is the `Panicked` outcome.
- `Panicked`: the panic does not stop the `on_entry` callbacks already made, and entries emitted before it stay in `emitted`. What the process does after a panic is not modelled.
- JMDict.WithJMDictEntries: the `usize` entry count is an unbounded `nat`. The scan streams and does not keep the entries it counts, so memory does not bound the count. An overflow after `usize::MAX` closed entries (a panic in debug builds, a wrap-around in release builds) is not modelled.
- Serde derives, JSON decoding of the request and encoding of the response (src/main.rs:86-89, 100-101).
- Cow lifetimes: ownership does not exist for values.
- The actix plumbing, file loading, CLI, dictionary download, error and config types, and the whole wasm front end. They are outside the scan and reorder logic.
- JMDict.WithJMDictEntries: the ids still outstanding at the end are returned as a ghost out-parameter so that they can be compared with `Scan`. The source does not return them.
- An explicit `Eof` event followed by more events is read like the reader's own end of input: after it every read yields `Eof` again, so nothing after it is read (`JMDict.ScanStopsAtEof`). The reader yields no such input, so this only fixes how the model treats it.
- JMDict.KanjiInner: the three inner loops are separate methods rather than inline labelled loops. They update the same variables, and the outer loop takes their results back.
- The `HashMap` is a Dafny `map`. Iteration order of the map plays no part in the source, which only inserts and looks up.
