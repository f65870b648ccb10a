/** The interface of the XML pull reader that jmdict/src/lib.rs drives.
    The reader itself (quick_xml) is not part of this model: a document is the
    sequence of events the reader yields, consumed from the front. Once the
    sequence is exhausted, or once an `Eof` event has been read, every
    further read yields `Eof` again, as the reader does after the end of its
    input. */
module XmlEvents {
  import opened Wrappers

  /** An attribute whose key and value the reader could decode. `value` is
      `None` when the raw value is not valid UTF-8. Attributes the reader
      fails to parse are not listed at all (lib.rs drops them). */
  datatype Attribute = Attribute(key: string, value: Option<string>)

  /** The events lib.rs distinguishes. `Other` stands for every event it
      ignores: self-closing elements, comments, CDATA, processing
      instructions, the XML declaration. `Error` is a reader error. */
  datatype Event =
    | Start(name: string, attributes: seq<Attribute>)
    | End(name: string)
    | Text(content: string)
    | DocType(raw: string)
    | Eof
    | Error
    | Other

  /** The event the next `read_event` returns. */
  function Next(input: seq<Event>): (e: Event)
    ensures input == [] ==> e == Eof
    ensures e != Eof ==> input != []
  {
    if input == [] then Eof else input[0]
  }

  /** What is left to read after one `read_event`. Once the reader has
      yielded `Eof` it yields `Eof` again on every later read, so an `Eof`
      event leaves nothing to read. */
  function Rest(input: seq<Event>): (rest: seq<Event>)
    ensures IsSuffix(rest, input)
    ensures Next(input) == Eof ==> rest == []
    ensures Next(input) != Eof ==> |rest| == |input| - 1
  {
    if input == [] || input[0] == Eof then [] else input[1..]
  }

  /** `s` is what remains of `t` after some events were read. */
  predicate IsSuffix(s: seq<Event>, t: seq<Event>)
  {
    |s| <= |t| && s == t[|t| - |s|..]
  }

  lemma SuffixTransitive(a: seq<Event>, b: seq<Event>, c: seq<Event>)
    requires IsSuffix(a, b) && IsSuffix(b, c)
    ensures IsSuffix(a, c)
  {
    assert c[|c| - |b|..][|b| - |a|..] == c[|c| - |a|..];
  }

  /** Reading ahead never invents events: whatever is absent from the input
      is absent from what is left of it, and no event occurs more often. */
  lemma SuffixMultiset(s: seq<Event>, t: seq<Event>)
    requires IsSuffix(s, t)
    ensures multiset(s) <= multiset(t)
  {
    assert t == t[..|t| - |s|] + s;
  }

  /** Reading from a longer stream: as long as `input` is neither
      exhausted nor at an `Eof`, the next event is the same and the rest is
      extended by the same events. */
  lemma NextRestExtend(input: seq<Event>, more: seq<Event>)
    requires Next(input) != Eof
    ensures Next(input + more) == Next(input)
    ensures Rest(input + more) == Rest(input) + more
  {
    assert (input + more)[1..] == input[1..] + more;
  }

  /** Outcome of skipping to the end tag of an element. */
  datatype Skipped = Skipped(found: bool, rest: seq<Event>)

  /** The reader's `read_to_end(end)`: skip events up to the `End(end)` that
      closes the current element, counting nested elements of the same name.
      An `Error` or the end of input makes it fail. */
  function ReadToEnd(input: seq<Event>, end: string, depth: nat): (r: Skipped)
    ensures IsSuffix(r.rest, input)
    ensures r.found ==> |r.rest| < |input|
    decreases |input|
  {
    match Next(input)
    case End(name) =>
      if name == end then
        if depth == 0 then Skipped(true, Rest(input)) else ReadToEnd(Rest(input), end, depth - 1)
      else ReadToEnd(Rest(input), end, depth)
    case Start(name, _) =>
      if name == end then ReadToEnd(Rest(input), end, depth + 1) else ReadToEnd(Rest(input), end, depth)
    case Error => Skipped(false, Rest(input))
    case Eof => Skipped(false, Rest(input))
    case _ => ReadToEnd(Rest(input), end, depth)
  }

  /** Outcome of `read_text`: the text, or `None` for a reader error. */
  datatype TextRead = TextRead(text: Option<string>, rest: seq<Event>)

  /** The reader's `read_text(end)`, called right after `Start(end)`: a `Text`
      event gives its content once the element's end tag has been skipped
      to; an immediate `End(end)` gives the empty text; anything else is an
      error, having consumed that one event. */
  function ReadText(input: seq<Event>, end: string): (r: TextRead)
    ensures IsSuffix(r.rest, input)
    ensures r.text.Some? ==>
              (Next(input) == Text(r.text.value) || (Next(input) == End(end) && r.text.value == ""))
    ensures Next(input).Text? && ReadToEnd(Rest(input), end, 0).found ==> r.text == Some(Next(input).content)
    ensures Next(input) == End(end) ==> r == TextRead(Some(""), Rest(input))
  {
    match Next(input)
    case Text(content) =>
      var skipped := ReadToEnd(Rest(input), end, 0);
      SuffixTransitive(skipped.rest, Rest(input), input);
      TextRead(if skipped.found then Some(content) else None, skipped.rest)
    case End(name) =>
      if name == end then TextRead(Some(""), Rest(input)) else TextRead(None, Rest(input))
    case _ => TextRead(None, Rest(input))
  }

  /** Skipping ahead reads nothing past the point where it stops: unless it
      ran out of input, it behaves the same on any longer stream. */
  lemma {:induction false} ReadToEndExtends(input: seq<Event>, end: string, depth: nat, more: seq<Event>)
    requires ReadToEnd(input, end, depth).rest != []
    ensures ReadToEnd(input + more, end, depth)
            == Skipped(ReadToEnd(input, end, depth).found, ReadToEnd(input, end, depth).rest + more)
    decreases |input|
  {
    NextRestExtend(input, more);
    match Next(input)
    case End(name) =>
      if name != end || depth != 0 {
        ReadToEndExtends(Rest(input), end, if name == end then depth - 1 else depth, more);
      }
    case Start(name, _) =>
      ReadToEndExtends(Rest(input), end, if name == end then depth + 1 else depth, more);
    case Error =>
    case Eof =>
    case Text(_) => ReadToEndExtends(Rest(input), end, depth, more);
    case DocType(_) => ReadToEndExtends(Rest(input), end, depth, more);
    case Other => ReadToEndExtends(Rest(input), end, depth, more);
  }

  /** The same for `read_text`. */
  lemma {:induction false} ReadTextExtends(input: seq<Event>, end: string, more: seq<Event>)
    requires ReadText(input, end).rest != []
    ensures ReadText(input + more, end)
            == TextRead(ReadText(input, end).text, ReadText(input, end).rest + more)
  {
    NextRestExtend(input, more);
    if Next(input).Text? {
      ReadToEndExtends(Rest(input), end, 0, more);
    }
  }

  /** What is left of `input + after` when reading `input` left `rest`: an
      exhausted `rest` means the reader met `Eof`, and nothing is left. */
  function Continued(rest: seq<Event>, after: seq<Event>): seq<Event>
  {
    if rest == [] then [] else rest + after
  }

  /** The first event of an input holding an `Eof` somewhere: if it is not
      that `Eof`, the `Eof` is still ahead. */
  lemma EofAhead(input: seq<Event>)
    requires Eof in input && Next(input) != Eof
    ensures Eof in Rest(input)
  {
    assert input == [input[0]] + input[1..];
  }

  /** Nothing after an `Eof` event is read: skipping ahead over an input
      that holds one behaves the same whatever follows it. */
  lemma {:induction false} ReadToEndStopsAtEof(input: seq<Event>, end: string, depth: nat, after: seq<Event>)
    requires Eof in input
    ensures ReadToEnd(input, end, depth).rest == [] || Eof in ReadToEnd(input, end, depth).rest
    ensures ReadToEnd(input + after, end, depth)
            == Skipped(ReadToEnd(input, end, depth).found, Continued(ReadToEnd(input, end, depth).rest, after))
    decreases |input|
  {
    if Next(input) == Eof {
      assert (input + after)[0] == input[0];
    } else if Next(input) == Error || (Next(input) == End(end) && depth == 0) {
      NextRestExtend(input, after);
      EofAhead(input);
    } else {
      NextRestExtend(input, after);
      EofAhead(input);
      var depth' := match Next(input)
                    case End(name) => if name == end then depth - 1 else depth
                    case Start(name, _) => if name == end then depth + 1 else depth
                    case _ => depth;
      assert ReadToEnd(input, end, depth) == ReadToEnd(Rest(input), end, depth');
      assert ReadToEnd(input + after, end, depth) == ReadToEnd(Rest(input) + after, end, depth');
      ReadToEndStopsAtEof(Rest(input), end, depth', after);
    }
  }

  /** The same for `read_text`. */
  lemma ReadTextStopsAtEof(input: seq<Event>, end: string, after: seq<Event>)
    requires Eof in input
    ensures ReadText(input, end).rest == [] || Eof in ReadText(input, end).rest
    ensures ReadText(input + after, end) == TextRead(ReadText(input, end).text, Continued(ReadText(input, end).rest, after))
  {
    if Next(input) == Eof {
      assert (input + after)[0] == input[0];
    } else {
      NextRestExtend(input, after);
      EofAhead(input);
      if Next(input).Text? {
        ReadToEndStopsAtEof(Rest(input), end, 0, after);
      }
    }
  }

  /** A text element read in full: its content is the text, and reading
      resumes right after its end tag. */
  lemma ReadTextOfElement(content: string, end: string, tail: seq<Event>)
    ensures ReadText([Text(content), End(end)] + tail, end) == TextRead(Some(content), tail)
  {
    assert Rest([Text(content), End(end)] + tail) == [End(end)] + tail;
    assert Rest([End(end)] + tail) == tail;
  }
}
