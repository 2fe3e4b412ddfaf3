/**
 What an accepted SVG text is put together from: the tags, each with its embedded images in place, and the
 characters between them. Nothing of the text is left out, and nothing is taken twice.
 */
module SvgParts {
  import opened Basics
  import opened Texts
  import opened SvgStructure
  import opened SvgTags
  import opened SvgPolicy

  /** A stretch of a tag: itself, or the payload of an embedded image. */
  datatype Segment = Bare(text: string) | Embedded(payload: string)

  datatype Part = Gap(c: char) | Tag(segments: seq<Segment>)

  /** The stretches as they stand in the text. */
  function Spelled(segments: seq<Segment>): string {
    if segments == [] then ""
    else
      var k := |segments| - 1;
      Spelled(segments[..k]) + match segments[k] case Bare(text) => text case Embedded(payload) => payload
  }

  /** The stretches as the validator buffers and inspects them: the payload of an image is "AAAA". */
  function Buffered(segments: seq<Segment>): string {
    if segments == [] then ""
    else
      var k := |segments| - 1;
      Buffered(segments[..k]) + match segments[k] case Bare(text) => text case Embedded(_) => "AAAA"
  }

  function Payloads(segments: seq<Segment>): seq<string> {
    if segments == [] then []
    else
      var k := |segments| - 1;
      Payloads(segments[..k]) + match segments[k] case Bare(_) => [] case Embedded(payload) => [payload]
  }

  function TextOf(parts: seq<Part>): string {
    if parts == [] then ""
    else
      var k := |parts| - 1;
      TextOf(parts[..k]) + match parts[k] case Gap(c) => [c] case Tag(segments) => Spelled(segments)
  }

  function TagsOf(parts: seq<Part>): seq<string> {
    if parts == [] then []
    else
      var k := |parts| - 1;
      TagsOf(parts[..k]) + match parts[k] case Gap(_) => [] case Tag(segments) => [Buffered(segments)]
  }

  function ImagesOf(parts: seq<Part>): seq<string> {
    if parts == [] then []
    else
      var k := |parts| - 1;
      ImagesOf(parts[..k]) + match parts[k] case Gap(_) => [] case Tag(segments) => Payloads(segments)
  }

  /** No element is open after the tags of the parts. */
  predicate NoneOpen(parts: seq<Part>) {
    match InspectAll(NO_ROOT, Classified(TagsOf(parts)))
    case None => false
    case Some(s) => s.elements == []
  }

  /** The characters between tags where no element is open. */
  function OutsideOf(parts: seq<Part>): string {
    if parts == [] then ""
    else
      var k := |parts| - 1;
      OutsideOf(parts[..k]) + match parts[k]
                              case Gap(c) => if NoneOpen(parts[..k]) then [c] else ""
                              case Tag(_) => ""
  }

  // Taking a text apart while it is validated

  /** The finished parts, the stretches of the tag being read, and the payload of the image being read. */
  datatype Split = Split(done: seq<Part>, open: seq<Segment>, payload: string)

  const NO_SPLIT: Split := Split([], [], "")

  function CutQuoted(p: Policy, s: State, x: Split, c: char): Split
    requires s.quote.Some?
  {
    if c == s.quote.value then
      var value := if s.image.Some? then [Embedded(x.payload)]
                   else if s.candidate.Some? then [Bare(s.candidate.value)] else [];
      x.(open := x.open + value + [Bare([c])], payload := "")
    else if s.image.Some? then x.(payload := x.payload + [c])
    else if s.candidate.Some? then
      var candidate := s.candidate.value + [c];
      if SafePrefix(p.lower(candidate)) || !StartsSafePrefix(p.lower(candidate))
        then x.(open := x.open + [Bare(candidate)]) else x
    else x.(open := x.open + [Bare([c])])
  }

  function CutUnquoted(x: Split, c: char): Split {
    if c == '>' then x.(done := x.done + [Tag(x.open + [Bare(">")])], open := []) else x.(open := x.open + [Bare([c])])
  }

  function Cut(p: Policy, s: State, x: Split, c: char): Split {
    if s.tag == "" then (if c == '<' then x.(open := [Bare("<")]) else x.(done := x.done + [Gap(c)]))
    else if s.quote.Some? then CutQuoted(p, s, x, c)
    else CutUnquoted(x, c)
  }

  /** What has been read of a value without being in the buffer yet. */
  function Held(s: State, x: Split): string {
    if s.image.Some? then x.payload else if s.candidate.Some? then s.candidate.value else ""
  }

  /** The order in which a validator goes through a value. */
  predicate Orderly(s: State) {
    && (s.tag == "" ==> s.quote == None)
    && (s.quote == None ==> s.candidate == None && s.image == None)
    && (s.image.Some? ==> s.candidate == None)
  }

  predicate Agrees(s: State, l: Log, x: Split, text: string) {
    && Orderly(s) && (s.tag == "" ==> x.open == [])
    && s.tag == Buffered(x.open) && x.payload == l.payload
    && text == TextOf(x.done) + Spelled(x.open) + Held(s, x)
    && TagsOf(x.done) == l.tags && ImagesOf(x.done) + Payloads(x.open) == l.images && OutsideOf(x.done) == l.outside
  }

  lemma OneMore(segments: seq<Segment>, s: Segment)
    ensures Spelled(segments + [s]) == Spelled(segments) + match s case Bare(text) => text
            case Embedded(payload) => payload
    ensures Buffered(segments + [s]) == Buffered(segments) + match s case Bare(text) => text case Embedded(_) => "AAAA"
    ensures Payloads(segments + [s]) == Payloads(segments) + match s case Bare(_) => []
            case Embedded(payload) => [payload]
  {
    assert (segments + [s])[..|segments|] == segments;
  }

  lemma OneStretch(text: string)
    ensures Spelled([Bare(text)]) == text && Buffered([Bare(text)]) == text && Payloads([Bare(text)]) == []
  {
    OneMore([], Bare(text));
    assert [] + [Bare(text)] == [Bare(text)] && "" + text == text;
  }

  lemma OneMorePart(parts: seq<Part>, last: Part)
    ensures TextOf(parts + [last]) == TextOf(parts) + match last case Gap(c) => [c]
            case Tag(segments) => Spelled(segments)
    ensures TagsOf(parts + [last]) == TagsOf(parts) + match last case Gap(_) => []
            case Tag(segments) => [Buffered(segments)]
    ensures ImagesOf(parts + [last]) == ImagesOf(parts) + match last case Gap(_) => []
            case Tag(segments) => Payloads(segments)
    ensures OutsideOf(parts + [last])
            == OutsideOf(parts) + match last case Gap(c) => (if NoneOpen(parts) then [c] else "") case Tag(_) => ""
  {
    assert (parts + [last])[..|parts|] == parts;
  }

  lemma NothingSplit()
    ensures TextOf([]) == "" && TagsOf([]) == [] && ImagesOf([]) == [] && OutsideOf([]) == ""
    ensures Spelled([]) == "" && Buffered([]) == "" && Payloads([]) == []
  {
  }

  // Nothing is lost from one character to the next

  lemma AppendShape(s: State, fragment: string)
    ensures Append(s, fragment).Some? ==> Append(s, fragment).value == s.(tag := s.tag + fragment)
  {
  }

  lemma GapAgrees(p: Policy, s: State, l: Log, x: Split, text: string, c: char)
    requires Recorded(p, s, l) && Agrees(s, l, x, text) && s.tag == "" && PushCharacter(p, s, c).Some?
    ensures Agrees(PushCharacter(p, s, c).value, Record(s, l, c), Cut(p, s, x, c), text + [c])
  {
    hide InspectAll, Classified, Spelled, Buffered, Payloads, TextOf, TagsOf, ImagesOf, OutsideOf;
    NothingSplit();
    if c == '<' {
      OneStretch("<");
    } else {
      OneMorePart(x.done, Gap(c));
    }
  }

  /** A character that is taken into the buffer at once. */
  lemma BareAgrees(s: State, l: Log, x: Split, text: string, c: char)
    requires Agrees(s, l, x, text) && s.image == None && s.candidate == None && s.tag != ""
    ensures var y := x.(open := x.open + [Bare([c])]);
            && Spelled(y.open) == Spelled(x.open) + [c] && Buffered(y.open) == s.tag + [c]
              && Payloads(y.open) == Payloads(x.open)
            && text + [c] == TextOf(y.done) + Spelled(y.open)
  {
    hide TextOf, TagsOf, ImagesOf, OutsideOf, Spelled, Buffered, Payloads;
    OneMore(x.open, Bare([c]));
    assert TextOf(x.done) + Spelled(x.open) + "" == TextOf(x.done) + Spelled(x.open);
    assert TextOf(x.done) + Spelled(x.open) + [c] == TextOf(x.done) + (Spelled(x.open) + [c]);
  }

  /** The closing quote of a value. */
  lemma CloseAgrees(p: Policy, s: State, l: Log, x: Split, text: string, c: char)
    requires Agrees(s, l, x, text) && s.tag != "" && s.quote == Some(c) && PushQuoted(p, s, c).Some?
    requires Units(s.tag) <= MAX_TAG_CHARACTERS && (s.image.None? ==> l.payload == "")
    ensures Agrees(PushQuoted(p, s, c).value, Record(s, l, c), CutQuoted(p, s, x, c), text + [c])
  {
    hide TextOf, TagsOf, ImagesOf, OutsideOf, Spelled, Buffered, Payloads, Append, Units, B.Complete;
    CloseBounded(s, c);
    if s.image.Some? {
      AppendShape(s, "AAAA");
      OneMore(x.open, Embedded(x.payload));
      OneMore(x.open + [Embedded(x.payload)], Bare([c]));
      Regroup(TextOf(x.done), Spelled(x.open), x.payload, c);
      assert ImagesOf(x.done) + (Payloads(x.open) + [x.payload]) == ImagesOf(x.done) + Payloads(x.open) + [x.payload];
    } else if s.candidate.Some? {
      AppendShape(s, s.candidate.value);
      OneMore(x.open, Bare(s.candidate.value));
      OneMore(x.open + [Bare(s.candidate.value)], Bare([c]));
      Regroup(TextOf(x.done), Spelled(x.open), s.candidate.value, c);
    } else {
      OneMore(x.open, Bare([c]));
      Regroup(TextOf(x.done), Spelled(x.open), "", c);
      assert x.open + [] + [Bare([c])] == x.open + [Bare([c])];
    }
  }

  lemma Regroup(done: string, open: string, held: string, c: char)
    ensures done + open + held + [c] == done + (open + held + [c])
    ensures done + open + "" + [c] == done + (open + [c])
  {
  }

  lemma InsideAgrees(p: Policy, s: State, l: Log, x: Split, text: string, c: char)
    requires Agrees(s, l, x, text) && s.tag != "" && s.quote.Some? && s.quote != Some(c) && PushQuoted(p, s, c).Some?
    requires s.image.None? ==> l.payload == ""
    ensures Agrees(PushQuoted(p, s, c).value, Record(s, l, c), CutQuoted(p, s, x, c), text + [c])
  {
    hide TextOf, TagsOf, ImagesOf, OutsideOf, Spelled, Buffered, Payloads, Append, Units, SafePrefix, StartsSafePrefix;
    hide B.PushCharacter;
    var front := TextOf(x.done) + Spelled(x.open);
    if s.image.Some? {
      assert front + x.payload + [c] == front + (x.payload + [c]);
    } else if s.candidate.Some? {
      var candidate := s.candidate.value + [c];
      AppendShape(s, candidate);
      OneMore(x.open, Bare(candidate));
      assert front + s.candidate.value + [c] == front + candidate;
      assert TextOf(x.done) + (Spelled(x.open) + candidate) + "" == front + candidate;
    } else {
      AppendShape(s, [c]);
      BareAgrees(s, l, x, text, c);
      assert front + [c] + "" == front + [c];
    }
  }

  lemma UnquotedAgrees(p: Policy, s: State, l: Log, x: Split, text: string, c: char)
    requires Agrees(s, l, x, text) && s.tag != "" && s.quote.None? && PushUnquoted(p, s, c).Some?
    ensures Agrees(PushUnquoted(p, s, c).value, Record(s, l, c), CutUnquoted(x, c), text + [c])
  {
    hide TextOf, TagsOf, ImagesOf, OutsideOf, Spelled, Buffered, Payloads, Append, Units, InspectStructure, Classify;
    AppendShape(s, [c]);
    BareAgrees(s, l, x, text, c);
    NothingSplit();
    if c == '>' {
      OneMorePart(x.done, Tag(x.open + [Bare(">")]));
      assert TextOf(x.done) + Spelled(x.open + [Bare(">")]) + "" + "" == TextOf(x.done) + Spelled(x.open + [Bare(">")]);
      assert ImagesOf(x.done) + Payloads(x.open) + [] == ImagesOf(x.done) + Payloads(x.open);
    } else {
      assert TextOf(x.done) + Spelled(x.open + [Bare([c])]) + "" == TextOf(x.done) + Spelled(x.open + [Bare([c])]);
    }
  }

  lemma CharacterAgrees(p: Policy, s: State, l: Log, x: Split, text: string, c: char)
    requires Recorded(p, s, l) && Agrees(s, l, x, text) && PushCharacter(p, s, c).Some?
    ensures Agrees(PushCharacter(p, s, c).value, Record(s, l, c), Cut(p, s, x, c), text + [c])
  {
    hide Agrees, Record, PushQuoted, PushUnquoted, CutQuoted, CutUnquoted, InspectAll, Classified, Units;
    if s.tag == "" {
      GapAgrees(p, s, l, x, text, c);
    } else if s.quote.None? {
      UnquotedAgrees(p, s, l, x, text, c);
    } else if s.quote == Some(c) {
      CloseAgrees(p, s, l, x, text, c);
    } else {
      InsideAgrees(p, s, l, x, text, c);
    }
  }

  lemma {:induction false} TextAgrees(p: Policy, s: State, l: Log, x: Split, before: string, text: string)
      returns (y: Split)
    requires Recorded(p, s, l) && Agrees(s, l, x, before) && PushText(p, s, text).Some?
    ensures Agrees(PushText(p, s, text).value, RecordAll(p, s, l, text), y, before + text)
    decreases |text|
  {
    hide Recorded, Agrees, PushCharacter, Record, Cut;
    if text == "" {
      y := x;
      assert before + text == before;
    } else {
      CharacterRecorded(p, s, l, text[0]);
      CharacterAgrees(p, s, l, x, before, text[0]);
      y := TextAgrees(p, PushCharacter(p, s, text[0]).value, Record(s, l, text[0]), Cut(p, s, x, text[0]),
        before + [text[0]], text[1..]);
      assert before + [text[0]] + text[1..] == before + text;
    }
  }

  // The theorem

  /** The parts make up the text, and each is in order. */
  ghost predicate MadeOf(p: Policy, text: string, parts: seq<Part>) {
    && TextOf(parts) == text
    && (exists t: Tree :: t.name == ROOT && Fits(t, MAX_DEPTH) && TreeTags(t) == Classified(TagsOf(parts)))
    && (forall i | 0 <= i < |TagsOf(parts)| :: p.inspect(TagsOf(parts)[i]))
    && (forall i | 0 <= i < |OutsideOf(parts)| :: IsSpace(OutsideOf(parts)[i]))
    && (forall i | 0 <= i < |ImagesOf(parts)| :: B.IsEncoding(ImagesOf(parts)[i]))
  }

  /**
   An accepted text is put together from exactly the tags of one tree rooted at `svg`, the images embedded
   in them, and characters between them, which are white space outside the root. These are the tags, images
   and characters that the validator saw.
   */
  lemma AcceptedText(p: Policy, text: string) returns (parts: seq<Part>)
    requires Validates(p, text)
    ensures MadeOf(p, text, parts)
    ensures var log := RecordAll(p, NEW_VALIDATOR, NO_LOG, text);
            TagsOf(parts) == log.tags && ImagesOf(parts) == log.images && OutsideOf(parts) == log.outside
  {
    hide PushText, RecordAll, InspectAll, Classified, Classify, TreeTags, Fits, TextOf, TagsOf, ImagesOf, OutsideOf,
      Recorded;
    hide Spelled, Buffered, Payloads, B.IsEncoding;
    NewRecorded(p);
    NothingSplit();
    assert "" + "" + "" == "";
    var y := TextAgrees(p, NEW_VALIDATOR, NO_LOG, NO_SPLIT, "", text);
    assert "" + text == text;
    AcceptedIsTree(p, text);
    parts := y.done;
    assert TextOf(parts) + "" + "" == TextOf(parts) && ImagesOf(parts) + [] == ImagesOf(parts);
  }
}
