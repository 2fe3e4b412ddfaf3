/**
 The incremental SVG validator: tags buffered character by character, embedded images checked
 without being buffered, and the element structure checked tag by tag.
 */
module SvgPolicy {
  import opened Basics
  import B = Base64
  import opened SvgStructure
  import opened SvgTags
  import opened Texts

  /** The foreign functions: the inspection of a tag's content, the reference test and the case mapping of values. */
  datatype Policy = Policy(inspect: string -> bool, isReference: string -> bool, lower: string -> string)

  const MAX_TAG_CHARACTERS: nat := 64 * 1024

  const SAFE_PREFIXES: seq<string> := [
    "data:image/png;base64,",
    "data:image/jpeg;base64,",
    "data:image/jpg;base64,",
    "data:image/gif;base64,",
    "data:image/webp;base64,"
  ]

  datatype State = State(tag: string, quote: Option<char>, candidate: Option<string>, image: Option<B.ImageState>,
                         structure: Structure)

  const NEW_VALIDATOR: State := State("", None, None, None, NO_ROOT)

  /** JavaScript's `length`: characters outside the basic plane count twice. */
  function Units(t: string): nat {
    if t == "" then 0 else (if t[0] as int > 0xFFFF then 2 else 1) + Units(t[1..])
  }

  function Append(s: State, fragment: string): Option<State> {
    if Units(fragment) > MAX_TAG_CHARACTERS - Units(s.tag) then None else Some(s.(tag := s.tag + fragment))
  }

  predicate SafePrefix(lower: string) {
    exists i | 0 <= i < |SAFE_PREFIXES| :: SAFE_PREFIXES[i] == lower
  }

  predicate StartsSafePrefix(lower: string) {
    exists i | 0 <= i < |SAFE_PREFIXES| :: lower <= SAFE_PREFIXES[i]
  }

  /** What the closing quote appends for the value it ends. */
  function CloseValue(s: State): Option<State> {
    if s.image.Some? then (if B.Complete(s.image.value) then Append(s, "AAAA") else None)
    else if s.candidate.Some? then Append(s, s.candidate.value)
    else Some(s)
  }

  function PushCandidate(p: Policy, s: State, candidate: string): Option<State> {
    var lower := p.lower(candidate);
    if SafePrefix(lower) then
      match Append(s, candidate)
      case None => None
      case Some(t) => Some(t.(candidate := None, image := Some(B.FRESH)))
    else if !StartsSafePrefix(lower) then
      match Append(s, candidate)
      case None => None
      case Some(t) => Some(t.(candidate := None))
    else Some(s.(candidate := Some(candidate)))
  }

  function PushQuoted(p: Policy, s: State, c: char): Option<State>
    requires s.quote.Some?
  {
    if c == s.quote.value then
      match CloseValue(s)
      case None => None
      case Some(t) => Append(t.(image := None, candidate := None, quote := None), [c])
    else if s.image.Some? then
      match B.PushCharacter(s.image.value, c)
      case None => None
      case Some(image) => Some(s.(image := Some(image)))
    else if s.candidate.Some? then PushCandidate(p, s, s.candidate.value + [c])
    else Append(s, [c])
  }

  function CompleteTag(p: Policy, s: State, tag: string): Option<State> {
    if !p.inspect(tag) then None
    else
      match InspectStructure(s.structure, Classify(tag))
      case None => None
      case Some(structure) => Some(s.(tag := "", structure := structure))
  }

  function PushUnquoted(p: Policy, s: State, c: char): Option<State> {
    if c == '<' then None
    else
      match Append(s, [c])
      case None => None
      case Some(t) =>
        if c == '"' || c == '\'' then Some(t.(quote := Some(c), candidate := if p.isReference(s.tag) then Some("")
          else s.candidate))
        else if c == '>' then CompleteTag(p, t, t.tag)
        else Some(t)
  }

  function PushCharacter(p: Policy, s: State, c: char): Option<State> {
    if s.tag == "" then
      if c == '<' then Some(s.(tag := "<"))
      else if s.structure.elements == [] && !IsSpace(c) then None
      else Some(s)
    else if s.quote.Some? then PushQuoted(p, s, c)
    else PushUnquoted(p, s, c)
  }

  function PushText(p: Policy, s: State, text: string): Option<State>
    decreases |text|
  {
    if text == "" then Some(s)
    else
      match PushCharacter(p, s, text[0])
      case None => None
      case Some(t) => PushText(p, t, text[1..])
  }

  predicate Finishes(s: State) {
    s.tag == "" && s.quote == None && Finished(s.structure)
  }

  predicate Validates(p: Policy, text: string) {
    PushText(p, NEW_VALIDATOR, text).Some? && Finishes(PushText(p, NEW_VALIDATOR, text).value)
  }

  /** Cutting the text between characters changes nothing. */
  lemma {:induction false} ChunkInvariance(p: Policy, s: State, a: string, b: string)
    ensures PushText(p, s, a + b) == match PushText(p, s, a) case None => None case Some(t) => PushText(p, t, b)
    decreases |a|
  {
    if a == "" {
      assert a + b == b;
    } else {
      assert (a + b)[1..] == a[1..] + b;
      match PushCharacter(p, s, a[0])
      case None =>
      case Some(t) => ChunkInvariance(p, t, a[1..], b);
    }
  }

  // What an accepted text consisted of

  /** The completed tags, the text outside the root, and the payloads of embedded images. */
  datatype Log = Log(tags: seq<string>, outside: string, payload: string, images: seq<string>)

  const NO_LOG: Log := Log([], "", "", [])

  function Record(s: State, l: Log, c: char): Log {
    if s.tag == "" then (if c != '<' && s.structure.elements == [] then l.(outside := l.outside + [c]) else l)
    else if s.quote.Some? then
      if s.image.None? then l.(payload := "")
      else if c == s.quote.value then l.(images := l.images + [l.payload], payload := "")
      else l.(payload := l.payload + [c])
    else if c == '>' then l.(tags := l.tags + [s.tag + ">"])
    else l
  }

  function RecordAll(p: Policy, s: State, l: Log, text: string): Log
    decreases |text|
  {
    if text == "" || PushCharacter(p, s, text[0]).None? then l
    else RecordAll(p, PushCharacter(p, s, text[0]).value, Record(s, l, text[0]), text[1..])
  }

  ghost predicate Recorded(p: Policy, s: State, l: Log) {
    && Units(s.tag) <= MAX_TAG_CHARACTERS
    && (forall i | 0 <= i < |l.tags| :: p.inspect(l.tags[i]))
    && (forall i | 0 <= i < |l.outside| :: IsSpace(l.outside[i]))
    && (forall i | 0 <= i < |l.images| :: B.Accepts(l.images[i]))
    && InspectAll(NO_ROOT, Classified(l.tags)) == Some(s.structure)
    && (s.image.Some? ==> s.quote.Some? && B.PushText(B.FRESH, l.payload) == Some(s.image.value))
    && (s.image.None? ==> l.payload == "")
  }

  lemma {:induction false} UnitsAppend(a: string, b: string)
    ensures Units(a + b) == Units(a) + Units(b)
  {
    if a == "" {
      assert a + b == b;
    } else {
      assert (a + b)[1..] == a[1..] + b;
      UnitsAppend(a[1..], b);
    }
  }

  lemma AppendBounded(s: State, fragment: string)
    ensures Append(s, fragment).Some? ==>
              Append(s, fragment).value == s.(tag := s.tag + fragment) && Units(s.tag + fragment) <= MAX_TAG_CHARACTERS
  {
    UnitsAppend(s.tag, fragment);
  }

  lemma {:induction false} PayloadGrows(payload: string, c: char)
    requires B.PushText(B.FRESH, payload).Some?
    ensures B.PushText(B.FRESH, payload + [c]) == B.PushCharacter(B.PushText(B.FRESH, payload).value, c)
  {
    PayloadFrom(B.FRESH, payload, c);
  }

  lemma {:induction false} PayloadFrom(s: B.ImageState, payload: string, c: char)
    requires B.PushText(s, payload).Some?
    ensures B.PushText(s, payload + [c]) == B.PushCharacter(B.PushText(s, payload).value, c)
    decreases |payload|
  {
    if payload == "" {
      assert (payload + [c])[1..] == "" && (payload + [c])[0] == c;
    } else {
      assert (payload + [c])[1..] == payload[1..] + [c];
      PayloadFrom(B.PushCharacter(s, payload[0]).value, payload[1..], c);
    }
  }

  lemma OutsideRecorded(p: Policy, s: State, l: Log, c: char)
    requires Recorded(p, s, l) && s.tag == "" && PushCharacter(p, s, c).Some?
    ensures Recorded(p, PushCharacter(p, s, c).value, Record(s, l, c))
  {
    hide InspectAll, InspectStructure, Classified, Classify;
  }

  lemma QuotedRecorded(p: Policy, s: State, l: Log, c: char)
    requires Recorded(p, s, l) && s.tag != "" && s.quote.Some? && PushQuoted(p, s, c).Some?
    ensures Recorded(p, PushQuoted(p, s, c).value, Record(s, l, c))
  {
    hide InspectAll, Classified, Classify, Units, Append, B.PushText, B.PushCharacter, SafePrefix, StartsSafePrefix;
    AppendBounded(s, [c]);
    if c == s.quote.value {
      CloseBounded(s, c);
    } else if s.image.Some? {
      PayloadGrows(l.payload, c);
    } else if s.candidate.Some? {
      AppendBounded(s, s.candidate.value + [c]);
      FreshPayload();
    }
  }

  lemma FreshPayload()
    ensures B.PushText(B.FRESH, "") == Some(B.FRESH)
  {
  }

  lemma CloseBounded(s: State, c: char)
    requires s.quote.Some? && CloseValue(s).Some? && Units(s.tag) <= MAX_TAG_CHARACTERS
    ensures var t := CloseValue(s).value;
            && t == s.(tag := t.tag) && Units(t.tag) <= MAX_TAG_CHARACTERS
            && (s.image.Some? ==> B.Complete(s.image.value))
            && var u := t.(image := None, candidate := None, quote := None);
               (Append(u, [c]).Some? ==>
                  Append(u, [c]).value == u.(tag := u.tag + [c]) && Units(u.tag + [c]) <= MAX_TAG_CHARACTERS)
  {
    hide Units, Append;
    AppendBounded(s, "AAAA");
    if s.candidate.Some? {
      AppendBounded(s, s.candidate.value);
    }
    AppendBounded(CloseValue(s).value.(image := None, candidate := None, quote := None), [c]);
  }

  lemma TagRecorded(p: Policy, s: State, l: Log, c: char)
    requires Recorded(p, s, l) && s.tag != "" && s.quote.None? && PushUnquoted(p, s, c).Some?
    ensures Recorded(p, PushUnquoted(p, s, c).value, Record(s, l, c))
  {
    hide InspectAll, InspectStructure, Classified, Classify, Units, Append, B.PushText;
    AppendBounded(s, [c]);
    if c == '>' {
      ClassifiedMore(l.tags, s.tag + ">", s.structure);
      NothingBuffered();
    }
  }

  lemma NothingBuffered()
    ensures Units("") == 0
  {
  }

  lemma ClassifiedMore(tags: seq<string>, tag: string, s: Structure)
    requires InspectAll(NO_ROOT, Classified(tags)) == Some(s)
    ensures InspectAll(NO_ROOT, Classified(tags + [tag])) == InspectStructure(s, Classify(tag))
  {
    hide InspectAll, InspectStructure, Classify;
    assert Classified(tags + [tag]) == Classified(tags) + [Classify(tag)];
    InspectAppend(NO_ROOT, Classified(tags), [Classify(tag)]);
    OneTag(s, Classify(tag));
  }

  /** Every character keeps the record, and the buffered tag within its limit. */
  lemma CharacterRecorded(p: Policy, s: State, l: Log, c: char)
    requires Recorded(p, s, l) && PushCharacter(p, s, c).Some?
    ensures Recorded(p, PushCharacter(p, s, c).value, Record(s, l, c))
  {
    hide Recorded, PushQuoted, PushUnquoted, Record;
    if s.tag == "" {
      OutsideRecorded(p, s, l, c);
    } else if s.quote.Some? {
      QuotedRecorded(p, s, l, c);
    } else {
      TagRecorded(p, s, l, c);
    }
  }

  lemma {:induction false} TextRecorded(p: Policy, s: State, l: Log, text: string)
    requires Recorded(p, s, l) && PushText(p, s, text).Some?
    ensures Recorded(p, PushText(p, s, text).value, RecordAll(p, s, l, text))
    decreases |text|
  {
    hide Recorded, PushCharacter, Record;
    if text != "" {
      CharacterRecorded(p, s, l, text[0]);
      TextRecorded(p, PushCharacter(p, s, text[0]).value, Record(s, l, text[0]), text[1..]);
    }
  }

  lemma NewRecorded(p: Policy)
    ensures Recorded(p, NEW_VALIDATOR, NO_LOG)
  {
    assert Classified([]) == [];
  }

  /** However long an embedded image is, the buffered tag stays within 65,536 units at every point of the text. */
  lemma BufferBounded(p: Policy, text: string)
    ensures PushText(p, NEW_VALIDATOR, text).Some?
            ==> Units(PushText(p, NEW_VALIDATOR, text).value.tag) <= MAX_TAG_CHARACTERS
  {
    if PushText(p, NEW_VALIDATOR, text).Some? {
      NewRecorded(p);
      TextRecorded(p, NEW_VALIDATOR, NO_LOG, text);
    }
  }

  /**
   An accepted text consists of the tags of one tree rooted at `svg`, at most 1024 elements deep, each
   tag inspected; outside the root there is only white space, and every embedded image is the
   canonical base64 encoding of a non-empty byte string.
   */
  lemma AcceptedIsTree(p: Policy, text: string)
    requires Validates(p, text)
    ensures var log := RecordAll(p, NEW_VALIDATOR, NO_LOG, text);
            && (exists t: Tree :: t.name == ROOT && Fits(t, MAX_DEPTH) && TreeTags(t) == Classified(log.tags))
            && (forall i | 0 <= i < |log.tags| :: p.inspect(log.tags[i]))
            && (forall i | 0 <= i < |log.outside| :: IsSpace(log.outside[i]))
            && (forall i | 0 <= i < |log.images| :: B.IsEncoding(log.images[i]))
  {
    hide PushText, RecordAll, InspectAll, Classified, Classify, TreeTags, Fits;
    NewRecorded(p);
    TextRecorded(p, NEW_VALIDATOR, NO_LOG, text);
    var log := RecordAll(p, NEW_VALIDATOR, NO_LOG, text);
    AcceptsExactlyTrees(Classified(log.tags));
    forall i | 0 <= i < |log.images| ensures B.IsEncoding(log.images[i]) {
      B.AcceptsExactlyEncodings(log.images[i]);
    }
  }

  /**
   The elements of an accepted text are well nested by the names as they are written exactly when every
   element that is left open has a name that the opening expression captures completely.
   */
  lemma AcceptedNesting(p: Policy, text: string)
    requires Validates(p, text)
    ensures var tags := RecordAll(p, NEW_VALIDATOR, NO_LOG, text).tags;
            Nest([], Written(tags)) == Some([]) <==> forall i | 0 <= i < |tags| :: OpensWhole(tags[i])
  {
    hide PushText, RecordAll, InspectAll, Classified, Classify;
    NewRecorded(p);
    TextRecorded(p, NEW_VALIDATOR, NO_LOG, text);
    NestedAsWritten(RecordAll(p, NEW_VALIDATOR, NO_LOG, text).tags);
  }

  // Texts of tags without quotes

  /** A tag whose inside holds no quote and no bracket, and fits the buffer. */
  predicate Plain(tag: string) {
    && 2 <= |tag| <= MAX_TAG_CHARACTERS / 2 && tag[0] == '<' && tag[|tag| - 1] == '>'
    && forall i | 1 <= i < |tag| - 1 :: tag[i] !in "<>\"'"
  }

  function Joined(tags: seq<string>): string {
    if tags == [] then "" else tags[0] + Joined(tags[1..])
  }

  lemma {:induction false} UnitsBounded(t: string)
    ensures Units(t) <= 2 * |t|
  {
    if t != "" {
      UnitsBounded(t[1..]);
    }
  }

  lemma InsideGrows(p: Policy, s: State, tag: string, k: nat)
    requires Plain(tag) && 1 <= k < |tag| && s.tag == tag[..k] && s.quote == None
    ensures PushCharacter(p, s, tag[k])
            == if k < |tag| - 1 then Some(s.(tag := tag[..k + 1])) else CompleteTag(p, s.(tag := tag), tag)
  {
    hide Units, CompleteTag;
    UnitsBounded(tag[..k]);
    UnitsBounded([tag[k]]);
    AppendBounded(s, [tag[k]]);
    assert tag[..k] + [tag[k]] == tag[..k + 1];
    if k == |tag| - 1 {
      assert tag[..k + 1] == tag;
    }
  }

  lemma {:induction false} InsidePushed(p: Policy, s: State, tag: string, k: nat)
    requires Plain(tag) && 1 <= k < |tag| && s.tag == tag[..k] && s.quote == None
    ensures PushText(p, s, tag[k..]) == CompleteTag(p, s.(tag := tag), tag)
    decreases |tag| - k
  {
    hide PushCharacter, CompleteTag, Plain;
    InsideGrows(p, s, tag, k);
    assert tag[k..][1..] == tag[k + 1..] && tag[k..][0] == tag[k];
    if k < |tag| - 1 {
      InsidePushed(p, s.(tag := tag[..k + 1]), tag, k + 1);
    } else {
      assert tag[k + 1..] == "";
    }
  }

  /** Such a tag is completed as a whole. */
  lemma TagPushed(p: Policy, s: State, tag: string)
    requires Plain(tag) && s.tag == "" && s.quote == None
    ensures PushText(p, s, tag) == CompleteTag(p, s, tag)
  {
    hide Classify, InspectStructure;
    InsidePushed(p, s.(tag := "<"), tag, 1);
    assert tag[..1] == "<";
  }

  /** A text of such tags is accepted as far as the inspection and the structure accept its tags. */
  lemma {:induction false} TagsPushed(p: Policy, s: State, tags: seq<string>)
    requires (forall i | 0 <= i < |tags| :: Plain(tags[i]) && p.inspect(tags[i])) && s.tag == "" && s.quote == None
    ensures PushText(p, s, Joined(tags))
            == match InspectAll(s.structure, Classified(tags))
               case Some(structure) => Some(s.(structure := structure))
               case None => None
    decreases |tags|
  {
    hide PushCharacter, PushText, Plain, Classify;
    if tags == [] {
      NothingPushed(p, s);
    } else {
      assert Classified(tags)[1..] == Classified(tags[1..]);
      TagPushed(p, s, tags[0]);
      ChunkInvariance(p, s, tags[0], Joined(tags[1..]));
      if InspectStructure(s.structure, Classify(tags[0])).Some? {
        TagsPushed(p, s.(structure := InspectStructure(s.structure, Classify(tags[0])).value), tags[1..]);
      }
    }
  }

  lemma NothingPushed(p: Policy, s: State)
    ensures PushText(p, s, "") == Some(s)
  {
  }

  function PairText(open: string, close: string): string {
    "<svg>" + open + close + "</svg>"
  }

  /** One element inside the root is accepted exactly when the two names that count are equal. */
  lemma PairAccepted(p: Policy, open: string, close: string, name: string, other: string)
    requires Plain(open) && Plain(close) && Classify(open) == OpenTag(name, false) && Classify(close) == CloseTag(other)
    requires p.inspect("<svg>") && p.inspect("</svg>") && p.inspect(open) && p.inspect(close)
    ensures Validates(p, PairText(open, close)) <==> name == other
  {
    RootTags();
    hide PushText, Classify, InspectStructure, Plain;
    var tags := ["<svg>", open, close, "</svg>"];
    FourJoined(tags);
    assert tags[0] + tags[1] + tags[2] + tags[3] == PairText(open, close);
    TagsPushed(p, NEW_VALIDATOR, tags);
    assert Classified(tags) == [OpenTag(ROOT, false), OpenTag(name, false), CloseTag(other), CloseTag(ROOT)];
    FourInspected(name, other);
  }

  lemma RootTags()
    ensures Plain("<svg>") && Classify("<svg>") == OpenTag(ROOT, false)
    ensures Plain("</svg>") && Classify("</svg>") == CloseTag(ROOT)
  {
    hide Classify;
    OpensAs("svg", "", 0);
    ClosesAs("svg");
    assert "<" + "svg" + "" + ">" == "<svg>" && "</" + "svg" + ">" == "</svg>";
    assert Lower("svg") == ROOT;
  }

  lemma FourJoined(tags: seq<string>)
    requires |tags| == 4
    ensures Joined(tags) == tags[0] + tags[1] + tags[2] + tags[3]
  {
    hide Joined;
    JoinedTurn(tags, 0);
    JoinedTurn(tags, 1);
    JoinedTurn(tags, 2);
    JoinedTurn(tags, 3);
    assert tags[0..] == tags;
  }

  lemma JoinedTurn(tags: seq<string>, i: nat)
    requires i < |tags|
    ensures Joined(tags[i..]) == tags[i] + Joined(tags[i + 1..]) && Joined(tags[|tags|..]) == ""
  {
    assert tags[i..][1..] == tags[i + 1..];
  }

  lemma FourInspected(name: string, other: string)
    ensures var kinds := [OpenTag(ROOT, false), OpenTag(name, false), CloseTag(other), CloseTag(ROOT)];
            InspectAll(NO_ROOT, kinds) == if name == other then Some(Structure([], true, true)) else None
  {
    var kinds := [OpenTag(ROOT, false), OpenTag(name, false), CloseTag(other), CloseTag(ROOT)];
    var root, inner := Structure([ROOT], true, false), Structure([ROOT, name], true, false);
    assert kinds[1..] == [kinds[1], kinds[2], kinds[3]] && [kinds[1], kinds[2], kinds[3]][1..] == [kinds[2], kinds[3]];
    assert [ROOT] + [name] == [ROOT, name] && [] + [ROOT] == [ROOT] && inner.elements[..1] == [ROOT]
      && root.elements[..0] == [];
    assert InspectStructure(NO_ROOT, kinds[0]) == Some(root) && InspectStructure(root, kinds[1]) == Some(inner);
    assert InspectStructure(inner, kinds[2]) == if name == other then Some(root) else None;
    OneTag(root, kinds[3]);
    assert [kinds[2], kinds[3]][1..] == [kinds[3]];
    assert InspectAll(inner, [kinds[2], kinds[3]]) == if name == other then Some(Structure([], true, true)) else None;
    assert InspectAll(root, [kinds[1], kinds[2], kinds[3]]) == InspectAll(inner, [kinds[2], kinds[3]]);
  }

  /**
   Names that are not whole: two texts are accepted although an element is opened and closed by
   different names, and a text is refused in which they are the same.
   */
  lemma NamesSlip(p: Policy)
    requires forall tag | tag in ["<svg>", "</svg>", "<a->", "<a+b>", "</a>", "</a->"] :: p.inspect(tag)
    ensures Validates(p, "<svg><a-></a></svg>") && Validates(p, "<svg><a+b></a></svg>")
            && !Validates(p, "<svg><a-></a-></svg>")
    ensures WrittenName("<a->") == WrittenName("</a->") == "a-" && WrittenName("<a+b>") == "a+b"
            && WrittenName("</a>") == "a"
  {
    SlippingTags();
    hide Classify, Validates, WrittenName;
    assert PairText("<a->", "</a>") == "<svg><a-></a></svg>" && PairText("<a+b>", "</a>") == "<svg><a+b></a></svg>"
           && PairText("<a->", "</a->") == "<svg><a-></a-></svg>";
    PairAccepted(p, "<a->", "</a>", "a", "a");
    PairAccepted(p, "<a+b>", "</a>", "a", "a");
    PairAccepted(p, "<a->", "</a->", "a", "a-");
  }

  lemma SlippingTags()
    ensures Classify("<a->") == OpenTag("a", false) && Classify("<a+b>") == OpenTag("a", false)
    ensures Classify("</a>") == CloseTag("a") && Classify("</a->") == CloseTag("a-")
    ensures WrittenName("<a->") == WrittenName("</a->") == "a-" && WrittenName("<a+b>") == "a+b"
            && WrittenName("</a>") == "a"
  {
    hide Classify, WrittenName;
    SlippingKinds();
    SlippingNames();
  }

  lemma SlippingKinds()
    ensures Classify("<a->") == OpenTag("a", false) && Classify("<a+b>") == OpenTag("a", false)
    ensures Classify("</a>") == CloseTag("a") && Classify("</a->") == CloseTag("a-")
  {
    hide Classify;
    OpensAs("a", "-", 1);
    OpensAs("a", "+b", 0);
    ClosesAs("a");
    ClosesAs("a-");
    assert "<" + "a" + "-" + ">" == "<a->" && "<" + "a" + "+b" + ">" == "<a+b>";
    assert "</" + "a-" + ">" == "</a->" && "</" + "a" + ">" == "</a>";
    assert Lower("a") == "a" && Lower("a-") == "a-";
  }

  lemma SlippingNames()
    ensures WrittenName("<a->") == WrittenName("</a->") == "a-" && WrittenName("<a+b>") == "a+b"
            && WrittenName("</a>") == "a"
  {
    hide WrittenName;
    WrittenOpen("a-");
    WrittenOpen("a+b");
    WrittenClose("a");
    WrittenClose("a-");
    assert "<" + "a-" + ">" == "<a->" && "<" + "a+b" + ">" == "<a+b>";
    assert "</" + "a-" + ">" == "</a->" && "</" + "a" + ">" == "</a>";
  }

  /** White space in front of the root changes nothing. */
  lemma SpaceInFront(p: Policy, c: char, text: string)
    requires IsSpace(c)
    ensures Validates(p, [c] + text) == Validates(p, text)
  {
    assert ([c] + text)[1..] == text;
    assert PushCharacter(p, NEW_VALIDATOR, c) == Some(NEW_VALIDATOR);
  }

  /** The smallest text that is accepted. */
  lemma RootAccepts(p: Policy)
    requires p.inspect("<svg>") && p.inspect("</svg>")
    ensures Validates(p, "<svg></svg>")
  {
    hide PushText, Classify, InspectStructure, Plain;
    var tags := ["<svg>", "</svg>"];
    RootTags();
    assert tags[0..] == tags;
    JoinedTurn(tags, 0);
    JoinedTurn(tags, 1);
    assert "<svg>" + ("</svg>" + "") == "<svg></svg>";
    TagsPushed(p, NEW_VALIDATOR, tags);
    assert Classified(tags) == [OpenTag(ROOT, false), CloseTag(ROOT)];
    RootInspected();
  }

  lemma RootInspected()
    ensures AcceptsTags([OpenTag(ROOT, false), CloseTag(ROOT)])
  {
    hide AcceptsTags;
    RootAccepted(Element(ROOT, []));
    assert ForestTags([]) == [] && TreeTags(Element(ROOT, [])) == [OpenTag(ROOT, false), CloseTag(ROOT)];
  }

  // The validator object

  class IncrementalSvgPolicyValidator {
    const policy: Policy
    var tag: string
    var quote: Option<char>
    var referenceCandidate: Option<string>
    var dataImage: B.DataImage?
    var elements: seq<string>
    var rootSeen: bool
    var rootClosed: bool

    ghost function Model(): State
      reads this, dataImage
    {
      State(tag, quote, referenceCandidate, if dataImage == null then None else Some(dataImage.State()),
            Structure(elements, rootSeen, rootClosed))
    }

    constructor (policy: Policy)
      ensures Model() == NEW_VALIDATOR && this.policy == policy && dataImage == null
    {
      this.policy := policy;
      tag, quote, referenceCandidate, dataImage := "", None, None, null;
      elements, rootSeen, rootClosed := [], false, false;
    }

    method AppendTag(fragment: string) returns (ok: bool)
      modifies this`tag
      ensures ok == Append(old(Model()), fragment).Some?
      ensures ok ==> Model() == Append(old(Model()), fragment).value
      ensures !ok ==> tag == old(tag)
    {
      if Units(fragment) > MAX_TAG_CHARACTERS - Units(tag) {
        return false;
      }
      tag := tag + fragment;
      return true;
    }

    method InspectTagStructure(completed: string) returns (ok: bool)
      modifies this`elements, this`rootSeen, this`rootClosed
      ensures var next := InspectStructure(old(Model()).structure, Classify(completed));
              ok == next.Some? && (ok ==> Model() == old(Model()).(structure := next.value))
    {
      hide Body, ClosingName, OpeningName, EndsItself, Lower;
      var body := Body(completed);
      if Declares(body) {
        return false;
      }
      var closing := ClosingName(body);
      if closing.Some? {
        var expected := if |elements| == 0 then None else Some(elements[|elements| - 1]);
        elements := if |elements| == 0 then elements else elements[..|elements| - 1];
        var actual := Lower(closing.value);
        if expected != Some(actual) {
          return false;
        }
        if |elements| == 0 {
          rootClosed := true;
        }
        return true;
      }
      var opening := OpeningName(body);
      if opening.None? {
        return false;
      }
      var name, selfClosing := Lower(opening.value), EndsItself(body);
      if |elements| == 0 {
        if rootSeen || rootClosed || name != ROOT {
          return false;
        }
        rootSeen := true;
      }
      if selfClosing {
        if |elements| == 0 {
          rootClosed := true;
        }
        return true;
      }
      if |elements| >= MAX_DEPTH {
        return false;
      }
      elements := elements + [name];
      return true;
    }

    /** A character inside a quoted value. */
    method PushQuotedCharacter(c: char) returns (ok: bool)
      requires quote.Some?
      modifies this, dataImage
      ensures ok == PushQuoted(policy, old(Model()), c).Some?
      ensures ok ==> Model() == PushQuoted(policy, old(Model()), c).value
      ensures dataImage == old(dataImage) || dataImage == null || fresh(dataImage)
    {
      hide Append, Units, SafePrefix, StartsSafePrefix, B.PushCharacter, B.Complete;
      if c == quote.value {
        if dataImage != null {
          var complete := dataImage.AssertCompleteBase64();
          if !complete {
            return false;
          }
          ok := AppendTag("AAAA");
        } else if referenceCandidate.Some? {
          ok := AppendTag(referenceCandidate.value);
        } else {
          ok := true;
        }
        if !ok {
          return;
        }
        dataImage := null;
        referenceCandidate := None;
        quote := None;
        ok := AppendTag([c]);
        return;
      }
      if dataImage != null {
        ok := dataImage.PushBase64Character(c);
        return;
      }
      if referenceCandidate.Some? {
        ok := GrowCandidate(c);
        return;
      }
      ok := AppendTag([c]);
    }

    /** A reference value is buffered until it is, or can no longer become, a safe image prefix. */
    method GrowCandidate(c: char) returns (ok: bool)
      requires quote.Some? && dataImage == null && referenceCandidate.Some?
      modifies this
      ensures var next := PushCandidate(policy, old(Model()), old(referenceCandidate).value + [c]);
              ok == next.Some? && (ok ==> Model() == next.value)
      ensures dataImage == null || fresh(dataImage)
    {
      hide Append, Units;
      referenceCandidate := Some(referenceCandidate.value + [c]);
      var candidate := referenceCandidate.value;
      var lower := policy.lower(candidate);
      ghost var before := old(Model());
      if SafePrefix(lower) {
        AppendSameTag(before, Model(), candidate);
        ok := AppendTag(candidate);
        if ok {
          referenceCandidate := None;
          dataImage := new B.DataImage();
        }
        return;
      }
      if !StartsSafePrefix(lower) {
        AppendSameTag(before, Model(), candidate);
        ok := AppendTag(candidate);
        if ok {
          referenceCandidate := None;
        }
        return;
      }
      return true;
    }

    method PushTagCharacter(c: char) returns (ok: bool)
      modifies this, dataImage
      ensures var s := old(Model());
              var next := if s.quote.Some? then PushQuoted(policy, s, c) else PushUnquoted(policy, s, c);
              ok == next.Some? && (ok ==> Model() == next.value)
      ensures dataImage == old(dataImage) || dataImage == null || fresh(dataImage)
    {
      if quote.Some? {
        ok := PushQuotedCharacter(c);
        return;
      }
      hide Append, Units, InspectStructure, PushQuoted, Classify;
      if c == '<' {
        return false;
      }
      if c == '"' || c == '\'' {
        var isReference := policy.isReference(tag);
        ok := AppendTag([c]);
        if ok {
          quote := Some(c);
          if isReference {
            referenceCandidate := Some("");
          }
        }
        return;
      }
      ok := AppendTag([c]);
      if ok && c == '>' {
        var completed := tag;
        tag := "";
        if !policy.inspect(completed) {
          return false;
        }
        ok := InspectTagStructure(completed);
      }
    }

    /** One chunk of text; the error of any character is the error of the push. */
    method Push(text: string) returns (ok: bool)
      modifies this, dataImage
      ensures var next := PushText(policy, old(Model()), text); ok == next.Some? && (ok ==> Model() == next.value)
      ensures dataImage == old(dataImage) || dataImage == null || fresh(dataImage)
    {
      hide PushQuoted, PushUnquoted;
      ghost var whole := PushText(policy, Model(), text);
      var k := 0;
      assert text[0..] == text;
      while k < |text|
        invariant 0 <= k <= |text| && whole == PushText(policy, Model(), text[k..])
        invariant dataImage == old(dataImage) || dataImage == null || fresh(dataImage)
      {
        var c := text[k];
        assert text[k..][0] == c && text[k..][1..] == text[k + 1..];
        k := k + 1;
        if tag == "" {
          if c == '<' {
            tag := "<";
          } else if |elements| == 0 && !IsSpace(c) {
            return false;
          }
          continue;
        }
        var pushed := PushTagCharacter(c);
        if !pushed {
          return false;
        }
      }
      return true;
    }

    method Finish() returns (ok: bool)
      ensures ok == Finishes(Model())
    {
      return tag == "" && quote == None && rootSeen && rootClosed && |elements| == 0;
    }
  }

  /** Whether a fragment still fits depends on the buffered tag alone. */
  lemma AppendSameTag(s: State, t: State, fragment: string)
    requires s.tag == t.tag
    ensures Append(s, fragment).Some? == Append(t, fragment).Some?
    ensures Append(s, fragment).Some? ==>
              Append(s, fragment).value == s.(tag := s.tag + fragment)
                && Append(t, fragment).value == t.(tag := s.tag + fragment)
  {
  }

  /** `assertSafeSvgString`: one push and a finish. */
  method AssertSafeSvgString(policy: Policy, svg: string) returns (ok: bool)
    ensures ok == Validates(policy, svg)
  {
    var validator := new IncrementalSvgPolicyValidator(policy);
    ok := validator.Push(svg);
    if ok {
      ok := validator.Finish();
    }
  }
}
