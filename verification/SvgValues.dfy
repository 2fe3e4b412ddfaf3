/**
 How the validator takes attribute values: plain values and references go into the buffered tag as they
 are, and an embedded image is checked character by character, however long it is, while the tag gets "AAAA".
 */
module SvgValues {
  import opened Basics
  import opened Texts
  import B = Base64
  import opened SvgStructure
  import opened SvgTags
  import opened SvgPolicy

  /** Inside a tag and outside its values. */
  predicate InTag(s: State) {
    s.tag != "" && s.quote == None && s.candidate == None && s.image == None && Units(s.tag) <= MAX_TAG_CHARACTERS
  }

  predicate IsQuote(q: char) {
    q == '"' || q == '\''
  }

  predicate FitsBuffer(tag: string) {
    Units(tag) <= MAX_TAG_CHARACTERS
  }

  /** The state with a longer tag, or the error of a tag that is too long. */
  function Grown(s: State, fragment: string): Option<State> {
    if FitsBuffer(s.tag + fragment) then Some(s.(tag := s.tag + fragment)) else None
  }

  lemma AppendIsGrown(s: State, fragment: string)
    requires FitsBuffer(s.tag)
    ensures Append(s, fragment) == Grown(s, fragment)
  {
    UnitsAppend(s.tag, fragment);
  }

  /** Growing twice is growing once. */
  lemma GrownTwice(s: State, a: string, b: string)
    ensures Grown(s, a).Some? ==> Grown(Grown(s, a).value, b) == Grown(s, a + b)
    ensures Grown(s, a).None? ==> Grown(s, a + b) == None
  {
    assert s.tag + (a + b) == s.tag + a + b;
    UnitsAppend(s.tag + a, b);
  }

  lemma GrownNothing(s: State)
    requires FitsBuffer(s.tag)
    ensures Grown(s, "") == Some(s)
  {
    assert s.tag + "" == s.tag;
  }

  lemma OneChar(p: Policy, s: State, c: char)
    ensures PushText(p, s, [c]) == PushCharacter(p, s, c)
  {
    hide PushCharacter;
    assert [c][1..] == "";
    if PushCharacter(p, s, c).Some? {
      assert PushText(p, PushCharacter(p, s, c).value, "") == PushCharacter(p, s, c);
    }
  }

  // Text of a tag outside its values

  predicate BareText(text: string) {
    forall i | 0 <= i < |text| :: text[i] !in "<>\"'"
  }

  lemma {:induction false} BarePushed(p: Policy, s: State, text: string)
    requires InTag(s) && BareText(text)
    ensures PushText(p, s, text) == Grown(s, text)
    decreases |text|
  {
    hide Units, Append, Grown;
    if text == "" {
      GrownNothing(s);
    } else {
      AppendIsGrown(s, [text[0]]);
      BareStep(p, s, text[0]);
      GrownTwice(s, [text[0]], text[1..]);
      GrownShape(s, [text[0]]);
      assert [text[0]] + text[1..] == text;
      if Grown(s, [text[0]]).Some? {
        BarePushed(p, Grown(s, [text[0]]).value, text[1..]);
      }
    }
  }

  lemma GrownShape(s: State, fragment: string)
    ensures Grown(s, fragment).Some? ==>
              Grown(s, fragment).value == s.(tag := s.tag + fragment) && Units(s.tag + fragment) <= MAX_TAG_CHARACTERS
  {
  }

  lemma BareStep(p: Policy, s: State, c: char)
    requires InTag(s) && c !in "<>\"'"
    ensures PushCharacter(p, s, c) == Append(s, [c])
  {
    hide Append, Units;
  }

  // A plain value

  /** Inside a value that is buffered as it comes. */
  predicate InPlain(s: State, q: char) {
    s.tag != "" && s.quote == Some(q) && s.candidate == None && s.image == None && FitsBuffer(s.tag)
  }

  lemma {:induction false} PlainPushed(p: Policy, s: State, q: char, value: string)
    requires InPlain(s, q) && q !in value
    ensures PushText(p, s, value) == Grown(s, value)
    decreases |value|
  {
    hide Units, Append, Grown;
    if value == "" {
      GrownNothing(s);
    } else {
      var c := value[0];
      AppendIsGrown(s, [c]);
      assert PushCharacter(p, s, c) == Append(s, [c]);
      GrownTwice(s, [c], value[1..]);
      GrownShape(s, [c]);
      assert [c] + value[1..] == value;
      if Grown(s, [c]).Some? {
        PlainPushed(p, Grown(s, [c]).value, q, value[1..]);
      }
    }
  }

  /** The rest of a plain value and its closing quote. */
  lemma {:induction false} PlainClosed(p: Policy, s: State, q: char, value: string)
    requires InPlain(s, q) && q !in value
    ensures PushText(p, s, value + [q]) == Grown(s.(quote := None), value + [q])
  {
    hide Units, Append, Grown, PushCharacter;
    PlainPushed(p, s, q, value);
    ChunkInvariance(p, s, value, [q]);
    GrownShape(s, value);
    GrownTwice(s.(quote := None), value, [q]);
    GrownShape(s.(quote := None), value);
    SameGrowth(s, value);
    if Grown(s, value).Some? {
      var t := Grown(s, value).value;
      OneChar(p, t, q);
      ClosingStep(p, t, q);
      AppendIsGrown(t.(quote := None), [q]);
    }
  }

  lemma SameGrowth(s: State, fragment: string)
    ensures Grown(s, fragment).Some? <==> Grown(s.(quote := None), fragment).Some?
  {
  }

  lemma ClosingStep(p: Policy, s: State, q: char)
    requires InPlain(s, q)
    ensures PushCharacter(p, s, q) == Append(s.(quote := None), [q])
  {
    hide Append, Units;
  }

  /** A value that is no reference goes into the tag as it is, with brackets and the other quote in it. */
  lemma {:induction false} PlainValue(p: Policy, s: State, q: char, value: string)
    requires InTag(s) && IsQuote(q) && !p.isReference(s.tag) && q !in value
    ensures PushText(p, s, [q] + value + [q]) == Grown(s, [q] + value + [q])
  {
    hide Units, Append, Grown, PushCharacter;
    OpeningQuote(p, s, q);
    OpeningGrown(p, s, q, value + [q]);
    assert [q] + value + [q] == [q] + (value + [q]);
    if Grown(s, [q]).Some? {
      GrownShape(s, [q]);
      var t := Quoted(p, s, q);
      PlainClosed(p, t, q, value);
      assert t.(quote := None) == s.(tag := s.tag + [q]);
    }
  }

  /** The state behind an opening quote. */
  function Quoted(p: Policy, s: State, q: char): State {
    s.(tag := s.tag + [q], quote := Some(q), candidate := if p.isReference(s.tag) then Some("") else None)
  }

  lemma OpeningQuote(p: Policy, s: State, q: char)
    requires InTag(s) && IsQuote(q)
    ensures PushCharacter(p, s, q) == if Grown(s, [q]).Some? then Some(Quoted(p, s, q)) else None
  {
    AppendIsGrown(s, [q]);
    hide Units;
  }

  /** Reading on behind the opening quote. */
  lemma {:induction false} OpeningGrown(p: Policy, s: State, q: char, rest: string)
    requires InTag(s) && IsQuote(q)
    ensures PushText(p, s, [q] + rest) == if Grown(s, [q]).Some? then PushText(p, Quoted(p, s, q), rest) else None
    ensures Grown(s, [q]).None? ==> Grown(s, [q] + rest) == None
    ensures Grown(s, [q]).Some? ==> Grown(s.(tag := s.tag + [q]), rest) == Grown(s, [q] + rest)
  {
    hide Units, Append, Grown, PushCharacter;
    OpeningQuote(p, s, q);
    OneChar(p, s, q);
    ChunkInvariance(p, s, [q], rest);
    GrownTwice(s, [q], rest);
    GrownShape(s, [q]);
  }

  // A reference that is no embedded image

  /** Inside a reference of which `held` has been read and may still become a safe prefix. */
  predicate InCandidate(s: State, q: char, held: string) {
    s.tag != "" && s.quote == Some(q) && s.candidate == Some(held) && s.image == None && FitsBuffer(s.tag)
  }

  /** The state after the value, its quote and what it stands for in the tag. */
  function Closed(s: State, fragment: string): Option<State> {
    Grown(s.(quote := None, candidate := None, image := None), fragment)
  }

  lemma {:induction false} CandidateClosed(p: Policy, s: State, q: char, value: string, k: nat)
    requires k <= |value| && InCandidate(s, q, value[..k]) && q !in value
    requires forall j | 0 <= j <= |value| :: !SafePrefix(p.lower(value[..j]))
    ensures PushText(p, s, value[k..] + [q]) == Closed(s, value + [q])
    decreases |value| - k
  {
    hide Units, Append, Grown, PushCharacter, SafePrefix, StartsSafePrefix;
    if k == |value| {
      assert value[k..] + [q] == [q] && value[..k] == value;
      OneChar(p, s, q);
      HeldClosed(p, s, q, value);
    } else {
      var c, held := value[k], value[..k + 1];
      assert value[..k] + [c] == held && value[k..] + [q] == [c] + (value[k + 1..] + [q]) && c in value;
      OneChar(p, s, c);
      ChunkInvariance(p, s, [c], value[k + 1..] + [q]);
      CandidateStep(p, s, q, value[..k], c);
      if StartsSafePrefix(p.lower(held)) {
        CandidateClosed(p, s.(candidate := Some(held)), q, value, k + 1);
      } else {
        CandidateGivenUp(p, s, q, value, k + 1);
      }
    }
  }

  lemma HeldClosed(p: Policy, s: State, q: char, value: string)
    requires InCandidate(s, q, value)
    ensures PushCharacter(p, s, q) == Closed(s, value + [q])
  {
    AppendIsGrown(s, value);
    GrownShape(s, value);
    var t := s.(quote := None, candidate := None, image := None);
    GrownTwice(t, value, [q]);
    if Grown(s, value).Some? {
      AppendIsGrown(t.(tag := s.tag + value), [q]);
    }
    hide Units;
  }

  lemma CandidateStep(p: Policy, s: State, q: char, held: string, c: char)
    requires InCandidate(s, q, held) && c != q && !SafePrefix(p.lower(held + [c]))
    ensures PushCharacter(p, s, c)
            == if StartsSafePrefix(p.lower(held + [c])) then Some(s.(candidate := Some(held + [c])))
               else if Grown(s, held + [c]).None? then None
               else Some(s.(tag := s.tag + (held + [c]), candidate := None))
  {
    hide Units, SafePrefix, StartsSafePrefix;
    AppendIsGrown(s, held + [c]);
  }

  /** A reference that cannot become a safe prefix any more is a plain value from then on. */
  lemma {:induction false} CandidateGivenUp(p: Policy, s: State, q: char, value: string, k: nat)
    requires 0 < k <= |value| && q !in value && s.quote == Some(q) && s.tag != "" && s.image == None
    ensures var next := if Grown(s, value[..k]).None? then None
                        else Some(s.(tag := s.tag + value[..k], candidate := None));
            (match next case None => None case Some(t) => PushText(p, t, value[k..] + [q])) == Closed(s, value + [q])
  {
    hide Units, Append, PushText;
    var t := s.(quote := None, candidate := None, image := None);
    GrownTwice(t, value[..k], value[k..] + [q]);
    assert value[..k] + (value[k..] + [q]) == value + [q];
    if Grown(s, value[..k]).Some? {
      PlainClosed(p, s.(tag := s.tag + value[..k], candidate := None), q, value[k..]);
    }
  }

  /** A reference none of whose beginnings is a safe prefix goes into the tag as it is. */
  lemma {:induction false} ReferenceValue(p: Policy, s: State, q: char, value: string)
    requires InTag(s) && IsQuote(q) && p.isReference(s.tag) && q !in value
    requires forall j | 0 <= j <= |value| :: !SafePrefix(p.lower(value[..j]))
    ensures PushText(p, s, [q] + value + [q]) == Grown(s, [q] + value + [q])
  {
    hide Units, Append, Grown, PushCharacter, SafePrefix;
    OpeningGrown(p, s, q, value + [q]);
    assert [q] + value + [q] == [q] + (value + [q]);
    if Grown(s, [q]).Some? {
      GrownShape(s, [q]);
      var t := Quoted(p, s, q);
      assert value[..0] == "" && value[0..] == value;
      CandidateClosed(p, t, q, value, 0);
      assert t.(quote := None, candidate := None, image := None) == s.(tag := s.tag + [q]);
    }
  }

  // An embedded image

  /** The beginning of the reference is a safe prefix, in whatever case its letters are written. */
  predicate SpellsPrefix(p: Policy, written: string) {
    exists i | 0 <= i < |SAFE_PREFIXES| :: Spells(p, written, SAFE_PREFIXES[i])
  }

  predicate Spells(p: Policy, written: string, prefix: string) {
    |written| == |prefix| && forall k | 0 <= k <= |written| :: p.lower(written[..k]) == prefix[..k]
  }

  /** A safe prefix ends in its only comma, so none begins another. */
  lemma OnlyAtTheComma(i: nat, k: nat)
    requires i < |SAFE_PREFIXES| && k <= |SAFE_PREFIXES[i]|
    ensures SafePrefix(SAFE_PREFIXES[i][..k]) <==> k == |SAFE_PREFIXES[i]|
    ensures StartsSafePrefix(SAFE_PREFIXES[i][..k])
  {
    assert SAFE_PREFIXES[i][..|SAFE_PREFIXES[i]|] == SAFE_PREFIXES[i];
    if k < |SAFE_PREFIXES[i]| {
      NoComma(i, k);
      forall j | 0 <= j < |SAFE_PREFIXES| ensures SAFE_PREFIXES[j] != SAFE_PREFIXES[i][..k] {
        EndsInComma(j);
      }
    }
  }

  lemma EndsInComma(j: nat)
    requires j < |SAFE_PREFIXES|
    ensures |SAFE_PREFIXES[j]| > 0 && SAFE_PREFIXES[j][|SAFE_PREFIXES[j]| - 1] == ','
  {
  }

  lemma NoComma(i: nat, k: nat)
    requires i < |SAFE_PREFIXES| && k < |SAFE_PREFIXES[i]|
    ensures ',' !in SAFE_PREFIXES[i][..k]
  {
    var prefix := SAFE_PREFIXES[i];
    forall j | 0 <= j < k ensures prefix[j] != ',' {
      CommaAt(i, j);
    }
  }

  lemma CommaAt(i: nat, j: nat)
    requires i < |SAFE_PREFIXES| && j < |SAFE_PREFIXES[i]| - 1
    ensures SAFE_PREFIXES[i][j] != ','
  {
  }

  /** Reading a safe prefix: it is held back until it is complete, and then an image begins. */
  lemma {:induction false} PrefixPushed(p: Policy, s: State, q: char, written: string, i: nat, k: nat)
    requires i < |SAFE_PREFIXES| && Spells(p, written, SAFE_PREFIXES[i]) && q !in written
    requires k < |written| && InCandidate(s, q, written[..k])
    ensures PushText(p, s, written[k..])
            == match Grown(s, written)
               case None => None
               case Some(t) => Some(t.(candidate := None, image := Some(B.FRESH)))
    decreases |written| - k
  {
    hide Units, Append, Grown, PushCharacter, SafePrefix, StartsSafePrefix;
    var c, held := written[k], written[..k + 1];
    assert written[..k] + [c] == held && written[k..] == [c] + written[k + 1..] && c in written;
    OneChar(p, s, c);
    ChunkInvariance(p, s, [c], written[k + 1..]);
    OnlyAtTheComma(i, k + 1);
    PrefixStep(p, s, q, written[..k], c);
    if k + 1 < |written| {
      PrefixPushed(p, s.(candidate := Some(held)), q, written, i, k + 1);
      SameHeld(s, held, written);
    } else {
      assert held == written && written[k + 1..] == "";
      Ending(p, s, written);
    }
  }

  lemma SameHeld(s: State, held: string, fragment: string)
    ensures Grown(s.(candidate := Some(held)), fragment)
            == match Grown(s, fragment) case None => None case Some(t) => Some(t.(candidate := Some(held)))
  {
  }

  lemma Ending(p: Policy, s: State, written: string)
    ensures var next := match Grown(s, written)
                        case None => None
                        case Some(t) => Some(t.(candidate := None, image := Some(B.FRESH)));
            next.Some? ==> PushText(p, next.value, "") == next
  {
  }

  lemma PrefixStep(p: Policy, s: State, q: char, held: string, c: char)
    requires InCandidate(s, q, held) && c != q && StartsSafePrefix(p.lower(held + [c]))
    ensures PushCharacter(p, s, c)
            == if SafePrefix(p.lower(held + [c])) then
                 match Grown(s, held + [c])
                 case None => None
                 case Some(t) => Some(t.(candidate := None, image := Some(B.FRESH)))
               else Some(s.(candidate := Some(held + [c])))
  {
    hide Units, SafePrefix, StartsSafePrefix;
    AppendIsGrown(s, held + [c]);
  }

  /** The payload does not enter the buffer. */
  lemma {:induction false} PayloadPushed(p: Policy, s: State, q: char, payload: string)
    requires s.tag != "" && s.quote == Some(q) && s.image.Some? && q !in payload
    ensures PushText(p, s, payload)
            == match B.PushText(s.image.value, payload)
               case None => None
               case Some(image) => Some(s.(image := Some(image)))
    decreases |payload|
  {
    hide Units, Append, B.PushCharacter;
    if payload != "" {
      var c := payload[0];
      assert c in payload;
      assert PushCharacter(p, s, c)
          == match B.PushCharacter(s.image.value, c)
             case None => None
             case Some(image) => Some(s.(image := Some(image)));
      if B.PushCharacter(s.image.value, c).Some? {
        PayloadPushed(p, s.(image := B.PushCharacter(s.image.value, c)), q, payload[1..]);
      }
    }
  }

  lemma ImageClosed(p: Policy, s: State, q: char)
    requires s.tag != "" && s.quote == Some(q) && s.image.Some? && FitsBuffer(s.tag)
    ensures PushCharacter(p, s, q) == if B.Complete(s.image.value) then Closed(s, "AAAA" + [q]) else None
  {
    AppendIsGrown(s, "AAAA");
    GrownShape(s, "AAAA");
    var t := s.(quote := None, candidate := None, image := None);
    GrownTwice(t, "AAAA", [q]);
    if Grown(s, "AAAA").Some? {
      AppendIsGrown(t.(tag := s.tag + "AAAA"), [q]);
    }
    hide Units, B.Complete;
  }

  /**
   An embedded image, however long: it is accepted exactly when its payload is the base64 encoding of a
   non-empty byte string, and the tag holds "AAAA" in its place.
   */
  lemma {:induction false} ImageValue(p: Policy, s: State, q: char, written: string, payload: string)
    requires InTag(s) && IsQuote(q) && p.isReference(s.tag) && SpellsPrefix(p, written)
    requires q !in written && q !in payload
    ensures PushText(p, s, [q] + written + payload + [q])
            == if B.IsEncoding(payload) then Grown(s, [q] + written + "AAAA" + [q]) else None
  {
    hide Units, Append, Grown, PushCharacter, B.IsEncoding, B.PushText, B.Complete;
    var i :| 0 <= i < |SAFE_PREFIXES| && Spells(p, written, SAFE_PREFIXES[i]);
    EndsInComma(i);
    OpeningGrown(p, s, q, written + payload + [q]);
    assert [q] + written + payload + [q] == [q] + (written + payload + [q]);
    assert [q] + written + "AAAA" + [q] == [q] + (written + ("AAAA" + [q]));
    GrownTwice(s, [q], written + ("AAAA" + [q]));
    if Grown(s, [q]).Some? {
      GrownShape(s, [q]);
      var t := Quoted(p, s, q);
      assert written[..0] == "" && written[0..] == written;
      PrefixPushed(p, t, q, written, i, 0);
      ImageRead(p, s, t, q, written, payload);
    }
  }

  lemma {:induction false} ImageRead(p: Policy, s: State, t: State, q: char, written: string, payload: string)
    requires InTag(s) && Grown(s, [q]).Some? && t == s.(tag := s.tag + [q], quote := Some(q), candidate := Some(""))
    requires q !in payload
    requires PushText(p, t, written)
             == match Grown(t, written)
                case None => None
                case Some(u) => Some(u.(candidate := None, image := Some(B.FRESH)))
    ensures PushText(p, t, written + payload + [q])
            == if B.IsEncoding(payload) then Grown(s.(tag := s.tag + [q]), written + ("AAAA" + [q])) else None
  {
    hide Units, Append, Grown, PushCharacter, PushText, B.IsEncoding, B.PushText, B.Complete;
    var r := s.(tag := s.tag + [q]);
    ChunkInvariance(p, t, written, payload + [q]);
    assert written + payload + [q] == written + (payload + [q]);
    GrownTwice(r, written, "AAAA" + [q]);
    SameTag(r, t, written);
    B.AcceptsExactlyEncodings(payload);
    if Grown(r, written).Some? {
      GrownShape(r, written);
      var u := t.(tag := r.tag + written, candidate := None, image := Some(B.FRESH));
      ChunkInvariance(p, u, payload, [q]);
      PayloadPushed(p, u, q, payload);
      ImageEnds(p, r, u, q, written, payload);
    }
  }

  lemma SameTag(r: State, t: State, fragment: string)
    requires r.tag == t.tag
    ensures Grown(r, fragment).Some? <==> Grown(t, fragment).Some?
    ensures Grown(t, fragment).Some? ==> Grown(t, fragment).value == t.(tag := r.tag + fragment)
  {
  }

  lemma ImageEnds(p: Policy, r: State, u: State, q: char, written: string, payload: string)
    requires r.tag != "" && r.quote == None && r.candidate == None && r.image == None && FitsBuffer(r.tag + written)
    requires u == r.(tag := r.tag + written, quote := Some(q), image := Some(B.FRESH))
    requires PushText(p, u, payload)
             == match B.PushText(B.FRESH, payload) case None => None case Some(image) => Some(u.(image := Some(image)))
    ensures (match PushText(p, u, payload) case None => None case Some(v) => PushText(p, v, [q]))
            == if B.Accepts(payload) then Grown(r.(tag := r.tag + written), "AAAA" + [q]) else None
  {
    hide Units, Append, Grown, PushCharacter, PushText, B.PushText, B.Complete;
    if B.PushText(B.FRESH, payload).Some? {
      var v := u.(image := B.PushText(B.FRESH, payload));
      OneChar(p, v, q);
      ImageClosed(p, v, q);
      assert v.(quote := None, candidate := None, image := None) == r.(tag := r.tag + written);
    }
  }

  // Whole tags and texts

  /** Outside a tag. */
  predicate Outside(s: State) {
    s.tag == "" && s.quote == None && s.candidate == None && s.image == None
  }

  /** The beginning of a tag up to a value. */
  predicate Front(front: string) {
    front != "" && front[0] == '<' && BareText(front[1..])
  }

  lemma {:induction false} FrontPushed(p: Policy, s: State, front: string)
    requires Outside(s) && Front(front)
    ensures PushText(p, s, front) == Grown(s, front)
    ensures Grown(s, front).Some? ==> InTag(Grown(s, front).value) && Grown(s, front).value == s.(tag := front)
  {
    hide Units, Append, PushText;
    var t := s.(tag := "<");
    assert front == "<" + front[1..] && "" + front == front;
    OneBracket();
    OneChar(p, s, '<');
    ChunkInvariance(p, s, "<", front[1..]);
    BarePushed(p, t, front[1..]);
  }

  lemma OneBracket()
    ensures Units("<") == 1
  {
    assert "<"[1..] == "";
  }

  lemma {:induction false} TagEnds(p: Policy, s: State, rest: string)
    requires InTag(s) && BareText(rest)
    ensures var tag := s.tag + rest + ">";
            PushText(p, s, rest + ">") == if FitsBuffer(tag) then CompleteTag(p, s, tag) else None
  {
    hide Units, Append, Grown, CompleteTag, PushText;
    BarePushed(p, s, rest);
    ChunkInvariance(p, s, rest, ">");
    GrownTwice(s, rest, ">");
    assert s.tag + (rest + ">") == s.tag + rest + ">";
    GrownIs(s, rest);
    GrownIs(s, rest + ">");
    if Grown(s, rest).Some? {
      OneChar(p, Grown(s, rest).value, '>');
      BracketStep(p, Grown(s, rest).value);
      SameCompletion(p, s, Grown(s, rest).value, s.tag + rest + ">");
    }
  }

  lemma GrownIs(s: State, fragment: string)
    ensures Grown(s, fragment) == if FitsBuffer(s.tag + fragment) then Some(s.(tag := s.tag + fragment)) else None
  {
  }

  lemma BracketStep(p: Policy, s: State)
    requires InTag(s)
    ensures PushCharacter(p, s, '>')
            == if FitsBuffer(s.tag + ">") then CompleteTag(p, s.(tag := s.tag + ">"), s.tag + ">") else None
  {
    AppendIsGrown(s, ">");
    hide Units, Classify, InspectStructure;
  }

  lemma SameCompletion(p: Policy, s: State, t: State, tag: string)
    requires t == s.(tag := t.tag)
    ensures CompleteTag(p, t, tag) == CompleteTag(p, s, tag) == CompleteTag(p, t.(tag := tag), tag)
  {
    hide Classify, InspectStructure;
  }

  /** A tag with one image in it, anywhere in a text. */
  lemma {:induction false} ImageTag(p: Policy, s: State, front: string, q: char, written: string, payload: string,
                                    rest: string)
    requires Outside(s) && Front(front) && BareText(rest) && IsQuote(q) && p.isReference(front)
    requires SpellsPrefix(p, written) && q !in written && q !in payload
    requires FitsBuffer(front + [q] + written + "AAAA" + [q] + rest + ">")
    ensures var buffered := front + [q] + written + "AAAA" + [q] + rest + ">";
            PushText(p, s, front + [q] + written + payload + [q] + rest + ">")
            == if B.IsEncoding(payload) then CompleteTag(p, s, buffered) else None
  {
    hide Units, Append, PushText, CompleteTag, B.IsEncoding, SpellsPrefix;
    var value, held := [q] + written + payload + [q], [q] + written + "AAAA" + [q];
    assert front + [q] + written + payload + [q] + rest + ">" == front + (value + (rest + ">"));
    assert front + [q] + written + "AAAA" + [q] + rest + ">" == front + held + rest + ">";
    FrontsFit(front, held, rest);
    FrontPushed(p, s, front);
    assert "" + front == front;
    ChunkInvariance(p, s, front, value + (rest + ">"));
    var t := s.(tag := front);
    ChunkInvariance(p, t, value, rest + ">");
    ImageValue(p, t, q, written, payload);
    if B.IsEncoding(payload) {
      var u := t.(tag := front + held);
      TagEnds(p, u, rest);
      SameCompletion(p, s, u, front + held + rest + ">");
    }
  }

  /** Beginnings of a tag that fits fit as well. */
  lemma FrontsFit(front: string, held: string, rest: string)
    requires FitsBuffer(front + held + rest + ">")
    ensures FitsBuffer(front) && FitsBuffer(front + held)
  {
    UnitsAppend(front, held);
    UnitsAppend(front + held, rest + ">");
    assert front + held + (rest + ">") == front + held + rest + ">";
  }

  /** A tag with one value that is no image: it is completed as it stands, even with brackets in the value. */
  lemma {:induction false} ValueTag(p: Policy, s: State, front: string, q: char, value: string, rest: string)
    requires Outside(s) && Front(front) && BareText(rest) && IsQuote(q) && q !in value
    requires p.isReference(front) ==> forall j | 0 <= j <= |value| :: !SafePrefix(p.lower(value[..j]))
    requires FitsBuffer(front + [q] + value + [q] + rest + ">")
    ensures var tag := front + [q] + value + [q] + rest + ">"; PushText(p, s, tag) == CompleteTag(p, s, tag)
  {
    hide Units, Append, PushText, CompleteTag, SafePrefix;
    var held := [q] + value + [q];
    assert front + [q] + value + [q] + rest + ">" == front + (held + (rest + ">")) == front + held + rest + ">";
    FrontsFit(front, held, rest);
    FrontPushed(p, s, front);
    assert "" + front == front;
    ChunkInvariance(p, s, front, held + (rest + ">"));
    var t := s.(tag := front);
    ChunkInvariance(p, t, held, rest + ">");
    if p.isReference(front) {
      ReferenceValue(p, t, q, value);
    } else {
      PlainValue(p, t, q, value);
    }
    var u := t.(tag := front + held);
    TagEnds(p, u, rest);
    SameCompletion(p, s, u, front + held + rest + ">");
  }

  // A text with one image

  const IMAGE: string := "<image href="

  function Buffered(written: string): string {
    IMAGE + ['"'] + written + "AAAA" + ['"'] + "/" + ">"
  }

  function ImageText(written: string, payload: string): string {
    "<svg>" + (IMAGE + ['"'] + written + payload + ['"'] + "/" + ">") + "</svg>"
  }

  /** The whole text is accepted exactly when its image is an encoding, whatever the size of the image. */
  lemma {:induction false} ImageTextAccepted(p: Policy, written: string, payload: string)
    requires p.inspect("<svg>") && p.inspect("</svg>") && p.inspect(Buffered(written)) && p.isReference(IMAGE)
    requires SpellsPrefix(p, written) && '"' !in written && '"' !in payload && |written| < 100
    ensures Validates(p, ImageText(written, payload)) <==> B.IsEncoding(payload)
  {
    hide Units, Append, PushText, CompleteTag, B.IsEncoding, SpellsPrefix, Classify, InspectStructure;
    var tag := IMAGE + ['"'] + written + payload + ['"'] + "/" + ">";
    RootTags();
    ImageClassified(written);
    BufferedFits(written);
    var s := NEW_VALIDATOR;
    var t := Opened(p, s);
    ChunkInvariance(p, s, "<svg>" + tag, "</svg>");
    ChunkInvariance(p, s, "<svg>", tag);
    ImageTag(p, t, IMAGE, '"', written, payload, "/");
    if B.IsEncoding(payload) {
      EmptyInside(p, t, Buffered(written));
      RootEnds(p, t);
    }
  }

  lemma Opened(p: Policy, s: State) returns (t: State)
    requires s == NEW_VALIDATOR && p.inspect("<svg>")
    ensures PushText(p, s, "<svg>") == Some(t) && t == NEW_VALIDATOR.(structure := Structure([ROOT], true, false))
  {
    hide PushText, Classify;
    RootTags();
    TagPushed(p, s, "<svg>");
    assert [] + [ROOT] == [ROOT];
    t := NEW_VALIDATOR.(structure := Structure([ROOT], true, false));
  }

  lemma EmptyInside(p: Policy, t: State, tag: string)
    requires t.structure == Structure([ROOT], true, false) && p.inspect(tag) && Outside(t)
    requires Classify(tag) == OpenTag("image", true)
    ensures CompleteTag(p, t, tag) == Some(t)
  {
    hide Classify;
  }

  lemma RootEnds(p: Policy, t: State)
    requires t == NEW_VALIDATOR.(structure := Structure([ROOT], true, false)) && p.inspect("</svg>")
    ensures PushText(p, t, "</svg>").Some? && Finishes(PushText(p, t, "</svg>").value)
  {
    hide PushText, Classify;
    RootTags();
    TagPushed(p, t, "</svg>");
    assert [ROOT][..0] == [];
  }

  lemma BufferedFits(written: string)
    requires |written| < 100
    ensures FitsBuffer(Buffered(written)) && Front(IMAGE) && BareText("/")
  {
    UnitsBounded(Buffered(written));
  }

  lemma ImageClassified(written: string)
    ensures Classify(Buffered(written)) == OpenTag("image", true)
  {
    hide Classify;
    var rest := " href=" + ['"'] + written + "AAAA" + ['"'] + "/";
    assert Buffered(written) == "<" + "image" + rest + ">";
    ImageIsWhole(rest);
    OpensAs("image", rest, 0);
    assert Lower("image") == "image";
  }

  lemma ImageIsWhole(rest: string)
    requires |rest| > 1 && rest[0] == ' ' && rest[|rest| - 1] == '/'
    ensures Whole("image") && !IsNameChar(rest[0]) && !IsSpace(rest[|rest| - 1])
  {
  }

  // Text between tags

  predicate SpaceOnly(text: string) {
    forall i | 0 <= i < |text| :: IsSpace(text[i])
  }

  /** Text inside the root is passed over, and outside it only white space is. */
  lemma {:induction false} TextBetween(p: Policy, s: State, text: string)
    requires Outside(s) && '<' !in text
    ensures PushText(p, s, text) == if s.structure.elements != [] || SpaceOnly(text) then Some(s) else None
    decreases |text|
  {
    if text != "" {
      assert text[0] in text && forall c | c in text[1..] :: c in text;
      TextBetween(p, s, text[1..]);
      assert SpaceOnly(text) <==> IsSpace(text[0]) && SpaceOnly(text[1..]) by {
        assert forall i | 0 < i < |text| :: text[i] == text[1..][i - 1];
      }
    }
  }

  /** An element with any text in it is accepted exactly when there is only white space around it. */
  lemma {:induction false} ContentAccepted(p: Policy, before: string, inside: string, after: string)
    requires p.inspect("<svg>") && p.inspect("</svg>")
    requires '<' !in before && '<' !in inside && '<' !in after
    ensures Validates(p, before + ("<svg>" + (inside + ("</svg>" + after)))) <==> SpaceOnly(before) && SpaceOnly(after)
  {
    var s := NEW_VALIDATOR;
    hide *;
    FreshOutside();
    var t := Opened(p, s);
    TextBetween(p, s, before);
    TextBetween(p, t, inside);
    RootEnds(p, t);
    var u := PushText(p, t, "</svg>").value;
    RootEnded(p, t, u);
    TextBetween(p, u, after);
    ChunkInvariance(p, s, before, "<svg>" + (inside + ("</svg>" + after)));
    ChunkInvariance(p, s, "<svg>", inside + ("</svg>" + after));
    ChunkInvariance(p, t, inside, "</svg>" + after);
    ChunkInvariance(p, t, "</svg>", after);
    ValidatesBy(p, before + ("<svg>" + (inside + ("</svg>" + after))));
  }

  lemma FreshOutside()
    ensures Outside(NEW_VALIDATOR) && NEW_VALIDATOR.structure.elements == []
    ensures var t := NEW_VALIDATOR.(structure := Structure([ROOT], true, false));
            Outside(t) && t.structure.elements != []
  {
  }

  lemma RootEnded(p: Policy, t: State, u: State)
    requires t == NEW_VALIDATOR.(structure := Structure([ROOT], true, false)) && p.inspect("</svg>")
    requires PushText(p, t, "</svg>") == Some(u)
    ensures Outside(u) && u.structure.elements == []
  {
    hide PushText, Classify;
    RootTags();
    TagPushed(p, t, "</svg>");
  }

  lemma ValidatesBy(p: Policy, text: string)
    ensures Validates(p, text) <==>
            PushText(p, NEW_VALIDATOR, text).Some? && Finishes(PushText(p, NEW_VALIDATOR, text).value)
  {
  }
}
