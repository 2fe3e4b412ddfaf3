/**
 How the SVG validator reads a completed tag: what its expressions for closing, opening and
 self-closing tags capture, and when the names of a pair agree as they are written.
 */
module SvgTags {
  import opened Basics
  import opened Texts
  import opened Regex
  import opened SvgStructure

  predicate IsNameStart(c: char) {
    IsLetter(c) || c == '_'
  }

  predicate IsNameChar(c: char) {
    IsWordChar(c) || c == ':' || c == '.' || c == '-'
  }

  /** [a-z_][\w:.-]* */
  function Name(): Regex {
    Then(One(IsNameStart), Star(One(IsNameChar), true))
  }

  function Spaces(): Regex {
    Star(One(IsSpace), true)
  }

  /** A slash and white space before the name of a closing tag; white space to the end after it. */
  function ClosingHead(): Regex {
    Then(One(Is('/')), Spaces())
  }

  function ClosingTail(): Regex {
    Then(Spaces(), AtEnd)
  }

  function SelfClosing(): Regex {
    Then(One(Is('/')), Then(Spaces(), AtEnd))
  }

  // What a group captures

  /** The first end of the group after which the rest matches. */
  function FirstWith(rest: Regex, s: string, ends: seq<nat>): (end: Option<nat>)
    requires forall e | e in ends :: e <= |s|
    ensures end.Some? ==> end.value in ends && Ends(rest, s, end.value) != []
  {
    if ends == [] then None
    else
      assert ends[0] in ends && forall e | e in ends[1..] :: e in ends;
      if Ends(rest, s, ends[0]) != [] then Some(ends[0]) else FirstWith(rest, s, ends[1..])
  }

  /**
   The group in the first match of the group and the rest from one of the starts, in the order the matcher
   tries them.
   */
  function Captured(group: Regex, rest: Regex, s: string, starts: seq<nat>): (range: Option<(nat, nat)>)
    requires forall e | e in starts :: e <= |s|
    ensures range.Some? ==> range.value.0 <= range.value.1 <= |s|
  {
    if starts == [] then None
    else
      assert starts[0] in starts && forall e | e in starts[1..] :: e in starts;
      match FirstWith(rest, s, Ends(group, s, starts[0]))
      case Some(end) => Some((starts[0], end))
      case None => Captured(group, rest, s, starts[1..])
  }

  lemma {:induction false} FirstWithMatches(rest: Regex, s: string, low: nat, ends: seq<nat>)
    requires low <= |s| && forall e | e in ends :: low <= e <= |s|
    ensures FirstWith(rest, s, ends).Some? <==> EndsAll(rest, s, low, ends) != []
    ensures FirstWith(rest, s, ends).Some? ==>
              EndsAll(rest, s, low, ends)[0] == Ends(rest, s, FirstWith(rest, s, ends).value)[0]
  {
    hide Ends;
    if ends != [] {
      assert ends[0] in ends && forall e | e in ends[1..] :: e in ends;
      FirstWithMatches(rest, s, low, ends[1..]);
    }
  }

  /** The group is captured exactly when the whole expression matches, and then the match goes on from its end. */
  lemma {:induction false} CapturedMatches(group: Regex, rest: Regex, s: string, low: nat, starts: seq<nat>)
    requires low <= |s| && forall e | e in starts :: low <= e <= |s|
    ensures var ends := EndsAll(Then(group, rest), s, low, starts);
            match Captured(group, rest, s, starts)
            case Some(range) =>
              ends != [] && range.0 in starts && range.1 in Ends(group, s, range.0)
                && [ends[0]] <= Ends(rest, s, range.1)
            case None => ends == []
  {
    if starts != [] {
      assert starts[0] in starts && forall e | e in starts[1..] :: e in starts;
      ThenEnds(group, rest, s, starts[0]);
      FirstWithMatches(rest, s, starts[0], Ends(group, s, starts[0]));
      hide Ends;
      CapturedMatches(group, rest, s, low, starts[1..]);
    }
  }

  // The reading of a tag

  /** The end of the text without its trailing white space, not before `from`. */
  function TrimmedEnd(s: string, from: nat): (end: nat)
    requires from <= |s|
    ensures from <= end <= |s| && (end > from ==> !IsSpace(s[end - 1])) && forall k | end <= k < |s| :: IsSpace(s[k])
    decreases |s|
  {
    if |s| > from && IsSpace(s[|s| - 1]) then TrimmedEnd(s[..|s| - 1], from) else |s|
  }

  function Trim(s: string): (r: string)
    ensures r != "" ==> !IsSpace(r[0]) && !IsSpace(r[|r| - 1])
  {
    var from := First(Not(IsSpace), s, 0);
    s[from..TrimmedEnd(s, from)]
  }

  /** A tag without its brackets and outer white space. */
  function Body(tag: string): (body: string)
    ensures body != "" ==> !IsSpace(body[0]) && !IsSpace(body[|body| - 1])
  {
    if |tag| < 2 then "" else Trim(tag[1..|tag| - 1])
  }

  /** Lower case, for the characters that names consist of. */
  function LowerChar(c: char): char {
    if 'A' <= c <= 'Z' then (c as int + 32) as char else if c == KELVIN then 'k' else c
  }

  function Lower(s: string): (r: string)
    ensures |r| == |s| && forall i | 0 <= i < |s| :: r[i] == LowerChar(s[i])
  {
    seq(|s|, i requires 0 <= i < |s| => LowerChar(s[i]))
  }

  predicate Declares(body: string) {
    body != "" && (body[0] == '!' || body[0] == '?')
  }

  function ClosingName(body: string): Option<string> {
    match Captured(Name(), ClosingTail(), body, Ends(ClosingHead(), body, 0))
    case Some(range) => Some(body[range.0..range.1])
    case None => None
  }

  function OpeningName(body: string): Option<string> {
    match FirstWith(Boundary(IsWordChar), body, Ends(Name(), body, 0))
    case Some(end) => Some(body[..end])
    case None => None
  }

  predicate EndsItself(body: string) {
    Matches(SelfClosing(), body, 0) != []
  }

  function Classify(tag: string): TagKind {
    var body := Body(tag);
    if Declares(body) then Declaration
    else if ClosingName(body).Some? then CloseTag(Lower(ClosingName(body).value))
    else if OpeningName(body).Some? then OpenTag(Lower(OpeningName(body).value), EndsItself(body))
    else Malformed
  }

  // What the expressions find

  function NameStop(s: string, i: nat): (stop: nat)
    requires i <= |s|
    ensures i <= stop <= |s| && (stop < |s| ==> !IsNameChar(s[stop])) && forall k | i <= k < stop :: IsNameChar(s[k])
  {
    First(Not(IsNameChar), s, i)
  }

  lemma NameEnds(s: string, i: nat)
    requires i <= |s|
    ensures Ends(Name(), s, i) == if HasAt(IsNameStart, s, i) then Down(NameStop(s, i + 1), i + 1) else []
  {
    hide Ends, Down, IsNameStart, IsNameChar;
    ThenOne(IsNameStart, Star(One(IsNameChar), true), s, i);
    if HasAt(IsNameStart, s, i) {
      GreedyClass(IsNameChar, s, i + 1);
    }
  }

  /** White space to the end. */
  predicate Rests(s: string, i: nat)
    requires i <= |s|
  {
    First(Not(IsSpace), s, i) == |s|
  }

  lemma TailEnds(s: string, i: nat)
    requires i <= |s|
    ensures Ends(ClosingTail(), s, i) == if Rests(s, i) then [|s|] else []
  {
    var stop := First(Not(IsSpace), s, i);
    ThenEnds(Spaces(), AtEnd, s, i);
    GreedyClass(IsSpace, s, i);
    forall k | i <= k < stop ensures Ends(AtEnd, s, k) == [] {
    }
    OnlyAtStop(AtEnd, s, i, i, stop);
  }

  /** The longest of the ends is the only one after which the rest can match. */
  lemma {:induction false} FirstIsLongest(rest: Regex, s: string, stop: nat, low: nat)
    requires low <= stop <= |s| && forall k | low <= k < stop :: Ends(rest, s, k) == []
    ensures FirstWith(rest, s, Down(stop, low)) == if Ends(rest, s, stop) != [] then Some(stop) else None
    decreases stop - low
  {
    hide Ends;
    if stop > low {
      NoneWith(rest, s, stop - 1, low);
      assert Down(stop, low)[1..] == Down(stop - 1, low);
    }
  }

  lemma {:induction false} NoneWith(rest: Regex, s: string, stop: nat, low: nat)
    requires low <= stop <= |s| && forall k | low <= k <= stop :: Ends(rest, s, k) == []
    ensures FirstWith(rest, s, Down(stop, low)) == None
    decreases stop - low
  {
    hide Ends;
    if stop > low {
      NoneWith(rest, s, stop - 1, low);
      assert Down(stop, low)[1..] == Down(stop - 1, low);
    }
  }

  lemma NotBoth(c: char)
    ensures IsNameChar(c) ==> !IsSpace(c) && c != '/'
    ensures IsNameStart(c) ==> IsWordChar(c) && IsNameChar(c)
  {
  }

  /** A name before the tail of a closing tag is everything up to that tail. */
  lemma NameBeforeTail(s: string, i: nat)
    requires i <= |s|
    ensures FirstWith(ClosingTail(), s, Ends(Name(), s, i))
            == if HasAt(IsNameStart, s, i) && Rests(s, NameStop(s, i + 1)) then Some(NameStop(s, i + 1)) else None
  {
    hide Ends, Down, IsNameStart, IsNameChar, IsSpace, ClosingTail, Name;
    NameEnds(s, i);
    if HasAt(IsNameStart, s, i) {
      var stop := NameStop(s, i + 1);
      forall k | i + 1 <= k < stop ensures Ends(ClosingTail(), s, k) == [] {
        TailEnds(s, k);
        NotBoth(s[k]);
      }
      FirstIsLongest(ClosingTail(), s, stop, i + 1);
      TailEnds(s, stop);
    }
  }

  /** No name starts at white space. */
  lemma {:induction false} OnlyAfterSpaces(s: string, stop: nat, low: nat)
    requires low <= stop <= |s| && forall k | low <= k < stop :: IsSpace(s[k])
    ensures Captured(Name(), ClosingTail(), s, Down(stop, low))
            == match FirstWith(ClosingTail(), s, Ends(Name(), s, stop)) case Some(e) => Some((stop, e))
              case None => None
    decreases stop - low
  {
    hide Ends, IsNameStart, IsNameChar, IsSpace, ClosingTail, Name;
    if stop > low {
      NoneAtSpaces(s, stop - 1, low);
      assert Down(stop, low)[1..] == Down(stop - 1, low);
    }
  }

  lemma {:induction false} NoneAtSpaces(s: string, stop: nat, low: nat)
    requires low <= stop < |s| && forall k | low <= k <= stop :: IsSpace(s[k])
    ensures Captured(Name(), ClosingTail(), s, Down(stop, low)) == None
    decreases stop - low
  {
    hide Ends, IsNameStart, IsNameChar, IsSpace, ClosingTail, Name;
    NameBeforeTail(s, stop);
    NotBoth(s[stop]);
    if stop > low {
      NoneAtSpaces(s, stop - 1, low);
      assert Down(stop, low)[1..] == Down(stop - 1, low);
    }
  }

  /** Where the name of a closing tag starts. */
  function AfterSlash(body: string): (i: nat)
    requires body != ""
    ensures 1 <= i <= |body| && (i < |body| ==> !IsSpace(body[i])) && forall k | 1 <= k < i :: IsSpace(body[k])
  {
    First(Not(IsSpace), body, 1)
  }

  /** A closing tag is a slash, white space and one whole name; that name is captured. */
  lemma ClosingIs(body: string)
    requires body != "" ==> !IsSpace(body[|body| - 1])
    ensures var closes := HasAt(Is('/'), body, 0) && HasAt(IsNameStart, body, AfterSlash(body))
                          && NameStop(body, AfterSlash(body) + 1) == |body|;
            ClosingName(body) == if closes then Some(body[AfterSlash(body)..]) else None
  {
    hide Ends, Down, IsNameStart, IsNameChar, IsSpace, ClosingTail, Name, Captured, FirstWith;
    ThenOne(Is('/'), Spaces(), body, 0);
    if HasAt(Is('/'), body, 0) {
      var i := AfterSlash(body);
      GreedyClass(IsSpace, body, 1);
      OnlyAfterSpaces(body, i, 1);
      NameBeforeTail(body, i);
      if HasAt(IsNameStart, body, i) {
        var stop := NameStop(body, i + 1);
        assert Rests(body, stop) <==> stop == |body|;
        assert body[..|body|] == body;
      }
    } else {
      assert Captured(Name(), ClosingTail(), body, []) == None by { NothingCaptured(body); }
    }
  }

  lemma NothingCaptured(s: string)
    ensures Captured(Name(), ClosingTail(), s, []) == None
  {
  }

  /** The end of the last word character before `stop`. */
  function LastWord(s: string, stop: nat): (end: nat)
    requires 1 <= stop <= |s| && IsWordChar(s[0])
    ensures 1 <= end <= stop && IsWordChar(s[end - 1]) && forall k | end <= k < stop :: !IsWordChar(s[k])
    decreases stop
  {
    if IsWordChar(s[stop - 1]) then stop else LastWord(s, stop - 1)
  }

  lemma {:induction false} LastBoundary(s: string, stop: nat)
    requires 1 <= stop <= |s| && IsWordChar(s[0]) && !HasAt(IsWordChar, s, stop)
    ensures FirstWith(Boundary(IsWordChar), s, Down(stop, 1)) == Some(LastWord(s, stop))
    decreases stop
  {
    hide IsWordChar;
    if !IsWordChar(s[stop - 1]) {
      LastBoundary(s, stop - 1);
      assert Down(stop, 1)[1..] == Down(stop - 1, 1);
    }
  }

  /** An opening tag starts with a name; what is captured ends at the last word character of the name. */
  lemma OpeningIs(body: string)
    ensures OpeningName(body) == if HasAt(IsNameStart, body, 0) then Some(body[..LastWord(body, NameStop(body, 1))])
            else None
  {
    hide Ends, Down, IsNameChar, IsWordChar, Name, FirstWith;
    NameEnds(body, 0);
    if HasAt(IsNameStart, body, 0) {
      var stop := NameStop(body, 1);
      if stop < |body| {
        WordIsName(body[stop]);
      }
      NotBoth(body[0]);
      LastBoundary(body, stop);
    } else {
      assert FirstWith(Boundary(IsWordChar), body, []) == None by { NothingFirst(body); }
    }
  }

  lemma NothingFirst(s: string)
    ensures FirstWith(Boundary(IsWordChar), s, []) == None
  {
  }

  lemma WordIsName(c: char)
    ensures IsWordChar(c) ==> IsNameChar(c)
  {
  }

  lemma {:induction false} SelfClosingFrom(s: string, i: nat)
    requires i < |s| && !IsSpace(s[|s| - 1])
    ensures Matches(SelfClosing(), s, i) != [] <==> s[|s| - 1] == '/'
    decreases |s| - i
  {
    hide IsSpace, Ends;
    ThenOne(Is('/'), ClosingTail(), s, i);
    TailEnds(s, i + 1);
    if i + 1 < |s| {
      SelfClosingFrom(s, i + 1);
    } else {
      ThenOne(Is('/'), ClosingTail(), s, i + 1);
    }
  }

  /** A tag ends itself exactly when its body ends in a slash. */
  lemma SelfClosingIs(body: string)
    requires body != "" && !IsSpace(body[|body| - 1])
    ensures EndsItself(body) <==> body[|body| - 1] == '/'
  {
    SelfClosingFrom(body, 0);
  }

  // Names as they are written

  predicate StopsName(c: char) {
    IsSpace(c) || c == '/'
  }

  function NameFrom(body: string, i: nat): string
    requires i <= |body|
  {
    body[i..First(StopsName, body, i)]
  }

  /** The name in a tag as a reader of the markup finds it: up to white space or a slash. */
  function WrittenName(tag: string): string {
    var body := Body(tag);
    if HasAt(Is('/'), body, 0) then NameFrom(body, AfterSlash(body)) else NameFrom(body, 0)
  }

  /** A name that the opening expression captures completely. */
  predicate Whole(name: string) {
    name != "" && IsNameStart(name[0]) && IsWordChar(name[|name| - 1])
      && forall i | 0 <= i < |name| :: IsNameChar(name[i])
  }

  /** A closing tag counts with the name that is written in it. */
  lemma CloseNameWritten(tag: string)
    ensures Classify(tag).CloseTag? ==> Classify(tag).name == Lower(WrittenName(tag))
  {
    hide IsSpace, IsNameStart, IsNameChar, ClosingName, OpeningName, EndsItself, Body, Lower;
    var body := Body(tag);
    ClosingIs(body);
    if Classify(tag).CloseTag? {
      var i, stop := AfterSlash(body), First(StopsName, body, AfterSlash(body));
      NotBoth(body[i]);
      if stop < |body| {
        NotBoth(body[stop]);
      }
      assert body[..|body|] == body;
    }
  }

  /** An opening tag counts with the name that is written in it exactly when that name is whole. */
  lemma OpenNameWritten(tag: string)
    ensures Classify(tag).OpenTag? ==> (Classify(tag).name == Lower(WrittenName(tag)) <==> Whole(WrittenName(tag)))
  {
    hide IsSpace, IsNameStart, IsNameChar, IsWordChar, ClosingName, OpeningName, EndsItself, Body, LastWord, First;
    var body := Body(tag);
    OpeningIs(body);
    if Classify(tag).OpenTag? {
      NotBoth(body[0]);
      var inner, end, stop := NameStop(body, 1), LastWord(body, NameStop(body, 1)), First(StopsName, body, 0);
      if stop < inner {
        NotBoth(body[stop]);
      }
      assert WrittenName(tag) == body[..stop];
      if Whole(body[..stop]) {
        assert IsNameChar(body[..stop][stop - 1]) && IsWordChar(body[stop - 1]);
      }
    }
  }

  lemma {:induction false} TrimmedAlready(s: string)
    requires s != "" && !IsSpace(s[0]) && !IsSpace(s[|s| - 1])
    ensures Trim(s) == s
  {
    hide IsSpace;
    assert s[0..|s|] == s;
  }

  lemma BodyIs(body: string)
    requires body != "" && !IsSpace(body[0]) && !IsSpace(body[|body| - 1])
    ensures Body("<" + body + ">") == body
  {
    hide Trim, IsSpace;
    var tag := "<" + body + ">";
    assert tag[1..|tag| - 1] == body;
    TrimmedAlready(body);
  }

  /**
   The name that counts stops before characters of the name that are no word characters, and nothing
   says what comes after it: `<a->` and `<a+b>` count as `a`.
   */
  lemma OpensAs(name: string, rest: string, k: nat)
    requires Whole(name) && k <= |rest| && (forall i | 0 <= i < k :: IsNameChar(rest[i]) && !IsWordChar(rest[i]))
    requires (k < |rest| ==> !IsNameChar(rest[k])) && (rest != "" ==> !IsSpace(rest[|rest| - 1]))
    ensures Classify("<" + name + rest + ">") == OpenTag(Lower(name), rest != "" && rest[|rest| - 1] == '/')
  {
    hide IsSpace, IsNameStart, IsNameChar, IsWordChar, ClosingName, OpeningName, EndsItself, Body, LastWord, First;
    hide NameStop, Classify;
    var body, n := name + rest, |name|;
    NameEdges(name);
    hide Whole;
    BodyIs(body);
    assert "<" + body + ">" == "<" + name + rest + ">";
    ClosingIs(body);
    OpeningIs(body);
    SelfClosingIs(body);
    NameStops(name, rest, k);
    NameCaptured(name, rest, k);
    assert body[..n] == name;
    ClassifiedOpen("<" + body + ">", name);
  }

  lemma NameEdges(name: string)
    requires Whole(name)
    ensures name != "" && IsNameStart(name[0]) && IsWordChar(name[0]) && !IsSpace(name[0]) && name[0] !in "!?/"
    ensures !IsSpace(name[|name| - 1]) && name[|name| - 1] != '/' && IsWordChar(name[|name| - 1])
  {
    hide IsSpace, IsNameStart, IsNameChar, IsWordChar;
    NotBoth(name[0]);
    NotBoth(name[|name| - 1]);
    NoDeclaration(name[0]);
  }

  lemma NameStops(name: string, rest: string, k: nat)
    requires Whole(name) && k <= |rest| && (forall i | 0 <= i < k :: IsNameChar(rest[i]))
    requires k < |rest| ==> !IsNameChar(rest[k])
    ensures NameStop(name + rest, 1) == |name| + k
  {
    hide IsNameStart, IsNameChar, IsWordChar, First;
    var body, n, stop := name + rest, |name|, NameStop(name + rest, 1);
    assert forall i | 0 <= i < n :: body[i] == name[i];
    assert forall i | 0 <= i < |rest| :: body[n + i] == rest[i];
    assert forall i | n <= i < n + k :: body[i] == rest[i - n];
  }

  lemma NameCaptured(name: string, rest: string, k: nat)
    requires name != "" && IsWordChar(name[0]) && IsWordChar(name[|name| - 1]) && k <= |rest|
    requires forall i | 0 <= i < k :: !IsWordChar(rest[i])
    ensures LastWord(name + rest, |name| + k) == |name|
  {
    hide IsWordChar, LastWord;
    var body, n := name + rest, |name|;
    var end := LastWord(body, n + k);
    assert body[n - 1] == name[n - 1];
    assert forall i | n <= i < n + k :: body[i] == rest[i - n];
  }

  lemma ClassifiedOpen(tag: string, name: string)
    requires Body(tag) != "" && Body(tag)[0] !in "!?" && ClosingName(Body(tag)) == None
    requires OpeningName(Body(tag)) == Some(name)
    ensures Classify(tag) == OpenTag(Lower(name), EndsItself(Body(tag)))
  {
    hide Body, ClosingName, OpeningName, EndsItself;
  }

  lemma NoDeclaration(c: char)
    ensures IsNameStart(c) ==> c != '!' && c != '?' && c != '/'
    ensures !IsSpace('/') && !IsNameStart('/')
  {
  }

  lemma ClosesAs(name: string)
    requires name != "" && IsNameStart(name[0]) && forall i | 0 <= i < |name| :: IsNameChar(name[i])
    ensures Classify("</" + name + ">") == CloseTag(Lower(name))
  {
    hide IsSpace, IsNameStart, IsNameChar, IsWordChar, ClosingName, OpeningName, EndsItself, Body, First, Lower;
    var body, n := "/" + name, |name|;
    NotBoth(name[0]);
    NotBoth(name[n - 1]);
    NoDeclaration('/');
    BodyIs(body);
    assert "<" + body + ">" == "</" + name + ">";
    assert body[1] == name[0];
    SlashThenName(name);
    assert body[1..] == name;
    ClosingIs(body);
  }

  lemma WrittenOpen(name: string)
    requires name != "" && forall i | 0 <= i < |name| :: !StopsName(name[i])
    ensures WrittenName("<" + name + ">") == name
  {
    hide IsSpace, Body;
    BodyIs(name);
    assert name[0..|name|] == name;
  }

  lemma WrittenClose(name: string)
    requires name != "" && forall i | 0 <= i < |name| :: !StopsName(name[i])
    ensures WrittenName("</" + name + ">") == name
  {
    hide IsSpace, Body, First;
    var body := "/" + name;
    NoDeclaration('/');
    assert forall i | 1 <= i < |body| :: body[i] == name[i - 1];
    BodyIs(body);
    assert !StopsName(body[1]);
    assert "<" + body + ">" == "</" + name + ">" && AfterSlash(body) == 1 && body[1..|body|] == name;
  }

  lemma SlashThenName(name: string)
    requires name != "" && !IsSpace(name[0]) && forall i | 0 <= i < |name| :: IsNameChar(name[i])
    ensures AfterSlash("/" + name) == 1 && NameStop("/" + name, 2) == |name| + 1
  {
    hide IsSpace, IsNameChar, First;
    var body, stop := "/" + name, NameStop("/" + name, 2);
    assert body[1] == name[0] && forall i | 2 <= i < |body| :: body[i] == name[i - 1];
    assert forall i | 2 <= i < |body| :: IsNameChar(body[i]);
  }

  // Nesting by the names that count and by the names as written

  function Classified(tags: seq<string>): (kinds: seq<TagKind>)
    ensures |kinds| == |tags|
  {
    seq(|tags|, i requires 0 <= i < |tags| => Classify(tags[i]))
  }

  function WrittenKind(tag: string): TagKind {
    match Classify(tag)
    case CloseTag(_) => CloseTag(Lower(WrittenName(tag)))
    case OpenTag(_, selfClosing) => OpenTag(Lower(WrittenName(tag)), selfClosing)
    case kind => kind
  }

  function Written(tags: seq<string>): (kinds: seq<TagKind>)
    ensures |kinds| == |tags|
  {
    seq(|tags|, i requires 0 <= i < |tags| => WrittenKind(tags[i]))
  }

  /** The open elements after the tags, or None when a closing tag does not name the innermost one. */
  function Nest(open: seq<string>, kinds: seq<TagKind>): Option<seq<string>>
    decreases |kinds|
  {
    if kinds == [] then Some(open)
    else
      match kinds[0]
      case OpenTag(name, selfClosing) => Nest(if selfClosing then open else open + [name], kinds[1..])
      case CloseTag(name) =>
        if open == [] || open[|open| - 1] != name then None else Nest(open[..|open| - 1], kinds[1..])
      case Declaration => None
      case Malformed => None
  }

  /** An element that is left open has a whole name. */
  predicate OpensWhole(tag: string) {
    Classify(tag).OpenTag? && !Classify(tag).selfClosing ==> Whole(WrittenName(tag))
  }

  lemma {:induction false} InspectedNests(s: Structure, kinds: seq<TagKind>)
    requires InspectAll(s, kinds).Some?
    ensures Nest(s.elements, kinds) == Some(InspectAll(s, kinds).value.elements)
    decreases |kinds|
  {
    if kinds != [] {
      InspectedNests(InspectStructure(s, kinds[0]).value, kinds[1..]);
    }
  }

  /** Once the open names differ somewhere, the element there cannot be closed in both readings. */
  lemma {:induction false} Diverge(open: seq<string>, other: seq<string>, at: nat, tags: seq<string>)
    requires |open| == |other| && at < |open| && open[at] != other[at] && Nest(open, Classified(tags)) == Some([])
    ensures Nest(other, Written(tags)) == None
    decreases |tags|
  {
    hide Classify, WrittenName, Lower;
    if tags != [] {
      var n := |open| - 1;
      assert Classified(tags)[1..] == Classified(tags[1..]) && Written(tags)[1..] == Written(tags[1..]);
      CloseNameWritten(tags[0]);
      match Classify(tags[0])
      case OpenTag(name, selfClosing) =>
        if selfClosing {
          Diverge(open, other, at, tags[1..]);
        } else {
          Diverge(open + [name], other + [Lower(WrittenName(tags[0]))], at, tags[1..]);
        }
      case CloseTag(name) =>
        if at < n {
          Diverge(open[..n], other[..n], at, tags[1..]);
        }
    }
  }

  lemma {:induction false} NestAlike(open: seq<string>, tags: seq<string>)
    requires Nest(open, Classified(tags)) == Some([])
    ensures Nest(open, Written(tags)) == Some([]) <==> forall i | 0 <= i < |tags| :: OpensWhole(tags[i])
    decreases |tags|
  {
    hide Classify, WrittenName, Lower, Whole;
    if tags != [] {
      assert Classified(tags)[1..] == Classified(tags[1..]) && Written(tags)[1..] == Written(tags[1..]);
      assert forall i | 1 <= i < |tags| :: tags[i] == tags[1..][i - 1];
      CloseNameWritten(tags[0]);
      OpenNameWritten(tags[0]);
      match Classify(tags[0])
      case OpenTag(name, selfClosing) =>
        var written := Lower(WrittenName(tags[0]));
        if selfClosing {
          NestAlike(open, tags[1..]);
        } else if name == written {
          NestAlike(open + [name], tags[1..]);
        } else {
          Diverge(open + [name], open + [written], |open|, tags[1..]);
          assert !OpensWhole(tags[0]);
        }
      case CloseTag(name) =>
        NestAlike(open[..|open| - 1], tags[1..]);
    }
  }

  /**
   Tags that the structure check accepts are well nested by their written names exactly when every
   element that is left open has a whole name.
   */
  lemma NestedAsWritten(tags: seq<string>)
    requires AcceptsTags(Classified(tags))
    ensures Nest([], Written(tags)) == Some([]) <==> forall i | 0 <= i < |tags| :: OpensWhole(tags[i])
  {
    hide Classify;
    InspectedNests(NO_ROOT, Classified(tags));
    NestAlike([], tags);
  }
}
