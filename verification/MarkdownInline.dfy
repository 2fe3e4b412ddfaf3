/**
 Inline ranges that keep their underscores: code spans, autolinks, link destinations and bare URLs.
 The linear scanner with its precomputed suffix tables is proved to return exactly the matches of
 the regular expression it stands for.
 */
module MarkdownInline {
  import opened Basics
  import opened Regex
  import opened Texts

  /** The Unicode classes \p{L}\p{N} and \s, of which only the ASCII part is fixed. */
  datatype Alphabet = Alphabet(isAlnum: char -> bool, isSpace: char -> bool) {
    ghost predicate Lawful() {
      && (forall c | c <= '~' :: isAlnum(c) <==> IsAsciiAlnum(c))
      && (forall c | ' ' < c <= '~' :: !isSpace(c))
      && isSpace(' ') && isSpace('\n')
    }
  }

  /** [a-z] with the flags i and u. */
  predicate IsSchemeStart(c: char) {
    IsLetter(c)
  }

  predicate IsSchemeChar(c: char) {
    IsSchemeStart(c) || '0' <= c <= '9' || c == '+' || c == '.' || c == '-'
  }

  /** Case-insensitive equality with a lower-case letter. */
  predicate FoldsTo(c: char, lower: char) {
    c == lower || ('A' <= c <= 'Z' && c as int + 32 == lower as int) || (lower == 's' && c == LONG_S)
      || (lower == 'k' && c == KELVIN)
  }

  function Folds(lower: char): char -> bool {
    c => FoldsTo(c, lower)
  }

  function StopParen(al: Alphabet): char -> bool {
    c => al.isSpace(c) || c == ')'
  }

  function StopAngle(al: Alphabet): char -> bool {
    c => al.isSpace(c) || c == '>'
  }

  // What the scanner decides at one position

  function CodeEnd(s: string, i: nat): (r: Option<nat>)
    ensures r.Some? ==> i < r.value <= |s| && s[i] == '`' && s[r.value - 1] == '`'
  {
    if !HasAt(Is('`'), s, i) then None
    else
      var close := First(Is('`'), s, i + 1);
      if i + 1 < close < |s| then Some(close + 1) else None
  }

  function AutolinkEnd(al: Alphabet, s: string, i: nat): (r: Option<nat>)
    ensures r.Some? ==> i < r.value <= |s| && s[i] == '<' && s[r.value - 1] == '>'
  {
    if !HasAt(Is('<'), s, i) || !HasAt(IsSchemeStart, s, i + 1) then None
    else
      var cursor := First(Not(IsSchemeChar), s, i + 2);
      if !HasAt(Is(':'), s, cursor) then None
      else
        var stop := First(StopAngle(al), s, cursor + 1);
        if HasAt(Is('>'), s, stop) then Some(stop + 1) else None
  }

  function LinkEnd(al: Alphabet, s: string, i: nat): (r: Option<nat>)
    ensures r.Some? ==> i < r.value <= |s| && s[i] == ']' && s[r.value - 1] == ')'
  {
    if !HasAt(Is(']'), s, i) || !HasAt(Is('('), s, i + 1) then None
    else
      var stop := First(StopParen(al), s, i + 2);
      if HasAt(Is(')'), s, stop) then Some(stop + 1) else None
  }

  predicate HttpAt(s: string, i: nat) {
    HasAt(Folds('h'), s, i) && HasAt(Folds('t'), s, i + 1) && HasAt(Folds('t'), s, i + 2) && HasAt(Folds('p'), s, i + 3)
  }

  predicate SlashesAt(s: string, i: nat) {
    HasAt(Is(':'), s, i) && HasAt(Is('/'), s, i + 1) && HasAt(Is('/'), s, i + 2)
  }

  /** The position after "http://" or "https://". */
  function SchemeEnd(s: string, i: nat): (r: Option<nat>)
    ensures r.Some? ==> i < r.value <= |s|
  {
    if !HttpAt(s, i) then None
    else
      var colon := if HasAt(Folds('s'), s, i + 4) then i + 5 else i + 4;
      if SlashesAt(s, colon) then Some(colon + 3) else None
  }

  function UrlEnd(al: Alphabet, s: string, i: nat): (r: Option<nat>)
    ensures r.Some? ==> i < r.value <= |s| && FoldsTo(s[i], 'h') && (r.value < |s| ==> al.isSpace(s[r.value]))
  {
    if !HasAt(Folds('h'), s, i) || HasAt(IsWordChar, s, i - 1) then None
    else
      match SchemeEnd(s, i)
      case None => None
      case Some(scheme) => if First(al.isSpace, s, scheme) > scheme then Some(First(al.isSpace, s, scheme)) else None
  }

  /** Where the protected range that starts at `i` ends. */
  function InlineEnd(al: Alphabet, s: string, i: nat): (r: Option<nat>)
    ensures r.Some? ==> i < r.value <= |s|
  {
    if HasAt(Is('`'), s, i) then CodeEnd(s, i)
    else if HasAt(Is('<'), s, i) then AutolinkEnd(al, s, i)
    else if HasAt(Is(']'), s, i) then LinkEnd(al, s, i)
    else UrlEnd(al, s, i)
  }

  /** The protected ranges from `i` on. */
  function Ranges(al: Alphabet, s: string, i: nat): (r: seq<(nat, nat)>)
    requires i <= |s|
    ensures Spaced(r, i, |s|)
    decreases |s| - i
  {
    if i == |s| then []
    else
      match InlineEnd(al, s, i)
      case Some(end) => [(i, end)] + Ranges(al, s, end)
      case None => Ranges(al, s, i + 1)
  }

  // The regular expression

  function CodeSpan(): Regex {
    Then(One(Is('`')), Then(Plus(One(Not(Is('`')))), One(Is('`'))))
  }

  function AngleBody(al: Alphabet): Regex {
    Then(Star(One(Not(StopAngle(al))), true), One(Is('>')))
  }

  function AfterStart(al: Alphabet): Regex {
    Then(Star(One(IsSchemeChar), true), Then(One(Is(':')), AngleBody(al)))
  }

  function Autolink(al: Alphabet): Regex {
    Then(One(Is('<')), Then(One(IsSchemeStart), AfterStart(al)))
  }

  function LinkDestination(al: Alphabet): Regex {
    Then(One(Is(']')), Then(One(Is('(')), Then(Star(One(Not(StopParen(al))), true), One(Is(')')))))
  }

  function Slashes(rest: Regex): Regex {
    Then(One(Is(':')), Then(One(Is('/')), Then(One(Is('/')), rest)))
  }

  function UrlBody(al: Alphabet): Regex {
    Plus(One(Not(al.isSpace)))
  }

  function UrlTail(al: Alphabet): Regex {
    Then(Optional(One(Folds('s'))), Slashes(UrlBody(al)))
  }

  function Http(rest: Regex): Regex {
    Then(One(Folds('h')), Then(One(Folds('t')), Then(One(Folds('t')), Then(One(Folds('p')), rest))))
  }

  function BareUrl(al: Alphabet): Regex {
    Then(Boundary(IsWordChar), Http(UrlTail(al)))
  }

  /** /`[^`]+`|<[a-z][a-z0-9+.-]*:[^>\s]*>|\]\([^)\s]*\)|\bhttps?:\/\/\S+/giu */
  function InlineRegex(al: Alphabet): Regex {
    Or(CodeSpan(), Or(Autolink(al), Or(LinkDestination(al), BareUrl(al))))
  }

  function Just(end: Option<nat>): seq<nat> {
    if end.Some? then [end.value] else []
  }

  lemma {:induction false} FirstExtends(f: char -> bool, g: char -> bool, s: string, i: nat)
    requires i <= |s| && forall c :: f(c) == g(c)
    ensures First(f, s, i) == First(g, s, i)
    decreases |s| - i
  {
    if i < |s| && !f(s[i]) {
      FirstExtends(f, g, s, i + 1);
    }
  }

  lemma CodeIs(s: string, i: nat)
    requires i <= |s|
    ensures Ends(CodeSpan(), s, i) == Just(CodeEnd(s, i))
  {
    hide Ends;
    var tick := Is('`');
    ThenOne(tick, Then(Plus(One(Not(tick))), One(tick)), s, i);
    if HasAt(tick, s, i) {
      PlusDelimited(Not(tick), tick, s, i + 1);
      FirstMoves(tick, s, i);
      if i + 1 < |s| {
        FirstMoves(tick, s, i + 1);
        FirstExtends(tick, Not(Not(tick)), s, i + 2);
      }
    }
  }

  lemma LinkIs(al: Alphabet, s: string, i: nat)
    requires i <= |s|
    ensures Ends(LinkDestination(al), s, i) == Just(LinkEnd(al, s, i))
  {
    hide Ends;
    var body := Then(Star(One(Not(StopParen(al))), true), One(Is(')')));
    ThenOne(Is(']'), Then(One(Is('(')), body), s, i);
    if HasAt(Is(']'), s, i) {
      ThenOne(Is('('), body, s, i + 1);
      if HasAt(Is('('), s, i + 1) {
        DelimitedOne(Not(StopParen(al)), Is(')'), s, i + 2);
        FirstExtends(StopParen(al), Not(Not(StopParen(al))), s, i + 2);
      }
    }
  }

  lemma AutolinkIs(al: Alphabet, s: string, i: nat)
    requires i <= |s|
    ensures Ends(Autolink(al), s, i) == Just(AutolinkEnd(al, s, i))
  {
    hide Ends, First, IsSchemeStart, IsSchemeChar;
    ThenOne(Is('<'), Then(One(IsSchemeStart), AfterStart(al)), s, i);
    if HasAt(Is('<'), s, i) {
      ThenOne(IsSchemeStart, AfterStart(al), s, i + 1);
      if HasAt(IsSchemeStart, s, i + 1) {
        NoColonInScheme();
        Delimited(IsSchemeChar, Is(':'), AngleBody(al), s, i + 2);
        if HasAt(Is(':'), s, First(Not(IsSchemeChar), s, i + 2)) {
          AngleBodyIs(al, s, First(Not(IsSchemeChar), s, i + 2));
        }
      }
    }
  }

  lemma NoColonInScheme()
    ensures forall c | IsSchemeChar(c) :: !Is(':')(c)
  {
  }

  lemma AngleBodyIs(al: Alphabet, s: string, cursor: nat)
    requires cursor < |s|
    ensures var stop := First(StopAngle(al), s, cursor + 1);
            Ends(AngleBody(al), s, cursor + 1) == if HasAt(Is('>'), s, stop) then [stop + 1] else []
  {
    hide Ends;
    DelimitedOne(Not(StopAngle(al)), Is('>'), s, cursor + 1);
    FirstExtends(StopAngle(al), Not(Not(StopAngle(al))), s, cursor + 1);
  }

  lemma SlashesAre(rest: Regex, s: string, i: nat)
    requires i <= |s|
    ensures Ends(Slashes(rest), s, i) == if SlashesAt(s, i) then Ends(rest, s, i + 3) else []
  {
    ThenOne(Is(':'), Then(One(Is('/')), Then(One(Is('/')), rest)), s, i);
    if HasAt(Is(':'), s, i) {
      ThenOne(Is('/'), Then(One(Is('/')), rest), s, i + 1);
      if HasAt(Is('/'), s, i + 1) {
        ThenOne(Is('/'), rest, s, i + 2);
      }
    }
  }

  /** The optional s of "https?": giving it back cannot help, since the colon is not an s. */
  lemma OptionalS(rest: Regex, s: string, i: nat)
    requires i <= |s|
    ensures var colon := if HasAt(Folds('s'), s, i) then i + 1 else i;
            Ends(Then(Optional(One(Folds('s'))), Slashes(rest)), s, i) == Ends(Slashes(rest), s, colon)
  {
    var tail := Slashes(rest);
    if HasAt(Folds('s'), s, i) {
      assert Ends(Optional(One(Folds('s'))), s, i) == [i + 1, i];
      SlashesAre(rest, s, i);
      assert [i + 1, i][1..] == [i];
      OneStart(tail, s, i, i);
      assert EndsAll(tail, s, i, [i + 1, i]) == Ends(tail, s, i + 1) + EndsAll(tail, s, i, [i]);
    } else {
      assert Ends(Optional(One(Folds('s'))), s, i) == [i];
      OneStart(tail, s, i, i);
    }
  }

  lemma HttpIs(rest: Regex, s: string, i: nat)
    requires i <= |s|
    ensures Ends(Http(rest), s, i) == if HttpAt(s, i) then Ends(rest, s, i + 4) else []
  {
    ThenOne(Folds('h'), Then(One(Folds('t')), Then(One(Folds('t')), Then(One(Folds('p')), rest))), s, i);
    if HasAt(Folds('h'), s, i) {
      ThenOne(Folds('t'), Then(One(Folds('t')), Then(One(Folds('p')), rest)), s, i + 1);
      if HasAt(Folds('t'), s, i + 1) {
        ThenOne(Folds('t'), Then(One(Folds('p')), rest), s, i + 2);
        if HasAt(Folds('t'), s, i + 2) {
          ThenOne(Folds('p'), rest, s, i + 3);
        }
      }
    }
  }

  /** The regular expression prefers the longest URL, up to the next white space. */
  lemma UrlIs(al: Alphabet, s: string, i: nat)
    requires i <= |s|
    ensures var ends := Ends(BareUrl(al), s, i);
            match UrlEnd(al, s, i)
            case None => ends == []
            case Some(end) => ends != [] && ends[0] == end
  {
    hide Ends, First, FoldsTo, IsWordChar, HttpAt, SlashesAt, UrlBody, UrlTail, Http;
    HttpIs(UrlTail(al), s, i);
    ThenBoundary(IsWordChar, Http(UrlTail(al)), s, i);
    if HttpAt(s, i) {
      HttpWord(s, i);
      UrlTailIs(al, s, i + 4);
      var colon := if HasAt(Folds('s'), s, i + 4) then i + 5 else i + 4;
      if SlashesAt(s, colon) {
        SlashesFit(s, colon);
        UrlBodyIs(al, s, colon + 3);
      }
    }
  }

  lemma HttpWord(s: string, i: nat)
    requires HttpAt(s, i)
    ensures i + 4 <= |s| && HasAt(Folds('h'), s, i) && HasAt(IsWordChar, s, i)
  {
  }

  lemma SlashesFit(s: string, i: nat)
    requires SlashesAt(s, i)
    ensures i + 3 <= |s|
  {
  }

  lemma UrlTailIs(al: Alphabet, s: string, i: nat)
    requires i <= |s|
    ensures var colon := if HasAt(Folds('s'), s, i) then i + 1 else i;
            Ends(UrlTail(al), s, i) == if SlashesAt(s, colon) then Ends(UrlBody(al), s, colon + 3) else []
  {
    hide Ends, FoldsTo, UrlBody;
    OptionalS(UrlBody(al), s, i);
    SlashesAre(UrlBody(al), s, if HasAt(Folds('s'), s, i) then i + 1 else i);
  }

  lemma UrlBodyIs(al: Alphabet, s: string, i: nat)
    requires i <= |s|
    ensures var ends, stop := Ends(UrlBody(al), s, i), First(al.isSpace, s, i);
            if stop > i then ends != [] && ends[0] == stop else ends == []
  {
    hide Ends;
    PlusClass(Not(al.isSpace), s, i);
    if HasAt(Not(al.isSpace), s, i) {
      FirstExtends(al.isSpace, Not(Not(al.isSpace)), s, i + 1);
    }
  }

  /** At every position the scanner decides like the regular expression. */
  lemma InlineIs(al: Alphabet, s: string, i: nat)
    requires i <= |s|
    ensures MatchAt(InlineRegex(al), s, i) == InlineEnd(al, s, i)
  {
    hide Ends, CodeSpan, Autolink, LinkDestination, BareUrl, CodeEnd, AutolinkEnd, LinkEnd, UrlEnd;
    CodeIs(s, i);
    AutolinkIs(al, s, i);
    LinkIs(al, s, i);
    UrlIs(al, s, i);
    NoneElsewhere(al, s, i);
    EitherEnds(LinkDestination(al), BareUrl(al), s, i);
    EitherEnds(Autolink(al), Or(LinkDestination(al), BareUrl(al)), s, i);
    EitherEnds(CodeSpan(), Or(Autolink(al), Or(LinkDestination(al), BareUrl(al))), s, i);
  }

  lemma NoneElsewhere(al: Alphabet, s: string, i: nat)
    ensures !HasAt(Is('`'), s, i) ==> CodeEnd(s, i) == None
    ensures !HasAt(Is('<'), s, i) ==> AutolinkEnd(al, s, i) == None
    ensures !HasAt(Is(']'), s, i) ==> LinkEnd(al, s, i) == None
    ensures HasAt(Is('`'), s, i) || HasAt(Is('<'), s, i) || HasAt(Is(']'), s, i) ==> UrlEnd(al, s, i) == None
  {
  }

  /** The protected ranges are the matches of the regular expression, from every position on. */
  lemma {:induction false} RangesAre(al: Alphabet, s: string, i: nat)
    requires i <= |s|
    ensures Matches(InlineRegex(al), s, i) == Ranges(al, s, i)
    decreases |s| - i
  {
    hide InlineEnd, InlineRegex;
    InlineIs(al, s, i);
    match InlineEnd(al, s, i)
    case Some(end) => RangesAre(al, s, end);
    case None =>
      if i < |s| {
        RangesAre(al, s, i + 1);
      }
  }

  // The linear scanner

  /** The table holds the next stop of every position from `from` on. */
  ghost predicate Tabulates(stops: array<nat>, stop: char -> bool, s: string, from: nat)
    reads stops
  {
    stops.Length == |s| + 1 && forall i | from <= i <= |s| :: stops[i] == First(stop, s, i)
  }

  /** The three tables, filled backwards: the next parenthesis, angle or white-space stop. */
  method StopTables(al: Alphabet, line: string)
    returns (parenStop: array<nat>, angleStop: array<nat>, spaceStop: array<nat>)
    ensures Tabulates(parenStop, StopParen(al), line, 0)
    ensures Tabulates(angleStop, StopAngle(al), line, 0)
    ensures Tabulates(spaceStop, al.isSpace, line, 0)
  {
    hide First;
    var length := |line|;
    parenStop := new nat[length + 1](_ => length);
    angleStop := new nat[length + 1](_ => length);
    spaceStop := new nat[length + 1](_ => length);
    var index := length;
    while index > 0
      invariant 0 <= index <= length
      invariant Tabulates(parenStop, StopParen(al), line, index)
      invariant Tabulates(angleStop, StopAngle(al), line, index)
      invariant Tabulates(spaceStop, al.isSpace, line, index)
    {
      index := index - 1;
      var c := line[index];
      var space := al.isSpace(c);
      FillStop(spaceStop, al.isSpace, line, index, space);
      FillStop(parenStop, StopParen(al), line, index, space || c == ')');
      FillStop(angleStop, StopAngle(al), line, index, space || c == '>');
    }
  }

  /** One entry of a table: this position, or the stop of the next. */
  method FillStop(stops: array<nat>, ghost stop: char -> bool, line: string, index: nat, here: bool)
    requires index < |line| && here == stop(line[index]) && Tabulates(stops, stop, line, index + 1)
    modifies stops
    ensures Tabulates(stops, stop, line, index)
  {
    FirstMoves(stop, line, index);
    stops[index] := if here then index else stops[index + 1];
  }

  /** How many of the four letters of "http" stand at `start`. */
  method MatchHttp(line: string, start: nat) returns (matched: bool)
    requires start <= |line|
    ensures matched == HttpAt(line, start)
  {
    hide FoldsTo;
    var cursor := start;
    var http := "http";
    while cursor - start < 4
      invariant start <= cursor <= start + 4 && cursor <= |line|
      invariant forall k | start <= k < cursor :: FoldsTo(line[k], http[k - start])
    {
      if cursor >= |line| || !FoldsTo(line[cursor], http[cursor - start]) {
        assert !HasAt(Folds(http[cursor - start]), line, cursor);
        return false;
      }
      cursor := cursor + 1;
    }
    assert FoldsTo(line[start], http[0]) && FoldsTo(line[start + 1], http[1]);
    assert FoldsTo(line[start + 2], http[2]) && FoldsTo(line[start + 3], http[3]);
    return true;
  }

  lemma SlashesSpelled(line: string, i: nat)
    ensures SlashesAt(line, i) <==> i + 3 <= |line| && line[i..i + 3] == "://"
  {
    if i + 3 <= |line| {
      var three := line[i..i + 3];
      assert three[0] == line[i] && three[1] == line[i + 1] && three[2] == line[i + 2];
    }
  }

  /** The index after "http://" or "https://" at `start`, or -1. */
  method MatchHttpScheme(line: string, start: nat) returns (r: int)
    requires start <= |line|
    ensures r == match SchemeEnd(line, start) case None => -1 case Some(end) => end
  {
    hide FoldsTo, HttpAt, SlashesAt;
    var matched := MatchHttp(line, start);
    if !matched {
      return -1;
    }
    HttpFits(line, start);
    var cursor := start + 4;
    if cursor < |line| && FoldsTo(line[cursor], 's') {
      cursor := cursor + 1;
    }
    SlashesSpelled(line, cursor);
    if cursor + 3 <= |line| && line[cursor..cursor + 3] == "://" {
      return cursor + 3;
    }
    return -1;
  }

  /** The position after the scheme characters of "<scheme:". */
  method SkipScheme(line: string, start: nat) returns (cursor: nat)
    requires start <= |line|
    ensures cursor == First(Not(IsSchemeChar), line, start)
  {
    cursor := start;
    while cursor < |line| && IsSchemeChar(line[cursor])
      invariant start <= cursor <= |line|
      invariant First(Not(IsSchemeChar), line, start) == First(Not(IsSchemeChar), line, cursor)
    {
      cursor := cursor + 1;
    }
  }

  lemma HttpFits(s: string, i: nat)
    requires HttpAt(s, i)
    ensures i + 4 <= |s|
  {
  }

  lemma FirstMoves(has: char -> bool, s: string, i: nat)
    requires i < |s|
    ensures First(has, s, i) == if has(s[i]) then i else First(has, s, i + 1)
  {
  }

  lemma {:induction false} FirstLater(has: char -> bool, s: string, i: nat, j: nat)
    requires i <= j <= |s|
    ensures First(has, s, i) == |s| ==> First(has, s, j) == |s|
    ensures i < j && First(has, s, i + 1) == |s| ==> First(has, s, j) == |s|
  {
    if First(has, s, j) < |s| {
      assert has(s[First(has, s, j)]);
    }
  }

  lemma RangesTurn(al: Alphabet, s: string, i: nat, done: seq<(nat, nat)>)
    requires i < |s|
    ensures done + Ranges(al, s, i)
            == match InlineEnd(al, s, i)
               case None => done + Ranges(al, s, i + 1)
               case Some(end) => done + [(i, end)] + Ranges(al, s, end)
  {
    hide InlineEnd;
    match InlineEnd(al, s, i)
    case None =>
    case Some(end) => assert done + ([(i, end)] + Ranges(al, s, end)) == done + [(i, end)] + Ranges(al, s, end);
  }

  method AutolinkByTable(al: Alphabet, line: string, index: nat, angleStop: array<nat>) returns (end: int)
    requires index + 1 < |line| && line[index] == '<' && IsSchemeStart(line[index + 1])
    requires Tabulates(angleStop, StopAngle(al), line, 0)
    ensures end == match AutolinkEnd(al, line, index) case None => -1 case Some(e) => e
  {
    hide First;
    var cursor := SkipScheme(line, index + 2);
    if cursor < |line| && line[cursor] == ':' {
      var stop := angleStop[cursor + 1];
      if stop < |line| && line[stop] == '>' {
        return stop + 1;
      }
    }
    return -1;
  }

  method LinkByTable(al: Alphabet, line: string, index: nat, parenStop: array<nat>) returns (end: int)
    requires index + 1 < |line| && line[index] == ']' && line[index + 1] == '('
    requires Tabulates(parenStop, StopParen(al), line, 0)
    ensures end == match LinkEnd(al, line, index) case None => -1 case Some(e) => e
  {
    hide First;
    var stop := parenStop[index + 2];
    if stop < |line| && line[stop] == ')' {
      return stop + 1;
    }
    return -1;
  }

  method UrlByTable(al: Alphabet, line: string, index: nat, spaceStop: array<nat>) returns (end: int)
    requires index < |line| && FoldsTo(line[index], 'h') && !(index > 0 && IsWordChar(line[index - 1]))
    requires Tabulates(spaceStop, al.isSpace, line, 0)
    ensures end == match UrlEnd(al, line, index) case None => -1 case Some(e) => e
  {
    hide First, SchemeEnd;
    var scheme := MatchHttpScheme(line, index);
    if 0 < scheme < |line| && spaceStop[scheme] > scheme {
      return spaceStop[scheme];
    }
    return -1;
  }

  /** The scanner returns the leftmost non-overlapping matches of the regular expression. */
  method ProtectedInlineRanges(al: Alphabet, line: string) returns (ranges: seq<(nat, nat)>)
    ensures ranges == Ranges(al, line, 0) == Matches(InlineRegex(al), line, 0)
  {
    hide Ends, Matches, InlineRegex, First, Ranges, Tabulates, AutolinkEnd, LinkEnd, UrlEnd;
    RangesAre(al, line, 0);
    var length := |line|;
    var parenStop, angleStop, spaceStop := StopTables(al, line);
    ranges := [];
    var backticksExhausted := false;
    var index := 0;
    while index < length
      invariant 0 <= index <= length
      invariant ranges + Ranges(al, line, index) == Ranges(al, line, 0)
      invariant backticksExhausted ==> First(Is('`'), line, index) == length
      invariant Tabulates(parenStop, StopParen(al), line, 0) && Tabulates(angleStop, StopAngle(al), line, 0)
      invariant Tabulates(spaceStop, al.isSpace, line, 0)
    {
      var c := line[index];
      var end := -1;
      FirstMoves(Is('`'), line, index);
      NoneElsewhere(al, line, index);
      if c == '`' && !backticksExhausted {
        var close := First(Is('`'), line, index + 1);
        if close == length {
          backticksExhausted := true;
        } else if close > index + 1 {
          end := close + 1;
        }
      } else if c == '<' && index + 1 < length && IsSchemeStart(line[index + 1]) {
        end := AutolinkByTable(al, line, index, angleStop);
      } else if c == ']' && index + 1 < length && line[index + 1] == '(' {
        end := LinkByTable(al, line, index, parenStop);
      } else if FoldsTo(c, 'h') && !(index > 0 && IsWordChar(line[index - 1])) {
        end := UrlByTable(al, line, index, spaceStop);
      } else {
        NothingStarts(al, line, index);
      }
      RangesTurn(al, line, index, ranges);
      FirstLater(Is('`'), line, index, if end > index then end else index + 1);
      if end > index {
        ranges := ranges + [(index, end)];
        index := end;
      } else {
        index := index + 1;
      }
    }
    RangesDone(al, line, ranges);
  }

  lemma NothingStarts(al: Alphabet, s: string, i: nat)
    requires i < |s|
    ensures !HasAt(IsSchemeStart, s, i + 1) ==> AutolinkEnd(al, s, i) == None
    ensures !HasAt(Is('('), s, i + 1) ==> LinkEnd(al, s, i) == None
    ensures !FoldsTo(s[i], 'h') || HasAt(IsWordChar, s, i - 1) ==> UrlEnd(al, s, i) == None
  {
  }

  lemma RangesDone(al: Alphabet, s: string, done: seq<(nat, nat)>)
    ensures done + Ranges(al, s, |s|) == done
  {
  }
}
