/**
 Escaping the intraword underscores of one text, outside its protected ranges: what the escape
 inserts, and why the text it returns has the same ranges and needs no further escape.
 */
module MarkdownEscape {
  import opened Basics
  import Bytes
  import opened Regex
  import opened MarkdownInline

  const UNDERSCORE: char := '_'
  const BACKSLASH: char := '\\'

  // The replacement

  /** /(?<=[\p{L}\p{N}])_+(?=[\p{L}\p{N}])/gu */
  function IntrawordRegex(al: Alphabet): Regex {
    Then(Behind(al.isAlnum), Then(Plus(One(Is(UNDERSCORE))), Ahead(al.isAlnum)))
  }

  /** "\\_" repeated. */
  function Escapes(n: nat): (r: string)
    ensures |r| == 2 * n
  {
    if n == 0 then "" else [BACKSLASH, UNDERSCORE] + Escapes(n - 1)
  }

  /** The text from `i` on with every run of `runs` replaced. */
  function Replaced(text: string, i: nat, runs: seq<(nat, nat)>): string
    requires i <= |text| && Spaced(runs, i, |text|)
    decreases |runs|
  {
    if runs == [] then text[i..]
    else text[i..runs[0].0] + Escapes(runs[0].1 - runs[0].0) + Replaced(text, runs[0].1, runs[1..])
  }

  function EscapeText(al: Alphabet, text: string): string {
    Replaced(text, 0, Matches(IntrawordRegex(al), text, 0))
  }

  /** The pieces of a line: text between the ranges is escaped, the ranges are copied. */
  function EscapedPieces(al: Alphabet, line: string, last: nat, ranges: seq<(nat, nat)>): string
    requires last <= |line| && Spaced(ranges, last, |line|)
    decreases |ranges|
  {
    if ranges == [] then EscapeText(al, line[last..])
    else
      EscapeText(al, line[last..ranges[0].0]) + line[ranges[0].0..ranges[0].1]
      + EscapedPieces(al, line, ranges[0].1, ranges[1..])
  }

  function EscapeLine(al: Alphabet, line: string): string {
    if UNDERSCORE !in line then line else EscapedPieces(al, line, 0, Ranges(al, line, 0))
  }

  /** The loop over the ranges of a line. */
  method EscapeOneLine(al: Alphabet, line: string) returns (result: string)
    ensures result == EscapeLine(al, line)
  {
    hide EscapeText, Matches, Ranges, InlineRegex;
    if UNDERSCORE !in line {
      return line;
    }
    result := "";
    var last := 0;
    var ranges := ProtectedInlineRanges(al, line);
    var k := 0;
    assert ranges[0..] == ranges;
    while k < |ranges|
      invariant 0 <= k <= |ranges| && last <= |line| && Spaced(ranges[k..], last, |line|)
      invariant result + EscapedPieces(al, line, last, ranges[k..]) == EscapedPieces(al, line, 0, ranges)
    {
      var start, end := ranges[k].0, ranges[k].1;
      PiecesTurn(al, line, last, ranges[k..], result);
      assert ranges[k..][1..] == ranges[k + 1..];
      result := result + EscapeText(al, line[last..start]);
      result := result + line[start..end];
      last := end;
      k := k + 1;
    }
    assert ranges[k..] == [];
    result := result + EscapeText(al, line[last..]);
  }

  lemma PiecesTurn(al: Alphabet, line: string, last: nat, ranges: seq<(nat, nat)>, done: string)
    requires ranges != [] && last <= |line| && Spaced(ranges, last, |line|)
    ensures done + EscapedPieces(al, line, last, ranges)
            == done + EscapeText(al, line[last..ranges[0].0]) + line[ranges[0].0..ranges[0].1]
               + EscapedPieces(al, line, ranges[0].1, ranges[1..])
  {
    hide EscapeText;
    var a, b, c := EscapeText(al, line[last..ranges[0].0]), line[ranges[0].0..ranges[0].1],
      EscapedPieces(al, line, ranges[0].1, ranges[1..]);
    assert done + (a + b + c) == done + a + b + c;
  }

  // The run of underscores that decides

  /** The end of the run of underscores at `i`. */
  function RunEnd(s: string, i: nat): (r: nat)
    requires i <= |s|
    ensures i <= r <= |s| && (forall k | i <= k < r :: s[k] == UNDERSCORE) && (r < |s| ==> s[r] != UNDERSCORE)
    ensures i < |s| && s[i] == UNDERSCORE ==> i < r
  {
    First(Not(Is(UNDERSCORE)), s, i)
  }

  /** A run at `i` has a letter or digit on both sides. */
  predicate Intraword(al: Alphabet, s: string, i: nat)
    requires i < |s|
  {
    && s[i] == UNDERSCORE && HasAt(al.isAlnum, s, i - 1)
    && HasAt(al.isAlnum, s, RunEnd(s, i))
  }

  lemma IntrawordIs(al: Alphabet, s: string, i: nat)
    requires al.Lawful() && i <= |s|
    ensures MatchAt(IntrawordRegex(al), s, i)
            == if i < |s| && Intraword(al, s, i) then Some(RunEnd(s, i)) else None
  {
    var run := Plus(One(Is(UNDERSCORE)));
    var ahead := Ahead(al.isAlnum);
    ThenBehind(al.isAlnum, Then(run, ahead), s, i);
    ThenEnds(run, ahead, s, i);
    PlusClass(Is(UNDERSCORE), s, i);
    if HasAt(Is(UNDERSCORE), s, i) {
      var stop := First(Not(Is(UNDERSCORE)), s, i + 1);
      forall k | i + 1 <= k < stop ensures Ends(ahead, s, k) == [] {
        assert s[k] == UNDERSCORE;
      }
      OnlyAtStop(ahead, s, i, i + 1, stop);
    }
  }

  /** Position `i` is not inside a run of underscores that began before it. */
  predicate RunStart(s: string, i: nat) {
    i == 0 || i >= |s| || s[i] != UNDERSCORE || s[i - 1] != UNDERSCORE
  }

  /** What one step of the escape writes: a run of underscores, escaped or not, or another character. */
  function Piece(al: Alphabet, s: string, i: nat): string
    requires i < |s|
  {
    if s[i] != UNDERSCORE then [s[i]]
    else if Intraword(al, s, i) then Escapes(RunEnd(s, i) - i)
    else s[i..RunEnd(s, i)]
  }

  function AfterPiece(s: string, i: nat): (r: nat)
    requires i < |s|
    ensures i < r <= |s|
  {
    if s[i] == UNDERSCORE then RunEnd(s, i) else i + 1
  }

  /** The escaped text from `i` on, run by run. */
  function Texted(al: Alphabet, s: string, i: nat): string
    requires i <= |s|
    decreases |s| - i
  {
    if i == |s| then "" else Piece(al, s, i) + Texted(al, s, AfterPiece(s, i))
  }

  lemma SpacedWider(runs: seq<(nat, nat)>, i: nat, j: nat, n: nat)
    requires i <= j && Spaced(runs, j, n)
    ensures Spaced(runs, i, n)
  {
  }

  lemma {:induction false} ReplacedFrom(text: string, i: nat, j: nat, runs: seq<(nat, nat)>)
    requires i <= j <= |text| && Spaced(runs, j, |text|)
    ensures Spaced(runs, i, |text|) && Replaced(text, i, runs) == text[i..j] + Replaced(text, j, runs)
  {
    hide Escapes;
    SpacedWider(runs, i, j, |text|);
    if runs == [] {
      assert text[i..] == text[i..j] + text[j..];
    } else {
      assert text[i..runs[0].0] == text[i..j] + text[j..runs[0].0];
      var rest := Replaced(text, runs[0].1, runs[1..]);
      hide *;
      FourPieces(text[i..j], text[j..runs[0].0], Escapes(runs[0].1 - runs[0].0), rest);
    }
  }

  lemma FourPieces(a: string, b: string, c: string, d: string)
    ensures a + b + c + d == a + (b + c + d)
  {
  }

  /** Inside a run nothing matches, since an underscore is no letter or digit. */
  lemma {:induction false} SkipRun(al: Alphabet, s: string, i: nat, stop: nat)
    requires al.Lawful() && i <= stop <= |s| && (forall k | i <= k < stop :: s[k] == UNDERSCORE)
    requires i < stop ==> !Intraword(al, s, i)
    ensures Matches(IntrawordRegex(al), s, i) == Matches(IntrawordRegex(al), s, stop)
    decreases stop - i
  {
    hide IntrawordRegex, MatchAt;
    if i < stop {
      IntrawordIs(al, s, i);
      SkipRun(al, s, i + 1, stop);
    }
  }

  lemma {:induction false} ReplacedIsTexted(al: Alphabet, s: string, i: nat)
    requires al.Lawful() && i <= |s| && RunStart(s, i)
    ensures Replaced(s, i, Matches(IntrawordRegex(al), s, i)) == Texted(al, s, i)
    decreases |s| - i
  {
    hide IntrawordRegex, MatchAt, Matches, Replaced, Piece, AfterPiece;
    if i < |s| {
      AfterPieceStarts(s, i);
      ReplacedIsTexted(al, s, AfterPiece(s, i));
      ReplacedTurn(al, s, i);
    } else {
      NothingLeft(al, s);
    }
  }

  lemma AfterPieceStarts(s: string, i: nat)
    requires i < |s|
    ensures RunStart(s, AfterPiece(s, i))
  {
  }

  /** One step of the search and of the replacement. */
  lemma ReplacedTurn(al: Alphabet, s: string, i: nat)
    requires al.Lawful() && i < |s|
    ensures var r, next := IntrawordRegex(al), AfterPiece(s, i);
            Replaced(s, i, Matches(r, s, i)) == Piece(al, s, i) + Replaced(s, next, Matches(r, s, next))
  {
    hide IntrawordRegex, MatchAt, Intraword, RunEnd, Matches, Replaced, Escapes;
    var r, next := IntrawordRegex(al), AfterPiece(s, i);
    MatchesTurn(al, s, i);
    if s[i] == UNDERSCORE && Intraword(al, s, i) {
      ReplacedRun(s, i, next, Matches(r, s, next));
    } else {
      ReplacedFrom(s, i, next, Matches(r, s, next));
      assert s[i..i + 1] == [s[i]];
    }
  }

  lemma {:induction false} ReplacedRun(s: string, i: nat, stop: nat, runs: seq<(nat, nat)>)
    requires i <= stop <= |s| && Spaced(runs, stop, |s|)
    ensures Spaced([(i, stop)] + runs, i, |s|)
    ensures Replaced(s, i, [(i, stop)] + runs) == Escapes(stop - i) + Replaced(s, stop, runs)
  {
    hide Escapes;
    var all := [(i, stop)] + runs;
    assert all[1..] == runs && all[0] == (i, stop);
    assert Replaced(s, i, all) == s[i..i] + Escapes(stop - i) + Replaced(s, stop, runs);
    assert s[i..i] == "";
  }

  lemma NothingLeft(al: Alphabet, s: string)
    requires al.Lawful()
    ensures Matches(IntrawordRegex(al), s, |s|) == [] && Replaced(s, |s|, []) == ""
  {
    IntrawordIs(al, s, |s|);
  }

  /** The next step of the search: an intraword run, or on to the end of the run or of the character. */
  lemma MatchesTurn(al: Alphabet, s: string, i: nat)
    requires al.Lawful() && i < |s|
    ensures var r, next := IntrawordRegex(al), AfterPiece(s, i);
            Matches(r, s, i) == if s[i] == UNDERSCORE && Intraword(al, s, i) then [(i, next)] + Matches(r, s, next)
              else Matches(r, s, next)
  {
    hide IntrawordRegex, MatchAt, Intraword, RunEnd;
    IntrawordIs(al, s, i);
    if s[i] != UNDERSCORE {
      NotIntraword(al, s, i);
    } else if !Intraword(al, s, i) {
      SkipRun(al, s, i, RunEnd(s, i));
    }
  }

  lemma NotIntraword(al: Alphabet, s: string, i: nat)
    requires i < |s| && s[i] != UNDERSCORE
    ensures !Intraword(al, s, i)
  {
  }

  lemma EscapeTextIs(al: Alphabet, text: string)
    requires al.Lawful()
    ensures EscapeText(al, text) == Texted(al, text, 0)
  {
    ReplacedIsTexted(al, text, 0);
  }

  // A line, position by position

  /** The escaped line from `i` on: protected ranges are copied, runs outside them are escaped if intraword. */
  function Escaped(al: Alphabet, s: string, i: nat): string
    requires i <= |s|
    decreases |s| - i
  {
    if i == |s| then ""
    else
      match InlineEnd(al, s, i)
      case Some(end) => s[i..end] + Escaped(al, s, end)
      case None => Piece(al, s, i) + Escaped(al, s, AfterPiece(s, i))
  }

  /** How protected ranges begin and end, as far as runs of underscores can tell. */
  lemma RangeEdges(al: Alphabet, s: string, i: nat)
    requires al.Lawful() && InlineEnd(al, s, i).Some?
    ensures s[i] != UNDERSCORE && s[i] != BACKSLASH
    ensures HasAt(Is(UNDERSCORE), s, i - 1) ==> !al.isAlnum(s[i])
    ensures var end := InlineEnd(al, s, i).value; end < |s| && s[end] == UNDERSCORE ==> !al.isAlnum(s[end - 1])
  {
    hide First, CodeEnd, AutolinkEnd, LinkEnd;
  }

  /** The bounds of the segment [last, stop): ranges or ends of the line, which no run crosses. */
  ghost predicate Segment(al: Alphabet, s: string, last: nat, stop: nat) {
    && last <= stop <= |s|
    && (last < stop && s[last] == UNDERSCORE ==> !HasAt(al.isAlnum, s, last - 1))
    && (stop < |s| ==> s[stop] != UNDERSCORE && (HasAt(Is(UNDERSCORE), s, stop - 1) ==> !al.isAlnum(s[stop])))
  }

  lemma {:induction false} FirstInSlice(has: char -> bool, s: string, last: nat, i: nat, stop: nat)
    requires last <= i <= stop <= |s| && (stop < |s| ==> has(s[stop]))
    ensures last + First(has, s[last..stop], i - last) == First(has, s, i)
    decreases stop - i
  {
    if i < stop {
      assert s[last..stop][i - last] == s[i];
      if !has(s[i]) {
        FirstInSlice(has, s, last, i + 1, stop);
      }
    }
  }

  /** Cut out of the line, a segment has the same intraword runs. */
  lemma IntrawordInSlice(al: Alphabet, s: string, last: nat, i: nat, stop: nat)
    requires al.Lawful() && Segment(al, s, last, stop) && last <= i < stop
    ensures Intraword(al, s[last..stop], i - last) == Intraword(al, s, i)
    ensures last + RunEnd(s[last..stop], i - last) == RunEnd(s, i)
  {
    FirstInSlice(Not(Is(UNDERSCORE)), s, last, i, stop);
    var end := RunEnd(s, i);
    assert s[last..stop][i - last] == s[i];
    if end < stop {
      assert s[last..stop][end - last] == s[end];
    } else if i < end {
      assert s[end - 1] == UNDERSCORE;
    }
    if i > last {
      assert s[last..stop][i - last - 1] == s[i - 1];
    }
  }

  /** Cut out of the line, the next step is the same. */
  lemma PieceInSlice(al: Alphabet, s: string, last: nat, i: nat, stop: nat)
    requires al.Lawful() && Segment(al, s, last, stop) && last <= i < stop
    ensures Piece(al, s[last..stop], i - last) == Piece(al, s, i)
    ensures last + AfterPiece(s[last..stop], i - last) == AfterPiece(s, i) <= stop
  {
    hide Intraword, RunEnd, Escapes;
    IntrawordInSlice(al, s, last, i, stop);
    assert s[last..stop][i - last] == s[i];
    if s[i] == UNDERSCORE {
      SliceOfSegment(s, last, i, RunEnd(s, i), stop);
    }
  }

  /** Between two ranges, escaping the segment is escaping the line. */
  lemma {:induction false} SegmentEscaped(al: Alphabet, s: string, last: nat, i: nat, stop: nat)
    requires al.Lawful() && Segment(al, s, last, stop) && last <= i <= stop <= |s|
    requires forall k | i <= k < stop :: InlineEnd(al, s, k) == None
    ensures Escaped(al, s, i) == Texted(al, s[last..stop], i - last) + Escaped(al, s, stop)
    decreases stop - i
  {
    hide InlineEnd, Segment, Piece, AfterPiece;
    if i < stop {
      PieceInSlice(al, s, last, i, stop);
      var next := AfterPiece(s, i);
      SegmentEscaped(al, s, last, next, stop);
      Concatenated(Piece(al, s, i), Texted(al, s[last..stop], next - last), Escaped(al, s, stop));
    }
  }

  lemma Concatenated(a: string, b: string, c: string)
    ensures a + (b + c) == a + b + c
  {
  }

  lemma SliceOfSegment(s: string, last: nat, i: nat, end: nat, stop: nat)
    requires last <= i <= end <= stop <= |s|
    ensures s[last..stop][i - last..end - last] == s[i..end]
  {
    Bytes.SliceOfSlice(s, last, stop, i - last, end - last);
  }

  /** From the end of a range on, the pieces between ranges are what the position-wise escape produces. */
  lemma {:induction false} PiecesEscaped(al: Alphabet, s: string, last: nat, i: nat)
    requires al.Lawful() && last <= i <= |s|
    requires last < |s| && s[last] == UNDERSCORE ==> !HasAt(al.isAlnum, s, last - 1)
    requires forall k | last <= k < i :: InlineEnd(al, s, k) == None
    ensures Spaced(Ranges(al, s, i), last, |s|)
    ensures EscapedPieces(al, s, last, Ranges(al, s, i)) == Escaped(al, s, last)
    decreases |s| - i
  {
    hide InlineEnd, EscapeText, Escaped;
    SpacedWider(Ranges(al, s, i), last, i, |s|);
    if i == |s| {
      WholeSegment(al, s, last);
    } else {
      match InlineEnd(al, s, i)
      case None => PiecesEscaped(al, s, last, i + 1);
      case Some(end) =>
        RangeEdges(al, s, i);
        PiecesEscaped(al, s, end, end);
        OneSegment(al, s, last, i);
        RangeCopied(al, s, i);
    }
  }

  lemma OneSegment(al: Alphabet, s: string, last: nat, stop: nat)
    requires al.Lawful() && last <= stop <= |s| && Segment(al, s, last, stop)
    requires forall k | last <= k < stop :: InlineEnd(al, s, k) == None
    ensures EscapeText(al, s[last..stop]) + Escaped(al, s, stop) == Escaped(al, s, last)
  {
    hide InlineEnd, EscapeText, Escaped;
    EscapeTextIs(al, s[last..stop]);
    SegmentEscaped(al, s, last, last, stop);
  }

  lemma WholeSegment(al: Alphabet, s: string, last: nat)
    requires al.Lawful() && last <= |s|
    requires last < |s| && s[last] == UNDERSCORE ==> !HasAt(al.isAlnum, s, last - 1)
    requires forall k | last <= k < |s| :: InlineEnd(al, s, k) == None
    ensures EscapeText(al, s[last..]) == Escaped(al, s, last)
  {
    hide InlineEnd, EscapeText;
    assert s[last..|s|] == s[last..];
    OneSegment(al, s, last, |s|);
    assert Escaped(al, s, |s|) == "";
  }

  lemma RangeCopied(al: Alphabet, s: string, i: nat)
    requires i < |s| && InlineEnd(al, s, i).Some?
    ensures Escaped(al, s, i) == s[i..InlineEnd(al, s, i).value] + Escaped(al, s, InlineEnd(al, s, i).value)
  {
    hide InlineEnd;
  }

  lemma {:induction false} NothingToEscape(al: Alphabet, s: string, i: nat)
    requires i <= |s| && UNDERSCORE !in s
    ensures Escaped(al, s, i) == s[i..]
    decreases |s| - i
  {
    hide InlineEnd;
    if i < |s| {
      match InlineEnd(al, s, i)
      case Some(end) => NothingToEscape(al, s, end);
      case None => NothingToEscape(al, s, i + 1);
    }
  }

  /** Escaping a line piece by piece is escaping it position by position. */
  lemma EscapeLineIs(al: Alphabet, line: string)
    requires al.Lawful()
    ensures EscapeLine(al, line) == Escaped(al, line, 0)
  {
    if UNDERSCORE in line {
      PiecesEscaped(al, line, 0, 0);
    } else {
      NothingToEscape(al, line, 0);
    }
  }
}
