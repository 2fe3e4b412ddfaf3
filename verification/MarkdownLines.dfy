/**
 Lines under insertion: joined and split texts, and every decision about blocks, are not changed by
 backslashes in front of underscores.
 */
module MarkdownLines {
  import opened Basics
  import opened Regex
  import opened MarkdownInline
  import opened MarkdownEscape
  import opened MarkdownInserted
  import opened MarkdownTables
  import opened MarkdownBlocks

  // Splitting and joining

  ghost predicate OneLine(line: string) {
    '\n' !in line
  }

  ghost predicate AllLines(lines: seq<string>) {
    forall k | 0 <= k < |lines| :: OneLine(lines[k])
  }

  lemma {:induction false} SplitLines(text: string)
    ensures AllLines(Split(text)) && Join(Split(text)) == text
    decreases |text|
  {
    var n := First(Is('\n'), text, 0);
    if n < |text| {
      SplitLines(text[n + 1..]);
      assert text == text[..n] + "\n" + text[n + 1..];
    }
  }

  lemma {:induction false} JoinSplits(lines: seq<string>)
    requires lines != [] && AllLines(lines)
    ensures Split(Join(lines)) == lines
  {
    if |lines| == 1 {
      NoBreak(lines[0], "");
      assert lines[0] + "" == lines[0];
    } else {
      JoinSplits(lines[1..]);
      var rest := Join(lines[1..]);
      assert Join(lines) == lines[0] + ("\n" + rest);
      NoBreak(lines[0], "\n" + rest);
      assert Join(lines)[..|lines[0]|] == lines[0] && Join(lines)[|lines[0]| + 1..] == rest;
    }
  }

  lemma {:induction false} NoBreak(line: string, rest: string)
    requires OneLine(line) && (rest == "" || rest[0] == '\n')
    ensures First(Is('\n'), line + rest, 0) == |line|
  {
    assert forall k | 0 <= k < |line| :: (line + rest)[k] == line[k] && line[k] in line;
    assert rest != "" ==> (line + rest)[|line|] == '\n';
  }

  // Insertion in parts of a text

  lemma {:induction false} ShiftInserted(s: string, i: nat, t: string, j: nat, m: nat, n: nat)
    requires m <= i <= |s| && n <= j <= |t|
    ensures Inserted(s[m..], i - m, t[n..], j - n) == Inserted(s, i, t, j)
    decreases |s| - i
  {
    if i < |s| {
      if j < |t| && t[j] == s[i] {
        ShiftInserted(s, i + 1, t, j + 1, m, n);
      } else if j + 1 < |t| {
        ShiftInserted(s, i + 1, t, j + 2, m, n);
      }
    }
  }

  lemma {:induction false} CutInserted(f: char -> bool, s: string, i: nat, t: string, j: nat)
    requires i <= |s| && j <= |t| && Inserted(s, i, t, j) && Blind(f)
    ensures Inserted(s[..First(f, s, i)], i, t[..First(f, t, j)], j)
    decreases |s| - i
  {
    var a, b := First(f, s, i), First(f, t, j);
    SameStop(f, s, i, t, j);
    if i < a {
      if t[j] == s[i] {
        CutInserted(f, s, i + 1, t, j + 1);
      } else {
        CutInserted(f, s, i + 1, t, j + 2);
      }
    }
  }

  lemma {:induction false} AppendInserted(a: string, i: nat, b: string, j: nat, c: string, d: string)
    requires i <= |a| && j <= |b| && Inserted(a, i, b, j) && Inserted(c, 0, d, 0)
    ensures Inserted(a + c, i, b + d, j)
    decreases |a| - i
  {
    if i < |a| {
      if b[j] == a[i] {
        AppendInserted(a, i + 1, b, j + 1, c, d);
      } else {
        AppendInserted(a, i + 1, b, j + 2, c, d);
      }
    } else {
      ShiftInserted(a + c, i, b + d, j, i, j);
      assert (a + c)[i..] == c && (b + d)[j..] == d;
    }
  }

  lemma {:induction false} SelfInserted(s: string, i: nat)
    requires i <= |s|
    ensures Inserted(s, i, s, i)
    decreases |s| - i
  {
    if i < |s| {
      SelfInserted(s, i + 1);
    }
  }

  /** Line by line, backslashes have been inserted. */
  ghost predicate LinesInserted(ls: seq<string>, ms: seq<string>) {
    |ls| == |ms| && forall k | 0 <= k < |ls| :: Inserted(ls[k], 0, ms[k], 0)
  }

  lemma {:induction false} SplitInserted(t: string, u: string)
    requires Inserted(t, 0, u, 0)
    ensures LinesInserted(Split(t), Split(u))
    decreases |t|
  {
    hide Inserted;
    var a, b := First(Is('\n'), t, 0), First(Is('\n'), u, 0);
    SameStop(Is('\n'), t, 0, u, 0);
    CutInserted(Is('\n'), t, 0, u, 0);
    if a < |t| {
      SameStart(Is('\n'), t, a, u, b);
      ShiftInserted(t, a + 1, u, b + 1, a + 1, b + 1);
      SplitInserted(t[a + 1..], u[b + 1..]);
    } else {
      assert t[..a] == t && u[..b] == u;
    }
  }

  lemma {:induction false} JoinInserted(ls: seq<string>, ms: seq<string>)
    requires LinesInserted(ls, ms)
    ensures Inserted(Join(ls), 0, Join(ms), 0)
  {
    hide Inserted;
    if ls == [] {
      SelfInserted("", 0);
    } else if |ls| == 1 {
    } else {
      JoinInserted(ls[1..], ms[1..]);
      SelfInserted("\n", 0);
      AppendInserted(ls[0], 0, ms[0], 0, "\n", "\n");
      AppendInserted(ls[0] + "\n", 0, ms[0] + "\n", 0, Join(ls[1..]), Join(ms[1..]));
    }
  }

  // What a line looks like

  lemma NonSpaceStops(al: Alphabet, s: string, t: string)
    requires al.Lawful() && Inserted(s, 0, t, 0)
    ensures var a, b := First(Not(al.isSpace), s, 0), First(Not(al.isSpace), t, 0);
            a == b && a <= |s| && Inserted(s, a, t, b) && (a == |s| <==> b == |t|) && s[..a] == t[..b]
  {
    SpacesSame(al.isSpace, s, 0, t, 0);
  }

  /** Leading characters of a blind class are the same, one to one. */
  lemma {:induction false} SpacesSame(f: char -> bool, s: string, i: nat, t: string, j: nat)
    requires i <= |s| && j <= |t| && Inserted(s, i, t, j) && Blind(f)
    ensures var a, b := First(Not(f), s, i), First(Not(f), t, j);
            && a - i == b - j && Inserted(s, a, t, b) && (a == |s| <==> b == |t|)
            && s[i..a] == t[j..b]
    decreases |s| - i
  {
    SameStart(f, s, i, t, j);
    if HasAt(f, s, i) {
      SpacesSame(f, s, i + 1, t, j + 1);
      var a, b := First(Not(f), s, i), First(Not(f), t, j);
      assert s[i..a] == [s[i]] + s[i + 1..a] && t[j..b] == [t[j]] + t[j + 1..b];
    }
  }

  lemma SameBlank(al: Alphabet, s: string, t: string)
    requires al.Lawful() && Inserted(s, 0, t, 0)
    ensures Blank(al, s) == Blank(al, t)
  {
    NonSpaceStops(al, s, t);
  }

  lemma {:induction false} SameMarks(s: string, i: nat, t: string, j: nat)
    requires i <= |s| && j <= |t| && Inserted(s, i, t, j)
    ensures MarksAt(s, i) == MarksAt(t, j)
  {
    hide Inserted;
    SameStart(Is('`'), s, i, t, j);
    SameStart(Is('~'), s, i, t, j);
    if HasAt(Is('`'), s, i) {
      SpacesSame(Is('`'), s, i, t, j);
    } else if HasAt(Is('~'), s, i) {
      SpacesSame(Is('~'), s, i, t, j);
    }
  }

  lemma SameFence(s: string, t: string)
    requires Inserted(s, 0, t, 0)
    ensures FenceOf(s) == FenceOf(t)
  {
    hide Inserted, MarksAt;
    SpacesSame(Is(' '), s, 0, t, 0);
    SameMarks(s, First(Not(Is(' ')), s, 0), t, First(Not(Is(' ')), t, 0));
  }

  lemma SameStopsMath(al: Alphabet, s: string, t: string)
    requires al.Lawful() && Inserted(s, 0, t, 0)
    ensures StopsMath(al, s) == StopsMath(al, t)
  {
    hide Inserted, MarksAt;
    NonSpaceStops(al, s, t);
    SameMarks(s, First(Not(al.isSpace), s, 0), t, First(Not(al.isSpace), t, 0));
  }

  lemma {:induction false} SameTableStart(al: Alphabet, s: string, i: nat, t: string, j: nat)
    requires al.Lawful() && i <= |s| && j <= |t| && Inserted(s, i, t, j)
    ensures TableStartsAt(al, s, i) == TableStartsAt(al, t, j)
  {
    hide Inserted, NameAt;
    SameStart(Is('<'), s, i, t, j);
    if HasAt(Is('<'), s, i) {
      SameName("table", s, i + 1, t, j + 1);
      if NameAt("table", s, i + 1) {
        SameStart(StopAngle(al), s, i + 6, t, j + 6);
      }
    }
  }

  lemma {:induction false} SameTableEnd(s: string, i: nat, t: string, j: nat)
    requires i <= |s| && j <= |t| && Inserted(s, i, t, j)
    ensures TableEndsAt(s, i) == TableEndsAt(t, j)
  {
    hide Inserted, NameAt;
    SameStart(Is('<'), s, i, t, j);
    if HasAt(Is('<'), s, i) {
      SameStart(Is('/'), s, i + 1, t, j + 1);
      if HasAt(Is('/'), s, i + 1) {
        SameName("table", s, i + 2, t, j + 2);
        if NameAt("table", s, i + 2) {
          SameStart(Is('>'), s, i + 7, t, j + 7);
        }
      }
    }
  }

  lemma {:induction false} SameBalance(al: Alphabet, s: string, i: nat, t: string, j: nat)
    requires al.Lawful() && i <= |s| && j <= |t| && Inserted(s, i, t, j)
    ensures TableBalance(al, s, i) == TableBalance(al, t, j)
    decreases |s| - i
  {
    hide TableStartsAt, TableEndsAt;
    if i < |s| {
      SameTableStart(al, s, i, t, j);
      SameTableEnd(s, i, t, j);
      if t[j] == s[i] {
        SameBalance(al, s, i + 1, t, j + 1);
      } else {
        SameBalance(al, s, i + 1, t, j + 2);
        NoTableAtUnderscore(al, t, j + 1);
      }
    }
  }

  lemma NoTableAtUnderscore(al: Alphabet, t: string, j: nat)
    requires j < |t| && t[j] == UNDERSCORE
    ensures !TableStartsAt(al, t, j) && !TableEndsAt(t, j)
  {
  }

  lemma SameOpensTable(al: Alphabet, s: string, t: string)
    requires al.Lawful() && Inserted(s, 0, t, 0)
    ensures OpensTable(al, s) == OpensTable(al, t)
  {
    hide Inserted, TableStartsAt;
    NonSpaceStops(al, s, t);
    SameTableStart(al, s, First(Not(al.isSpace), s, 0), t, First(Not(al.isSpace), t, 0));
  }

  lemma {:induction false} SameDollars(s: string, i: nat, t: string, j: nat)
    requires i <= |s| && j <= |t| && Inserted(s, i, t, j)
    ensures DollarsAt(s, i) == DollarsAt(t, j)
    ensures DollarsAt(s, i) ==> Inserted(s, i + 2, t, j + 2)
  {
    hide Inserted;
    SameStart(Is('$'), s, i, t, j);
    if HasAt(Is('$'), s, i) {
      SameStart(Is('$'), s, i + 1, t, j + 1);
    }
  }

  lemma SameMathOpen(al: Alphabet, s: string, t: string)
    requires al.Lawful() && Inserted(s, 0, t, 0)
    ensures MathOpen(al, s) == MathOpen(al, t)
    ensures MathOpen(al, s).Some? ==>
              var o := MathOpen(al, s).value; Inserted(s, o, t, o) && s[..o] == t[..o]
  {
    hide Inserted;
    NonSpaceStops(al, s, t);
    var k := First(Not(al.isSpace), s, 0);
    SameDollars(s, k, t, k);
    if DollarsAt(s, k) {
      assert s[..k + 2] == s[..k] + "$$" && t[..k + 2] == t[..k] + "$$";
    }
  }

  // Math delimiters

  lemma DelimiterStep(text: string, from: nat)
    requires from < |text|
    ensures MathDelimiter(text, from)
            == if DollarsAt(text, from) && (from == 0 || Backslashes(text, from) % 2 == 0) then Some(from)
               else MathDelimiter(text, from + 1)
  {
    if !DollarsAt(text, from) {
      assert NextDollars(text, from) == NextDollars(text, from + 1);
    } else {
      assert NextDollars(text, from) == Some(from);
    }
  }

  /** An inserted backslash never stands directly before a delimiter, so no delimiter is escaped or freed. */
  lemma {:induction false} SameDelimiter(s: string, i: nat, t: string, j: nat)
    requires i <= |s| && j <= |t| && Inserted(s, i, t, j)
    requires Backslashes(s, i) == Backslashes(t, j) && (i == 0 <==> j == 0)
    ensures MathDelimiter(s, i).Some? == MathDelimiter(t, j).Some?
    ensures MathDelimiter(s, i).Some? ==> Inserted(s, MathDelimiter(s, i).value + 2, t, MathDelimiter(t, j).value + 2)
    decreases |s| - i
  {
    hide MathDelimiter;
    if i == |s| {
      NoDelimiter(s, i);
      NoDelimiter(t, j);
    } else {
      DelimiterStep(s, i);
      DelimiterStep(t, j);
      SameDollars(s, i, t, j);
      if t[j] == s[i] {
        SameDelimiter(s, i + 1, t, j + 1);
      } else {
        DelimiterStep(t, j + 1);
        SameDelimiter(s, i + 1, t, j + 2);
      }
    }
  }

  lemma NoDelimiter(text: string, from: nat)
    requires from >= |text|
    ensures MathDelimiter(text, from) == None
  {
  }

  /** The delimiter found depends only on the text up to its end. */
  lemma {:induction false} DelimiterPrefix(s: string, t: string, from: nat)
    requires MathDelimiter(s, from).Some?
    requires var n := MathDelimiter(s, from).value + 2; n <= |t| && s[..n] == t[..n]
    ensures MathDelimiter(t, from) == MathDelimiter(s, from)
    decreases |s| - from
  {
    hide MathDelimiter, Backslashes;
    var n := MathDelimiter(s, from).value + 2;
    assert forall k | 0 <= k < n :: s[k] == s[..n][k] == t[k];
    DelimiterStep(s, from);
    DelimiterStep(t, from);
    BackslashesPrefix(s, t, n, from);
    if MathDelimiter(s, from) != Some(from) {
      DelimiterPrefix(s, t, from + 1);
    }
  }

  lemma {:induction false} BackslashesPrefix(s: string, t: string, n: nat, i: nat)
    requires i <= n <= |s| && n <= |t| && forall k | 0 <= k < n :: s[k] == t[k]
    ensures Backslashes(s, i) == Backslashes(t, i)
  {
    if HasAt(Is('\\'), s, i - 1) {
      BackslashesPrefix(s, t, n, i - 1);
    }
  }

  lemma WholeDelimiter(s: string, t: string)
    requires Inserted(s, 0, t, 0)
    ensures MathDelimiter(s, 0).Some? == MathDelimiter(t, 0).Some?
  {
    SameDelimiter(s, 0, t, 0);
  }

  // Blocks

  lemma {:induction false} SameMathClose(al: Alphabet, ls: seq<string>, ms: seq<string>, index: nat)
    requires al.Lawful() && LinesInserted(ls, ms)
    ensures MathClose(al, ls, index).Some? == MathClose(al, ms, index).Some?
    ensures MathClose(al, ls, index).Some? ==> MathClose(al, ls, index).value.end == MathClose(al, ms, index).value.end
    ensures MathClose(al, ls, index).Some? ==>
              var b := MathClose(al, ls, index).value;
              b.kind.from <= |ms[b.end - 1]| && ms[b.end - 1][..b.kind.from] == ls[b.end - 1][..b.kind.from] ==>
                MathClose(al, ms, index) == MathClose(al, ls, index)
    decreases |ls| - index
  {
    hide Blank, StopsMath, MathDelimiter, Inserted;
    if index < |ls| {
      SameBlank(al, ls[index], ms[index]);
      SameStopsMath(al, ls[index], ms[index]);
      WholeDelimiter(ls[index], ms[index]);
      match MathDelimiter(ls[index], 0)
      case None => SameMathClose(al, ls, ms, index + 1);
      case Some(k) =>
        if k + 2 <= |ms[index]| && ms[index][..k + 2] == ls[index][..k + 2] {
          DelimiterPrefix(ls[index], ms[index], 0);
        }
    }
  }

  lemma {:induction false} SameFenceEnd(ls: seq<string>, ms: seq<string>, index: nat, fence: Fence)
    requires LinesInserted(ls, ms) && index <= |ls|
    ensures FenceEnd(ls, index, fence) == FenceEnd(ms, index, fence)
    decreases |ls| - index
  {
    hide FenceOf, Inserted;
    if index < |ls| {
      SameFence(ls[index], ms[index]);
      SameFenceEnd(ls, ms, index + 1, fence);
    }
  }

  lemma {:induction false} SameTableLines(al: Alphabet, ls: seq<string>, ms: seq<string>, index: nat, depth: int)
    requires al.Lawful() && LinesInserted(ls, ms) && index <= |ls|
    ensures TableEnd(al, ls, index, depth) == TableEnd(al, ms, index, depth)
    decreases |ls| - index
  {
    hide TableBalance, Inserted;
    if index < |ls| {
      SameBalance(al, ls[index], 0, ms[index], 0);
      SameTableLines(al, ls, ms, index + 1, depth + TableBalance(al, ls[index], 0));
    }
  }

  /** The same block, up to the offset where trailing text starts. */
  predicate SameShape(a: Option<Block>, b: Option<Block>) {
    && a.Some? == b.Some?
    && (a.Some? ==>
          a.value.end == b.value.end
          && (a.value.kind == b.value.kind || (a.value.kind.Trailing? && b.value.kind.Trailing?)))
  }

  /** What `block` leaves verbatim in its last line is the same in both. */
  predicate SameHead(block: Block, ls: seq<string>, ms: seq<string>) {
    block.kind.Trailing? && 0 < block.end <= |ls| && block.end <= |ms| ==>
      && block.kind.from <= |ls[block.end - 1]| && block.kind.from <= |ms[block.end - 1]|
      && ls[block.end - 1][..block.kind.from] == ms[block.end - 1][..block.kind.from]
  }

  /** Inserted backslashes change no block; where the verbatim text is untouched, not even an offset. */
  lemma {:induction false} SameBlock(al: Alphabet, ls: seq<string>, ms: seq<string>)
    requires al.Lawful() && LinesInserted(ls, ms) && ls != []
    ensures SameShape(BlockAt(al, ls), BlockAt(al, ms))
    ensures BlockAt(al, ls).Some? && SameHead(BlockAt(al, ls).value, ls, ms) ==> BlockAt(al, ms) == BlockAt(al, ls)
  {
    hide MathOpen, MathDelimiter, MathClose, FenceOf, FenceEnd, OpensTable, TableEnd, Renders, Inserted, Join;
    SameMathOpen(al, ls[0], ms[0]);
    match MathOpen(al, ls[0])
    case Some(open) =>
      SameOpening(ls[0], ms[0], open);
      SameMathClose(al, ls, ms, 1);
    case None =>
      SameFence(ls[0], ms[0]);
      match FenceOf(ls[0])
      case Some(fence) => SameFenceEnd(ls, ms, 1, fence);
      case None =>
        SameOpensTable(al, ls[0], ms[0]);
        SameTableLines(al, ls, ms, 0, 0);
        var end := TableEnd(al, ls, 0, 0);
        JoinInserted(ls[..end], ms[..end]);
        SameRendering(Join(ls[..end]), Join(ms[..end]));
  }

  lemma SameOpening(s: string, t: string, open: nat)
    requires open <= |s| && open <= |t| && Inserted(s, open, t, open)
    ensures MathDelimiter(s[open..], 0).Some? == MathDelimiter(t[open..], 0).Some?
    ensures MathDelimiter(s[open..], 0).Some? ==>
              var n := open + MathDelimiter(s[open..], 0).value + 2;
              n <= |t| && s[..n] == t[..n] ==> MathDelimiter(t[open..], 0) == MathDelimiter(s[open..], 0)
  {
    hide MathDelimiter;
    ShiftInserted(s, open, t, open, open, open);
    WholeDelimiter(s[open..], t[open..]);
    if MathDelimiter(s[open..], 0).Some? {
      var k := MathDelimiter(s[open..], 0).value + 2;
      if open + k <= |t| && s[..open + k] == t[..open + k] {
        assert s[open..][..k] == s[..open + k][open..] && t[open..][..k] == t[..open + k][open..];
        DelimiterPrefix(s[open..], t[open..], 0);
      }
    }
  }
}
