/**
 What the escape of a document keeps and what it escapes, read off the lines themselves: fences, closed
 display math, tables that render, other table blocks and ordinary lines.
 */
module MarkdownMeaning {
  import opened Basics
  import opened Regex
  import opened MarkdownInline
  import opened MarkdownEscape
  import opened MarkdownTables
  import opened MarkdownRendering
  import opened MarkdownBlocks
  import opened MarkdownLines
  import opened MarkdownDocument

  // Fences

  /** At most three spaces, then a run of exactly `length` marks, at least three. */
  ghost predicate FenceLine(line: string, mark: char, length: nat) {
    (mark == '`' || mark == '~') && length >= 3 && exists k: nat :: FenceIndented(line, mark, length, k)
  }

  ghost predicate FenceIndented(line: string, mark: char, length: nat, k: nat) {
    && k <= 3 && k + length <= |line|
    && (forall i | 0 <= i < k :: line[i] == ' ') && (forall i | k <= i < k + length :: line[i] == mark)
    && (k + length < |line| ==> line[k + length] != mark)
  }

  ghost predicate ClosesFence(line: string, mark: char, length: nat) {
    exists n: nat :: n >= length && FenceLine(line, mark, n)
  }

  /** The first `n` lines: from a fence to the first line that closes it, or to the end. */
  ghost predicate FencedSpan(lines: seq<string>, n: nat) {
    0 < n <= |lines| && exists mark, length: nat :: FencedBy(lines, n, mark, length)
  }

  ghost predicate FencedBy(lines: seq<string>, n: nat, mark: char, length: nat)
    requires 0 < n <= |lines|
  {
    && FenceLine(lines[0], mark, length)
    && (forall k | 0 < k < n - 1 :: !ClosesFence(lines[k], mark, length))
    && (n == |lines| || (n > 1 && ClosesFence(lines[n - 1], mark, length)))
  }

  lemma FenceIs(line: string, mark: char, length: nat)
    ensures FenceOf(line) == Some(Fence(mark, length)) <==> FenceLine(line, mark, length)
  {
    var k := First(Not(Is(' ')), line, 0);
    if FenceLine(line, mark, length) {
      var j: nat :| FenceIndented(line, mark, length, j);
      FirstIs(Not(Is(' ')), line, 0, j);
      FirstIs(Not(Is(mark)), line, j, j + length);
    }
    if FenceOf(line) == Some(Fence(mark, length)) {
      assert FenceIndented(line, mark, length, k);
    }
  }

  /** The first position from `i` on that has the property, as a reader would look for it. */
  lemma {:induction false} FirstIs(has: char -> bool, s: string, i: nat, k: nat)
    requires i <= k <= |s| && (forall j | i <= j < k :: !has(s[j])) && (k < |s| ==> has(s[k]))
    ensures First(has, s, i) == k
  {
  }

  lemma ClosingIs(line: string, fence: Fence)
    requires fence.length >= 3 && (fence.mark == '`' || fence.mark == '~')
    ensures ClosesFence(line, fence.mark, fence.length) <==>
            && FenceOf(line).Some? && FenceOf(line).value.mark == fence.mark
            && FenceOf(line).value.length >= fence.length
  {
    hide FenceOf, FenceLine;
    if ClosesFence(line, fence.mark, fence.length) {
      var n: nat :| n >= fence.length && FenceLine(line, fence.mark, n);
      FenceIs(line, fence.mark, n);
    }
    if FenceOf(line).Some? {
      FenceIs(line, FenceOf(line).value.mark, FenceOf(line).value.length);
    }
  }

  lemma {:induction false} FenceEndIs(lines: seq<string>, index: nat, fence: Fence, n: nat)
    requires fence.length >= 3 && (fence.mark == '`' || fence.mark == '~')
    requires index <= n <= |lines| && forall k | index <= k < n - 1 :: !ClosesFence(lines[k], fence.mark, fence.length)
    requires n == |lines| || (n > index && ClosesFence(lines[n - 1], fence.mark, fence.length))
    ensures FenceEnd(lines, index, fence) == n
    decreases n - index
  {
    hide FenceOf, ClosesFence;
    if index < n {
      ClosingIs(lines[index], fence);
      if index < n - 1 {
        FenceEndIs(lines, index + 1, fence, n);
      }
    }
  }

  /** After spaces that no line of another kind begins with, a mark or a letter is no "$". */
  lemma NoMathAt(al: Alphabet, line: string, k: nat)
    requires al.Lawful() && k < |line| && (forall i | 0 <= i < k :: line[i] == ' ')
    requires ' ' < line[k] <= '~' && line[k] != '$'
    ensures MathOpen(al, line) == None
  {
    FirstIs(Not(al.isSpace), line, 0, k);
  }

  lemma FenceNotMath(al: Alphabet, line: string, mark: char, length: nat)
    requires al.Lawful() && FenceLine(line, mark, length)
    ensures MathOpen(al, line) == None && FenceOf(line) == Some(Fence(mark, length))
  {
    FenceIs(line, mark, length);
    var k: nat :| FenceIndented(line, mark, length, k);
    assert line[k] == mark;
    NoMathAt(al, line, k);
  }

  /** The lines from an opening fence through the first matching marker, or to the end, are unchanged. */
  lemma FencedKept(al: Alphabet, lines: seq<string>, n: nat)
    requires al.Lawful() && FencedSpan(lines, n)
    ensures EscapeLines(al, lines) == lines[..n] + EscapeLines(al, lines[n..])
  {
    hide FenceLine, ClosesFence, FenceOf, MathOpen, Renders, TableEnd, MathClose, EscapeLine, Join, Split, OpensTable;
    var mark, length: nat :| FencedBy(lines, n, mark, length);
    FenceNotMath(al, lines[0], mark, length);
    assert length >= 3 && (mark == '`' || mark == '~') by { FenceFacts(lines[0], mark, length); }
    FenceEndIs(lines, 1, Fence(mark, length), n);
    assert BlockAt(al, lines) == Some(Block(n, Verbatim));
  }

  lemma FenceFacts(line: string, mark: char, length: nat)
    requires FenceLine(line, mark, length)
    ensures length >= 3 && (mark == '`' || mark == '~')
  {
  }

  // Display math

  /** "$$" at `k` behind an even number of backslashes. */
  ghost predicate IsDelimiter(text: string, k: nat) {
    k + 2 <= |text| && text[k] == '$' && text[k + 1] == '$' && exists n: nat :: EscapedBy(text, k, n) && n % 2 == 0
  }

  /** Exactly `n` backslashes stand directly before `k`. */
  ghost predicate EscapedBy(text: string, k: nat, n: nat) {
    && n <= k <= |text| && (forall i | k - n <= i < k :: text[i] == '\\')
    && (n < k ==> text[k - n - 1] != '\\')
  }

  ghost predicate FirstDelimiter(text: string, k: nat) {
    IsDelimiter(text, k) && forall j: nat | j < k :: !IsDelimiter(text, j)
  }

  ghost predicate NoDelimiters(text: string) {
    forall k: nat :: !IsDelimiter(text, k)
  }

  /** The line is white space and then "$$", up to `open`. */
  ghost predicate OpensMath(al: Alphabet, line: string, open: nat) {
    && 2 <= open <= |line| && (forall i | 0 <= i < open - 2 :: al.isSpace(line[i]))
    && line[open - 2] == '$' && line[open - 1] == '$'
  }

  ghost predicate WhiteLine(al: Alphabet, line: string) {
    forall i | 0 <= i < |line| :: al.isSpace(line[i])
  }

  /** Three marks behind nothing but white space. */
  ghost predicate IndentedFence(al: Alphabet, line: string, k: nat) {
    && k + 3 <= |line| && (forall i | 0 <= i < k :: al.isSpace(line[i]))
    && (line[k] == '`' || line[k] == '~') && line[k + 1] == line[k] && line[k + 2] == line[k]
  }

  /** A line that display math may run on to. */
  ghost predicate GoesOn(al: Alphabet, line: string) {
    !WhiteLine(al, line) && forall k: nat :: !IndentedFence(al, line, k)
  }

  /** Display math that starts with the first of `lines` closes in line `m`, in front of offset `from`. */
  ghost predicate MathSpan(al: Alphabet, lines: seq<string>, m: nat, from: nat) {
    m < |lines| && from >= 2 && exists open: nat :: MathOpenedAt(al, lines, m, from, open)
  }

  ghost predicate MathOpenedAt(al: Alphabet, lines: seq<string>, m: nat, from: nat, open: nat)
    requires m < |lines| && from >= 2
  {
    && OpensMath(al, lines[0], open)
    && (m == 0 ==> open + 2 <= from && FirstDelimiter(lines[0][open..], from - 2 - open))
    && (m > 0 ==> NoDelimiters(lines[0][open..]) && ClosesMath(al, lines, 1, m, from))
  }

  /** Lines `i` to `m` go on, and line `m` is the first of them with a delimiter. */
  ghost predicate ClosesMath(al: Alphabet, lines: seq<string>, i: nat, m: nat, from: nat)
    requires m < |lines| && from >= 2
  {
    && i <= m && (forall j | i <= j <= m :: GoesOn(al, lines[j]))
    && (forall j | i <= j < m :: NoDelimiters(lines[j])) && FirstDelimiter(lines[m], from - 2)
  }

  lemma {:induction false} BackslashesAre(text: string, k: nat, n: nat)
    requires EscapedBy(text, k, n)
    ensures Backslashes(text, k) == n
  {
    if n > 0 {
      BackslashesAre(text, k - 1, n - 1);
    }
  }

  lemma {:induction false} BackslashesCount(text: string, k: nat)
    requires k <= |text|
    ensures EscapedBy(text, k, Backslashes(text, k))
  {
    if HasAt(Is('\\'), text, k - 1) {
      BackslashesCount(text, k - 1);
    }
  }

  lemma DelimiterAt(text: string, k: nat)
    ensures IsDelimiter(text, k) <==> DollarsAt(text, k) && (k == 0 || Backslashes(text, k) % 2 == 0)
  {
    hide Backslashes, EscapedBy;
    if k <= |text| {
      BackslashesCount(text, k);
      forall n: nat | EscapedBy(text, k, n) ensures n == Backslashes(text, k) {
        BackslashesAre(text, k, n);
      }
      if k == 0 {
        NoBackslash(text);
      }
    }
  }

  lemma NoBackslash(text: string)
    ensures Backslashes(text, 0) == 0
  {
  }

  lemma {:induction false} DelimiterFrom(text: string, from: nat)
    ensures match MathDelimiter(text, from)
            case None => forall k: nat | from <= k :: !IsDelimiter(text, k)
            case Some(d) => IsDelimiter(text, d) && forall k: nat | from <= k < d :: !IsDelimiter(text, k)
    decreases if from <= |text| then |text| - from else 0
  {
    hide IsDelimiter, Backslashes;
    var next := NextDollars(text, from);
    forall k: nat | from <= k && (next.Some? ==> k < next.value) ensures !IsDelimiter(text, k) {
      DelimiterAt(text, k);
    }
    if next.Some? {
      DelimiterAt(text, next.value);
      if !(next.value == 0 || Backslashes(text, next.value) % 2 == 0) {
        DelimiterFrom(text, next.value + 1);
      }
    }
  }

  lemma DelimiterIs(text: string)
    ensures forall k: nat :: MathDelimiter(text, 0) == Some(k) <==> FirstDelimiter(text, k)
    ensures MathDelimiter(text, 0) == None <==> NoDelimiters(text)
  {
    hide IsDelimiter, MathDelimiter;
    DelimiterFrom(text, 0);
  }

  lemma MathOpenIs(al: Alphabet, line: string, open: nat)
    requires al.Lawful()
    ensures MathOpen(al, line) == Some(open) <==> OpensMath(al, line, open)
  {
    if OpensMath(al, line, open) {
      FirstIs(Not(al.isSpace), line, 0, open - 2);
    }
  }

  lemma BlankIs(al: Alphabet, line: string)
    ensures Blank(al, line) <==> WhiteLine(al, line)
  {
    if WhiteLine(al, line) {
      FirstIs(Not(al.isSpace), line, 0, |line|);
    }
  }

  lemma StopIs(al: Alphabet, line: string)
    requires al.Lawful()
    ensures StopsMath(al, line) <==> exists k: nat :: IndentedFence(al, line, k)
  {
    var f := First(Not(al.isSpace), line, 0);
    if StopsMath(al, line) {
      assert IndentedFence(al, line, f);
    }
    if exists k: nat :: IndentedFence(al, line, k) {
      var k: nat :| IndentedFence(al, line, k);
      FirstIs(Not(al.isSpace), line, 0, k);
      MarksFrom(line, k);
    }
  }

  lemma MarksFrom(line: string, k: nat)
    requires k + 3 <= |line| && (line[k] == '`' || line[k] == '~')
    requires line[k + 1] == line[k] && line[k + 2] == line[k]
    ensures MarksAt(line, k).Some?
  {
    var stop := First(Not(Is(line[k])), line, k);
    if stop < |line| {
      assert Not(Is(line[k]))(line[stop]);
    }
  }

  lemma GoesOnIs(al: Alphabet, line: string)
    requires al.Lawful()
    ensures GoesOn(al, line) <==> !Blank(al, line) && !StopsMath(al, line)
  {
    hide WhiteLine, IndentedFence, Blank, StopsMath;
    BlankIs(al, line);
    StopIs(al, line);
  }

  lemma {:induction false} MathCloseIs(al: Alphabet, lines: seq<string>, i: nat, m: nat, from: nat)
    requires al.Lawful() && m < |lines| && from >= 2 && ClosesMath(al, lines, i, m, from)
    ensures MathClose(al, lines, i) == Some(Block(m + 1, Trailing(from)))
    decreases m - i
  {
    hide Blank, StopsMath, GoesOn, MathDelimiter, FirstDelimiter, NoDelimiters;
    GoesOnIs(al, lines[i]);
    DelimiterIs(lines[i]);
    if i < m {
      MathCloseIs(al, lines, i + 1, m, from);
    }
  }

  /** What the search for the closing delimiter finds is such a span. */
  lemma {:induction false} MathCloseFinds(al: Alphabet, lines: seq<string>, i: nat)
    requires al.Lawful() && MathClose(al, lines, i).Some?
    ensures var block := MathClose(al, lines, i).value;
            block.kind.from >= 2 && ClosesMath(al, lines, i, block.end - 1, block.kind.from)
    decreases |lines| - i
  {
    hide Blank, StopsMath, GoesOn, MathDelimiter, FirstDelimiter, NoDelimiters;
    GoesOnIs(al, lines[i]);
    DelimiterIs(lines[i]);
    if MathDelimiter(lines[i], 0).None? {
      MathCloseFinds(al, lines, i + 1);
    }
  }

  lemma MathSpanIs(al: Alphabet, lines: seq<string>, m: nat, from: nat)
    requires al.Lawful() && MathSpan(al, lines, m, from)
    ensures BlockAt(al, lines) == Some(Block(m + 1, Trailing(from)))
  {
    hide OpensMath, ClosesMath, MathClose, MathDelimiter, FirstDelimiter, NoDelimiters, MathOpen, FenceOf, OpensTable,
      TableEnd, Renders, Join;
    var open: nat :| MathOpenedAt(al, lines, m, from, open);
    MathOpenIs(al, lines[0], open);
    DelimiterIs(lines[0][open..]);
    if m > 0 {
      MathCloseIs(al, lines, 1, m, from);
    }
  }

  /** Closed display math is unchanged up to its delimiter, and the rest of that line is escaped. */
  lemma MathKept(al: Alphabet, lines: seq<string>, m: nat, from: nat)
    requires al.Lawful() && MathSpan(al, lines, m, from)
    ensures from <= |lines[m]|
    ensures EscapeLines(al, lines)
            == lines[..m] + [lines[m][..from] + EscapeLine(al, lines[m][from..])] + EscapeLines(al, lines[m + 1..])
  {
    hide *;
    MathSpanIs(al, lines, m, from);
    TrailingTurn(al, lines, m, from);
  }

  lemma TrailingTurn(al: Alphabet, lines: seq<string>, m: nat, from: nat)
    requires m < |lines| && BlockAt(al, lines) == Some(Block(m + 1, Trailing(from)))
    ensures from <= |lines[m]|
    ensures EscapeLines(al, lines)
            == lines[..m] + [lines[m][..from] + EscapeLine(al, lines[m][from..])] + EscapeLines(al, lines[m + 1..])
  {
    hide BlockAt, EscapeLine, Join, Split;
    var head := lines[..m + 1];
    assert head[..|head| - 1] == lines[..m] && head[|head| - 1] == lines[m];
  }

  // Tables

  /** Where the opening or the closing table tags of a line stand, from `i` on. */
  ghost function TableTags(al: Alphabet, line: string, isClose: bool, i: nat): set<nat> {
    set k: nat | i <= k < |line| && if isClose then TableEndsAt(line, k) else TableStartsAt(al, line, k)
  }

  /** How many more table tags open than close in `lines`. */
  ghost function Opened(al: Alphabet, lines: seq<string>): int {
    if lines == [] then 0
    else |TableTags(al, lines[0], false, 0)| - |TableTags(al, lines[0], true, 0)| + Opened(al, lines[1..])
  }

  /** A line that begins with white space and an opening table tag. */
  ghost predicate TableLine(al: Alphabet, line: string) {
    exists k: nat :: k < |line| && (forall i | 0 <= i < k :: al.isSpace(line[i])) && TableStartsAt(al, line, k)
  }

  /** The first `n` lines: from a line that begins with a table to the first that balances the tags, or to the end. */
  ghost predicate TableSpan(al: Alphabet, lines: seq<string>, n: nat) {
    && 0 < n <= |lines| && TableLine(al, lines[0])
    && (forall k | 0 < k < n :: Opened(al, lines[..k]) > 0)
    && (n == |lines| || Opened(al, lines[..n]) <= 0)
  }

  lemma TableLineIs(al: Alphabet, line: string)
    requires al.Lawful()
    ensures OpensTable(al, line) <==> TableLine(al, line)
    ensures OpensTable(al, line) ==> MathOpen(al, line) == None && FenceOf(line) == None
  {
    hide NameAt;
    var f := First(Not(al.isSpace), line, 0);
    if TableLine(al, line) {
      var k: nat :| k < |line| && (forall i | 0 <= i < k :: al.isSpace(line[i])) && TableStartsAt(al, line, k);
      FirstIs(Not(al.isSpace), line, 0, k);
    }
    if OpensTable(al, line) {
      assert f < |line| && line[f] == '<';
      var g := First(Not(Is(' ')), line, 0);
      assert g < |line| && line[g] != '`' && line[g] != '~';
    }
  }

  lemma TableTagsTurn(al: Alphabet, line: string, isClose: bool, i: nat)
    requires i < |line|
    ensures |TableTags(al, line, isClose, i)|
            == |TableTags(al, line, isClose, i + 1)|
               + if (if isClose then TableEndsAt(line, i) else TableStartsAt(al, line, i)) then 1 else 0
  {
    hide TableStartsAt, TableEndsAt;
    var tags, rest := TableTags(al, line, isClose, i), TableTags(al, line, isClose, i + 1);
    if if isClose then TableEndsAt(line, i) else TableStartsAt(al, line, i) {
      assert tags == {i} + rest;
    } else {
      assert tags == rest;
    }
  }

  lemma {:induction false} BalanceFrom(al: Alphabet, line: string, i: nat)
    requires i <= |line|
    ensures TableBalance(al, line, i) == |TableTags(al, line, false, i)| - |TableTags(al, line, true, i)|
    decreases |line| - i
  {
    hide TableStartsAt, TableEndsAt, TableTags;
    if i < |line| {
      BalanceFrom(al, line, i + 1);
      TableTagsTurn(al, line, false, i);
      TableTagsTurn(al, line, true, i);
    } else {
      NoTagsLeft(al, line);
    }
  }

  lemma NoTagsLeft(al: Alphabet, line: string)
    ensures TableTags(al, line, false, |line|) == {} && TableTags(al, line, true, |line|) == {}
  {
  }

  lemma LineBalance(al: Alphabet, lines: seq<string>, i: nat, k: nat)
    requires i < k <= |lines|
    ensures Opened(al, lines[i..k]) == TableBalance(al, lines[i], 0) + Opened(al, lines[i + 1..k])
  {
    hide TableBalance, TableTags;
    BalanceFrom(al, lines[i], 0);
    assert lines[i..k][1..] == lines[i + 1..k];
  }

  lemma {:induction false} TableEndIs(al: Alphabet, lines: seq<string>, i: nat, depth: int, n: nat)
    requires i < n <= |lines| && (forall k | i < k < n :: depth + Opened(al, lines[i..k]) > 0)
    requires n == |lines| || depth + Opened(al, lines[i..n]) <= 0
    ensures TableEnd(al, lines, i, depth) == n
    decreases n - i
  {
    hide Opened, TableBalance;
    assert lines[i + 1..i + 1] == [];
    NothingOpened(al);
    forall k | i < k <= n
      ensures Opened(al, lines[i..k]) == TableBalance(al, lines[i], 0) + Opened(al, lines[i + 1..k])
    {
      LineBalance(al, lines, i, k);
    }
    if n > i + 1 {
      var now := depth + TableBalance(al, lines[i], 0);
      assert depth + Opened(al, lines[i..i + 1]) == now;
      var next := i + 1;
      forall k | next < k < n ensures now + Opened(al, lines[next..k]) > 0 {
        assert depth + Opened(al, lines[i..k]) > 0;
      }
      TableEndIs(al, lines, next, now, n);
    }
  }

  lemma NothingOpened(al: Alphabet)
    ensures Opened(al, []) == 0
  {
  }

  lemma {:induction false} TableEndFinds(al: Alphabet, lines: seq<string>, i: nat, depth: int)
    requires i < |lines|
    ensures var n := TableEnd(al, lines, i, depth);
            && i < n && (forall k | i < k < n :: depth + Opened(al, lines[i..k]) > 0)
            && (n == |lines| || depth + Opened(al, lines[i..n]) <= 0)
    decreases |lines| - i
  {
    hide Opened, TableBalance;
    assert lines[i + 1..i + 1] == [];
    NothingOpened(al);
    forall k | i < k <= |lines|
      ensures Opened(al, lines[i..k]) == TableBalance(al, lines[i], 0) + Opened(al, lines[i + 1..k])
    {
      LineBalance(al, lines, i, k);
    }
    var now := depth + TableBalance(al, lines[i], 0);
    if now > 0 && i + 1 < |lines| {
      TableEndFinds(al, lines, i + 1, now);
    }
  }

  /** There is one such block for a line that begins with a table. */
  lemma TableSpanIs(al: Alphabet, lines: seq<string>, n: nat)
    requires lines != []
    ensures TableSpan(al, lines, n) <==> TableLine(al, lines[0]) && TableEnd(al, lines, 0, 0) == n
  {
    hide TableLine, Opened, TableEnd;
    assert forall k | 0 <= k <= |lines| :: lines[0..k] == lines[..k];
    TableEndFinds(al, lines, 0, 0);
    if TableSpan(al, lines, n) {
      TableEndIs(al, lines, 0, 0, n);
    }
  }

  lemma TableBlockIs(al: Alphabet, lines: seq<string>, n: nat)
    requires al.Lawful() && TableSpan(al, lines, n)
    ensures BlockAt(al, lines) == Some(Block(n, if TableRenders(Join(lines[..n])) then Verbatim else EscapeAll))
  {
    hide OpensTable, TableLine, Opened, TableEnd, MathOpen, MathClose, MathDelimiter, FenceOf, Renders, TableRenders,
      Join;
    TableLineIs(al, lines[0]);
    TableSpanIs(al, lines, n);
    RendersIs(Join(lines[..n]));
  }

  /** A balanced table with a closed row that has a closed cell is unchanged. */
  lemma TableKept(al: Alphabet, lines: seq<string>, n: nat)
    requires al.Lawful() && TableSpan(al, lines, n) && TableRenders(Join(lines[..n]))
    ensures EscapeLines(al, lines) == lines[..n] + EscapeLines(al, lines[n..])
  {
    TableBlockIs(al, lines, n);
    hide BlockAt, TableSpan, TableRenders, EscapeLine, Join, Split;
  }

  /** The lines of any other table block are escaped as one text. */
  lemma TableEscaped(al: Alphabet, lines: seq<string>, n: nat)
    requires al.Lawful() && TableSpan(al, lines, n) && !TableRenders(Join(lines[..n]))
    ensures EscapeLines(al, lines) == Split(EscapeLine(al, Join(lines[..n]))) + EscapeLines(al, lines[n..])
  {
    TableBlockIs(al, lines, n);
    hide BlockAt, TableSpan, TableRenders, EscapeLine, Join, Split;
  }

  // Ordinary lines

  /** No fence, closed display math or table begins with the first of `lines`. */
  ghost predicate OrdinaryLine(al: Alphabet, lines: seq<string>)
    requires lines != []
  {
    && (forall mark, length: nat :: !FenceLine(lines[0], mark, length)) && !TableLine(al, lines[0])
    && (forall m: nat, from: nat :: !MathSpan(al, lines, m, from))
  }

  lemma NoFence(line: string)
    ensures FenceOf(line) == None <==> forall mark, length: nat :: !FenceLine(line, mark, length)
  {
    hide FenceLine, FenceOf;
    forall mark, length: nat ensures FenceOf(line) == Some(Fence(mark, length)) <==> FenceLine(line, mark, length) {
      FenceIs(line, mark, length);
    }
    if FenceOf(line).Some? {
      assert FenceLine(line, FenceOf(line).value.mark, FenceOf(line).value.length);
    }
  }

  /** Math that opens and has a block is closed. */
  lemma MathBlockCloses(al: Alphabet, lines: seq<string>)
    requires al.Lawful() && lines != [] && MathOpen(al, lines[0]).Some? && BlockAt(al, lines).Some?
    ensures exists m: nat, from: nat :: MathSpan(al, lines, m, from)
  {
    hide OpensMath, ClosesMath, MathClose, MathDelimiter, FirstDelimiter, NoDelimiters, MathOpen, FenceOf, OpensTable,
      TableEnd, Renders, Join;
    var open := MathOpen(al, lines[0]).value;
    MathOpenIs(al, lines[0], open);
    OpensAt(al, lines[0], open);
    var body := lines[0][open..];
    DelimiterIs(body);
    match MathDelimiter(body, 0)
    case Some(k) =>
      assert MathOpenedAt(al, lines, 0, open + k + 2, open);
      assert MathSpan(al, lines, 0, open + k + 2);
    case None =>
      var block := MathClose(al, lines, 1).value;
      MathCloseFinds(al, lines, 1);
      ClosesLater(al, lines, block.end - 1, block.kind.from);
      assert MathOpenedAt(al, lines, block.end - 1, block.kind.from, open);
      assert MathSpan(al, lines, block.end - 1, block.kind.from);
  }

  lemma OpensAt(al: Alphabet, line: string, open: nat)
    requires OpensMath(al, line, open)
    ensures 2 <= open <= |line|
  {
  }

  lemma ClosesLater(al: Alphabet, lines: seq<string>, m: nat, from: nat)
    requires m < |lines| && from >= 2 && ClosesMath(al, lines, 1, m, from)
    ensures m > 0
  {
  }

  /** Every other line is escaped by itself. */
  lemma OrdinaryEscaped(al: Alphabet, lines: seq<string>)
    requires al.Lawful() && lines != [] && OrdinaryLine(al, lines)
    ensures EscapeLines(al, lines) == [EscapeLine(al, lines[0])] + EscapeLines(al, lines[1..])
  {
    hide FenceLine, TableLine, MathSpan, MathOpen, MathDelimiter, MathClose, FenceOf, FenceEnd, OpensTable, TableEnd,
      Renders, Join, Split, EscapeLine;
    NoFence(lines[0]);
    TableLineIs(al, lines[0]);
    if BlockAt(al, lines).Some? && MathOpen(al, lines[0]).Some? {
      MathBlockCloses(al, lines);
    }
    assert BlockAt(al, lines) == None;
  }

  lemma {:induction false} FenceEndFinds(lines: seq<string>, index: nat, fence: Fence)
    requires index <= |lines| && fence.length >= 3 && (fence.mark == '`' || fence.mark == '~')
    ensures var n := FenceEnd(lines, index, fence);
            && (forall k | index <= k < n - 1 :: !ClosesFence(lines[k], fence.mark, fence.length))
            && (n == |lines| || (n > index && ClosesFence(lines[n - 1], fence.mark, fence.length)))
    decreases |lines| - index
  {
    hide FenceOf, ClosesFence;
    if index < |lines| {
      ClosingIs(lines[index], fence);
      FenceEndFinds(lines, index + 1, fence);
    }
  }

  /** A fence begins a span exactly when it begins a line. */
  lemma FenceSpans(lines: seq<string>)
    requires lines != []
    ensures (exists n: nat :: FencedSpan(lines, n)) <==>
            exists mark, length: nat :: FenceLine(lines[0], mark, length)
  {
    hide FenceLine, ClosesFence, FenceEnd;
    if exists n: nat :: FencedSpan(lines, n) {
      var n: nat :| FencedSpan(lines, n);
      var mark, length: nat :| FencedBy(lines, n, mark, length);
    }
    if exists mark, length: nat :: FenceLine(lines[0], mark, length) {
      var mark, length: nat :| FenceLine(lines[0], mark, length);
      FenceFacts(lines[0], mark, length);
      FenceEndFinds(lines, 1, Fence(mark, length));
      var n := FenceEnd(lines, 1, Fence(mark, length));
      assert FencedBy(lines, n, mark, length);
      assert FencedSpan(lines, n);
    }
  }

  lemma TableSpans(al: Alphabet, lines: seq<string>)
    requires lines != []
    ensures (exists n: nat :: TableSpan(al, lines, n)) <==> TableLine(al, lines[0])
  {
    hide TableLine, TableSpan, TableEnd;
    TableSpanIs(al, lines, TableEnd(al, lines, 0, 0));
    forall n: nat | TableSpan(al, lines, n) ensures TableLine(al, lines[0]) {
      TableSpanIs(al, lines, n);
    }
  }

  lemma MathOpens(al: Alphabet, lines: seq<string>, m: nat, from: nat)
    requires al.Lawful() && MathSpan(al, lines, m, from)
    ensures MathOpen(al, lines[0]).Some?
  {
    hide MathOpen, OpensMath, ClosesMath, FirstDelimiter, NoDelimiters;
    var open: nat :| MathOpenedAt(al, lines, m, from, open);
    MathOpenIs(al, lines[0], open);
  }

  /** Every document begins with an ordinary line or with one of the three kinds of block, and not with two. */
  lemma OneOfFour(al: Alphabet, lines: seq<string>)
    requires al.Lawful() && lines != []
    ensures var fenced, table, math := exists n: nat :: FencedSpan(lines, n), exists n: nat :: TableSpan(al, lines, n),
                                       exists m: nat, from: nat :: MathSpan(al, lines, m, from);
            && (OrdinaryLine(al, lines) <==> !fenced && !table && !math)
            && !(fenced && table) && !(fenced && math) && !(table && math)
  {
    hide FencedSpan, TableSpan, MathSpan, FenceLine, TableLine, MathOpen, FenceOf, OpensTable;
    FenceSpans(lines);
    TableSpans(al, lines);
    TableLineIs(al, lines[0]);
    forall mark, length: nat | FenceLine(lines[0], mark, length)
      ensures MathOpen(al, lines[0]) == None && FenceOf(lines[0]).Some?
    {
      FenceNotMath(al, lines[0], mark, length);
    }
    forall m: nat, from: nat | MathSpan(al, lines, m, from) ensures MathOpen(al, lines[0]).Some? {
      MathOpens(al, lines, m, from);
    }
  }
}
