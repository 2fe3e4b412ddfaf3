/**
 Blocks that Kordoc keeps verbatim: display math, fences and HTML tables, as the scanner of lines
 finds them.
 */
module MarkdownBlocks {
  import opened Basics
  import opened Regex
  import opened MarkdownInline
  import opened MarkdownTables

  // Lines

  function Split(text: string): (lines: seq<string>)
    ensures lines != []
    decreases |text|
  {
    var n := First(Is('\n'), text, 0);
    if n == |text| then [text] else [text[..n]] + Split(text[n + 1..])
  }

  function Join(lines: seq<string>): string {
    if lines == [] then "" else if |lines| == 1 then lines[0] else lines[0] + "\n" + Join(lines[1..])
  }

  // What a line looks like

  /** The line is white space only. */
  predicate Blank(al: Alphabet, line: string) {
    First(Not(al.isSpace), line, 0) == |line|
  }

  predicate DollarsAt(text: string, i: nat) {
    HasAt(Is('$'), text, i) && HasAt(Is('$'), text, i + 1)
  }

  /** The length of the match of /^\s*\$\$/u. */
  function MathOpen(al: Alphabet, line: string): (r: Option<nat>)
    ensures r.Some? ==> r.value <= |line|
  {
    var k := First(Not(al.isSpace), line, 0);
    if DollarsAt(line, k) then Some(k + 2) else None
  }

  /** JavaScript's `text.indexOf("$$", from)`. */
  function NextDollars(text: string, from: nat): (r: Option<nat>)
    ensures r.Some? ==> from <= r.value && DollarsAt(text, r.value)
    ensures forall k | from <= k && DollarsAt(text, k) :: r.Some? && r.value <= k
    decreases |text| - from
  {
    if from >= |text| then None else if DollarsAt(text, from) then Some(from) else NextDollars(text, from + 1)
  }

  /** How many backslashes stand directly before `i`. */
  function Backslashes(text: string, i: nat): nat {
    if HasAt(Is('\\'), text, i - 1) then 1 + Backslashes(text, i - 1) else 0
  }

  /** The first "$$" at or after `from` that is not escaped; a "$$" at 0 cannot be. */
  function MathDelimiter(text: string, from: nat): (r: Option<nat>)
    ensures r.Some? ==> from <= r.value && r.value + 2 <= |text|
    decreases |text| - from
  {
    match NextDollars(text, from)
    case None => None
    case Some(k) => if k == 0 || Backslashes(text, k) % 2 == 0 then Some(k) else MathDelimiter(text, k + 1)
  }

  method CountBackslashes(text: string, i: nat) returns (backslashes: nat)
    requires i <= |text|
    ensures backslashes == Backslashes(text, i)
  {
    backslashes := 0;
    var cursor := i - 1;
    while cursor >= 0 && text[cursor] == '\\'
      invariant -1 <= cursor < i
      invariant backslashes + Backslashes(text, cursor + 1) == Backslashes(text, i)
    {
      backslashes := backslashes + 1;
      cursor := cursor - 1;
    }
  }

  method FindMathDelimiter(text: string) returns (r: int)
    ensures r == match MathDelimiter(text, 0) case None => -1 case Some(k) => k
  {
    hide Backslashes, NextDollars;
    var index := NextDollars(text, 0);
    DelimiterTurn(text, 0);
    while index.Some? && index.value > 0
      invariant index.Some? ==> DollarsAt(text, index.value)
      invariant MathDelimiter(text, 0) == match index case None => None case Some(k) => MathDelimiter(text, k)
      decreases if index.Some? then |text| - index.value + 1 else 0
    {
      DelimiterHere(text, index.value);
      var backslashes := CountBackslashes(text, index.value);
      if backslashes % 2 == 0 {
        return index.value;
      }
      DelimiterTurn(text, index.value + 1);
      index := NextDollars(text, index.value + 1);
    }
    if index.None? {
      return -1;
    }
    DelimiterHere(text, 0);
    return 0;
  }

  lemma DelimiterHere(text: string, k: nat)
    requires DollarsAt(text, k)
    ensures MathDelimiter(text, k) == if k == 0 || Backslashes(text, k) % 2 == 0 then Some(k)
            else MathDelimiter(text, k + 1)
  {
    assert NextDollars(text, k) == Some(k);
  }

  /** Searching from a position or from the next "$$" is the same. */
  lemma DelimiterTurn(text: string, from: nat)
    ensures MathDelimiter(text, from) == match NextDollars(text, from) case None => None
            case Some(k) => MathDelimiter(text, k)
  {
    var next := NextDollars(text, from);
    if next.Some? {
      assert NextDollars(text, next.value) == next;
    }
  }

  datatype Fence = Fence(mark: char, length: nat)

  /** A run of at least three marks at `k`. */
  function MarksAt(line: string, k: nat): Option<Fence> {
    if k >= |line| || (line[k] != '`' && line[k] != '~') then None
    else
      var stop := First(Not(Is(line[k])), line, k);
      if stop - k >= 3 then Some(Fence(line[k], stop - k)) else None
  }

  /** /^ {0,3}(`{3,}|~{3,})/u */
  function FenceOf(line: string): Option<Fence> {
    var k := First(Not(Is(' ')), line, 0);
    if k <= 3 then MarksAt(line, k) else None
  }

  /** /^\s*(`{3,}|~{3,})/u, whatever the indentation. */
  predicate StopsMath(al: Alphabet, line: string) {
    MarksAt(line, First(Not(al.isSpace), line, 0)).Some?
  }

  /** /<table[\s>]/iu at `i` */
  predicate TableStartsAt(al: Alphabet, line: string, i: nat) {
    HasAt(Is('<'), line, i) && NameAt("table", line, i + 1) && HasAt(StopAngle(al), line, i + 6)
  }

  /** /<\/table>/iu at `i` */
  predicate TableEndsAt(line: string, i: nat) {
    HasAt(Is('<'), line, i) && HasAt(Is('/'), line, i + 1) && NameAt("table", line, i + 2)
      && HasAt(Is('>'), line, i + 7)
  }

  predicate OpensTable(al: Alphabet, line: string) {
    TableStartsAt(al, line, First(Not(al.isSpace), line, 0))
  }

  /** Opening minus closing table tags from `i` on; neither kind of match can overlap another. */
  function TableBalance(al: Alphabet, line: string, i: nat): int
    requires i <= |line|
    decreases |line| - i
  {
    if i == |line| then 0
    else
      (if TableStartsAt(al, line, i) then 1 else 0) - (if TableEndsAt(line, i) then 1 else 0)
        + TableBalance(al, line, i + 1)
  }

  // Blocks

  datatype Kind = Verbatim | Trailing(from: nat) | EscapeAll

  /** A block of the first `end` lines; with `Trailing`, text outside it starts at `from` in its last line. */
  datatype Block = Block(end: nat, kind: Kind)

  function MathClose(al: Alphabet, lines: seq<string>, index: nat): (r: Option<Block>)
    ensures r.Some? ==>
              index < r.value.end <= |lines| && r.value.kind.Trailing? && r.value.kind.from <= |lines[r.value.end - 1]|
    decreases |lines| - index
  {
    if index >= |lines| || Blank(al, lines[index]) || StopsMath(al, lines[index]) then None
    else
      match MathDelimiter(lines[index], 0)
      case Some(k) => Some(Block(index + 1, Trailing(k + 2)))
      case None => MathClose(al, lines, index + 1)
  }

  function FenceEnd(lines: seq<string>, index: nat, fence: Fence): (r: nat)
    requires index <= |lines|
    ensures index <= r <= |lines|
    decreases |lines| - index
  {
    if index == |lines| then index
    else if FenceOf(lines[index]).Some? && FenceOf(lines[index]).value.mark == fence.mark
            && FenceOf(lines[index]).value.length >= fence.length then index + 1
    else FenceEnd(lines, index + 1, fence)
  }

  function TableEnd(al: Alphabet, lines: seq<string>, index: nat, depth: int): (r: nat)
    requires index <= |lines|
    ensures index <= r <= |lines| && (index < |lines| ==> index < r)
    decreases |lines| - index
  {
    if index == |lines| then index
    else
      var now := depth + TableBalance(al, lines[index], 0);
      if now <= 0 then index + 1 else TableEnd(al, lines, index + 1, now)
  }

  /** The protected block that starts with the first of `lines`. */
  function BlockAt(al: Alphabet, lines: seq<string>): (r: Option<Block>)
    requires lines != []
    ensures r.Some? ==>
              0 < r.value.end <= |lines| && (r.value.kind.Trailing? ==> r.value.kind.from <= |lines[r.value.end - 1]|)
  {
    var line := lines[0];
    match MathOpen(al, line)
    case Some(open) =>
      (match MathDelimiter(line[open..], 0)
       case Some(k) => Some(Block(1, Trailing(open + k + 2)))
       case None => MathClose(al, lines, 1))
    case None =>
      match FenceOf(line)
      case Some(fence) => Some(Block(FenceEnd(lines, 1, fence), Verbatim))
      case None =>
        if OpensTable(al, line) then
          var end := TableEnd(al, lines, 0, 0);
          Some(Block(end, if Renders(Join(lines[..end])) then Verbatim else EscapeAll))
        else None
  }

  /** The scan for the closing delimiter of multi-line math. */
  method CloseMath(al: Alphabet, lines: seq<string>, start: nat) returns (r: Option<Block>)
    requires start <= |lines|
    ensures r == MathClose(al, lines, start)
  {
    hide MathDelimiter, Blank, StopsMath;
    var index := start;
    while index < |lines|
      invariant start <= index <= |lines| && MathClose(al, lines, start) == MathClose(al, lines, index)
    {
      var next := lines[index];
      if Blank(al, next) || StopsMath(al, next) {
        return None;
      }
      var close := FindMathDelimiter(next);
      if close >= 0 {
        return Some(Block(index + 1, Trailing(close + 2)));
      }
      index := index + 1;
    }
    return None;
  }

  /** The scan for the closing fence. */
  method CloseFence(lines: seq<string>, start: nat, fence: Fence) returns (end: nat)
    requires start <= |lines|
    ensures end == FenceEnd(lines, start, fence)
  {
    hide FenceOf;
    var index := start;
    while index < |lines|
      invariant start <= index <= |lines| && FenceEnd(lines, start, fence) == FenceEnd(lines, index, fence)
    {
      var marker := FenceOf(lines[index]);
      index := index + 1;
      if marker.Some? && marker.value.mark == fence.mark && marker.value.length >= fence.length {
        break;
      }
    }
    return index;
  }

  /** The scan for the line that balances the table tags. */
  method CloseTable(al: Alphabet, lines: seq<string>) returns (blockLines: seq<string>, end: nat)
    ensures end == TableEnd(al, lines, 0, 0) && blockLines == lines[..end]
  {
    hide TableBalance;
    var depth := 0;
    var index := 0;
    blockLines := [];
    while index < |lines|
      invariant 0 <= index <= |lines| && blockLines == lines[..index]
      invariant TableEnd(al, lines, 0, 0) == TableEnd(al, lines, index, depth)
    {
      var current := lines[index];
      assert lines[..index + 1] == lines[..index] + [current];
      blockLines := blockLines + [current];
      depth := depth + TableBalance(al, current, 0);
      index := index + 1;
      if depth <= 0 {
        break;
      }
    }
    return blockLines, index;
  }

  method ProtectedBlock(al: Alphabet, lines: seq<string>) returns (block: Option<Block>)
    requires lines != []
    ensures block == BlockAt(al, lines)
  {
    hide MathDelimiter, MathClose, FenceOf, FenceEnd, TableEnd, Renders, OpensTable, MathOpen, Join;
    var line := lines[0];
    var mathOpen := MathOpen(al, line);
    if mathOpen.Some? {
      var sameLine := FindMathDelimiter(line[mathOpen.value..]);
      if sameLine >= 0 {
        return Some(Block(1, Trailing(mathOpen.value + sameLine + 2)));
      }
      block := CloseMath(al, lines, 1);
      return;
    }
    var fence := FenceOf(line);
    if fence.Some? {
      var end := CloseFence(lines, 1, fence.value);
      return Some(Block(end, Verbatim));
    }
    if OpensTable(al, line) {
      var blockLines, end := CloseTable(al, lines);
      var renders := HtmlTableRenders(Join(blockLines));
      return Some(Block(end, if renders then Verbatim else EscapeAll));
    }
    return None;
  }
}
