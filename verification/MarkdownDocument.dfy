/**
 Escaping a whole Markdown document: block by block, with the lines replaced in place.
 */
module MarkdownDocument {
  import opened Basics
  import opened MarkdownInline
  import opened MarkdownEscape
  import opened MarkdownInserted
  import opened MarkdownStable
  import opened MarkdownBlocks
  import opened MarkdownLines

  /** The lines of one block after the escape. */
  function EscapeBlock(al: Alphabet, lines: seq<string>, kind: Kind): seq<string>
    requires lines != [] && (kind.Trailing? ==> kind.from <= |lines[|lines| - 1]|)
  {
    match kind
    case Verbatim => lines
    case EscapeAll => Split(EscapeLine(al, Join(lines)))
    case Trailing(from) =>
      var closing := lines[|lines| - 1];
      lines[..|lines| - 1] + [closing[..from] + EscapeLine(al, closing[from..])]
  }

  /** The lines of a document after the escape. */
  function EscapeLines(al: Alphabet, lines: seq<string>): seq<string>
    decreases |lines|
  {
    if lines == [] then []
    else
      match BlockAt(al, lines)
      case None => [EscapeLine(al, lines[0])] + EscapeLines(al, lines[1..])
      case Some(block) => EscapeBlock(al, lines[..block.end], block.kind) + EscapeLines(al, lines[block.end..])
  }

  function EscapeDocument(al: Alphabet, markdown: string): string {
    Join(EscapeLines(al, Split(markdown)))
  }

  // One block

  lemma {:induction false} InsertedOneLine(s: string, i: nat, t: string, j: nat)
    requires i <= |s| && j <= |t| && Inserted(s, i, t, j) && '\n' !in s[i..]
    ensures '\n' !in t[j..]
    decreases |s| - i
  {
    if i < |s| {
      assert s[i..] == [s[i]] + s[i + 1..] && t[j..] == [t[j]] + t[j + 1..];
      if t[j] == s[i] {
        InsertedOneLine(s, i + 1, t, j + 1);
      } else {
        assert t[j + 1..] == [t[j + 1]] + t[j + 2..];
        InsertedOneLine(s, i + 1, t, j + 2);
      }
    }
  }

  lemma EscapedOneLine(al: Alphabet, line: string)
    requires al.Lawful() && OneLine(line)
    ensures OneLine(EscapeLine(al, line)) && Inserted(line, 0, EscapeLine(al, line), 0)
  {
    hide EscapeLine, Ranges, Inserted;
    var out := EscapeLine(al, line);
    EscapeLineStable(al, line);
    assert line[0..] == line && out[0..] == out;
    InsertedOneLine(line, 0, out, 0);
  }

  lemma {:induction false} EscapeAllInserted(al: Alphabet, lines: seq<string>)
    requires al.Lawful() && lines != [] && AllLines(lines)
    ensures var out := Split(EscapeLine(al, Join(lines))); LinesInserted(lines, out) && AllLines(out)
  {
    hide EscapeLine, Ranges, Inserted, Split, Join;
    var text := Join(lines);
    EscapeLineStable(al, text);
    JoinSplits(lines);
    SplitInserted(text, EscapeLine(al, text));
    SplitLines(EscapeLine(al, text));
  }

  lemma TrailingInserted(al: Alphabet, closing: string, from: nat)
    requires al.Lawful() && OneLine(closing) && from <= |closing|
    ensures var out := closing[..from] + EscapeLine(al, closing[from..]); OneLine(out) && Inserted(closing, 0, out, 0)
  {
    hide EscapeLine, Inserted;
    assert OneLine(closing[from..]) && OneLine(closing[..from]);
    EscapedOneLine(al, closing[from..]);
    SelfInserted(closing[..from], 0);
    AppendInserted(closing[..from], 0, closing[..from], 0, closing[from..], EscapeLine(al, closing[from..]));
    assert closing[..from] + closing[from..] == closing;
  }

  lemma {:induction false} BlockInserted(al: Alphabet, lines: seq<string>, kind: Kind)
    requires al.Lawful() && lines != [] && AllLines(lines) && (kind.Trailing? ==> kind.from <= |lines[|lines| - 1]|)
    ensures LinesInserted(lines, EscapeBlock(al, lines, kind)) && AllLines(EscapeBlock(al, lines, kind))
  {
    hide EscapeLine, Inserted, Split, Join, OneLine;
    forall k | 0 <= k < |lines| ensures Inserted(lines[k], 0, lines[k], 0) {
      SelfInserted(lines[k], 0);
    }
    match kind
    case Verbatim =>
    case EscapeAll => EscapeAllInserted(al, lines);
    case Trailing(from) => TrailingInserted(al, lines[|lines| - 1], from);
  }

  /** A second escape of an escaped block changes nothing. */
  lemma {:induction false} BlockStable(al: Alphabet, lines: seq<string>, kind: Kind)
    requires al.Lawful() && lines != [] && AllLines(lines) && (kind.Trailing? ==> kind.from <= |lines[|lines| - 1]|)
    ensures var out := EscapeBlock(al, lines, kind);
            && out != [] && (kind.Trailing? ==>
                  kind.from <= |out[|out| - 1]| && out[|out| - 1][..kind.from] == lines[|lines| - 1][..kind.from])
            && EscapeBlock(al, out, kind) == out
  {
    hide EscapeLine, Ranges, Split, Join;
    match kind
    case Verbatim =>
    case EscapeAll =>
      EscapeLineStable(al, Join(lines));
      SplitLines(EscapeLine(al, Join(lines)));
    case Trailing(from) =>
      var closing := lines[|lines| - 1];
      var rest := EscapeLine(al, closing[from..]);
      EscapeLineStable(al, closing[from..]);
      var last := closing[..from] + rest;
      assert last[..from] == closing[..from] && last[from..] == rest;
  }

  // All lines

  lemma {:induction false} LinesEscaped(al: Alphabet, lines: seq<string>)
    requires al.Lawful() && AllLines(lines)
    ensures LinesInserted(lines, EscapeLines(al, lines)) && AllLines(EscapeLines(al, lines))
    decreases |lines|
  {
    hide BlockAt, EscapeBlock, EscapeLine, Inserted, OneLine, LinesInserted, AllLines;
    if lines == [] {
      NoLines();
    } else {
      match BlockAt(al, lines)
      case None =>
        CutLines(lines, 1);
        OneLineEscaped(al, lines[0]);
        LinesEscaped(al, lines[1..]);
        LinesJoin([lines[0]], [EscapeLine(al, lines[0])], lines[1..], EscapeLines(al, lines[1..]));
        assert lines[..1] == [lines[0]];
      case Some(block) =>
        CutLines(lines, block.end);
        BlockInserted(al, lines[..block.end], block.kind);
        LinesEscaped(al, lines[block.end..]);
        LinesJoin(lines[..block.end], EscapeBlock(al, lines[..block.end], block.kind),
                  lines[block.end..], EscapeLines(al, lines[block.end..]));
    }
  }

  lemma NoLines()
    ensures LinesInserted([], []) && AllLines([])
  {
  }

  lemma CutLines(lines: seq<string>, k: nat)
    requires k <= |lines| && AllLines(lines)
    ensures AllLines(lines[..k]) && AllLines(lines[k..]) && lines[..k] + lines[k..] == lines
    ensures k > 0 ==> OneLine(lines[0])
  {
    hide OneLine;
  }

  lemma OneLineEscaped(al: Alphabet, line: string)
    requires al.Lawful() && OneLine(line)
    ensures LinesInserted([line], [EscapeLine(al, line)]) && AllLines([EscapeLine(al, line)])
  {
    hide EscapeLine, Inserted, OneLine;
    EscapedOneLine(al, line);
  }

  lemma LinesJoin(a: seq<string>, b: seq<string>, c: seq<string>, d: seq<string>)
    requires LinesInserted(a, b) && LinesInserted(c, d) && AllLines(b) && AllLines(d)
    ensures LinesInserted(a + c, b + d) && AllLines(b + d)
  {
    hide Inserted, OneLine;
  }

  /** The blocks of a document in order; None is an ordinary line. */
  function Blocks(al: Alphabet, lines: seq<string>): seq<Option<Block>>
    decreases |lines|
  {
    if lines == [] then []
    else
      match BlockAt(al, lines)
      case None => [None] + Blocks(al, lines[1..])
      case Some(block) => [Some(block)] + Blocks(al, lines[block.end..])
  }

  /** The escaped lines have the same blocks, with the same offsets, and are their own escape. */
  lemma {:induction false} LinesStable(al: Alphabet, lines: seq<string>)
    requires al.Lawful() && AllLines(lines)
    ensures var out := EscapeLines(al, lines); EscapeLines(al, out) == out && Blocks(al, out) == Blocks(al, lines)
    decreases |lines|
  {
    hide BlockAt, EscapeBlock, EscapeLine, Inserted, OneLine, SameHead;
    if lines != [] {
      var out := EscapeLines(al, lines);
      LinesEscaped(al, lines);
      SameBlock(al, lines, out);
      match BlockAt(al, lines)
      case None =>
        LinesStable(al, lines[1..]);
        LineStable(al, lines[0]);
        assert out[1..] == EscapeLines(al, lines[1..]);
      case Some(block) =>
        var head := EscapeBlock(al, lines[..block.end], block.kind);
        BlockInserted(al, lines[..block.end], block.kind);
        BlockStable(al, lines[..block.end], block.kind);
        LinesStable(al, lines[block.end..]);
        assert out == head + EscapeLines(al, lines[block.end..]) && |head| == block.end;
        assert out[..block.end] == head && out[block.end..] == EscapeLines(al, lines[block.end..]);
        HeadKept(block, lines, out, head);
    }
  }

  lemma LineStable(al: Alphabet, line: string)
    requires al.Lawful()
    ensures EscapeLine(al, EscapeLine(al, line)) == EscapeLine(al, line)
  {
    EscapeLineStable(al, line);
  }

  lemma HeadKept(block: Block, lines: seq<string>, out: seq<string>, head: seq<string>)
    requires 0 < block.end <= |lines| && block.end <= |out| && head == out[..block.end]
    requires block.kind.Trailing? ==>
               && block.kind.from <= |lines[block.end - 1]| && block.kind.from <= |head[|head| - 1]|
               && head[|head| - 1][..block.kind.from] == lines[..block.end][block.end - 1][..block.kind.from]
    ensures SameHead(block, lines, out)
  {
  }

  // The document

  /**
   Escaping a document changes no block and no offset of a block, only inserts backslashes in front
   of underscores, keeps the number of lines, and escaping again changes nothing.
   */
  lemma EscapeIsStable(al: Alphabet, markdown: string)
    requires al.Lawful()
    ensures var out := EscapeDocument(al, markdown);
            && EscapeDocument(al, out) == out
            && Inserted(markdown, 0, out, 0)
            && |Split(out)| == |Split(markdown)|
            && Blocks(al, Split(out)) == Blocks(al, Split(markdown))
  {
    hide EscapeLines, Blocks, Inserted, Split, Join;
    var lines := Split(markdown);
    SplitLines(markdown);
    LinesEscaped(al, lines);
    LinesStable(al, lines);
    JoinSplits(EscapeLines(al, lines));
    JoinInserted(lines, EscapeLines(al, lines));
  }

  /** How much of the beginning of every line is protected by the block it belongs to. */
  function KeptPrefixes(al: Alphabet, lines: seq<string>): (r: seq<nat>)
    ensures |r| == |lines| && forall k | 0 <= k < |lines| :: r[k] <= |lines[k]|
    decreases |lines|
  {
    if lines == [] then []
    else
      match BlockAt(al, lines)
      case None => [0] + KeptPrefixes(al, lines[1..])
      case Some(block) => BlockPrefixes(lines[..block.end], block.kind) + KeptPrefixes(al, lines[block.end..])
  }

  function BlockPrefixes(lines: seq<string>, kind: Kind): (r: seq<nat>)
    requires lines != [] && (kind.Trailing? ==> kind.from <= |lines[|lines| - 1]|)
    ensures |r| == |lines| && forall k | 0 <= k < |lines| :: r[k] <= |lines[k]|
  {
    seq(|lines|, k requires 0 <= k < |lines| =>
          match kind
          case Verbatim => |lines[k]|
          case EscapeAll => 0
          case Trailing(from) => if k == |lines| - 1 then from else |lines[k]|)
  }

  lemma {:induction false} BlockVerbatim(al: Alphabet, lines: seq<string>, kind: Kind, k: nat)
    requires al.Lawful() && lines != [] && AllLines(lines) && (kind.Trailing? ==> kind.from <= |lines[|lines| - 1]|)
             && k < |lines|
    ensures var out, kept := EscapeBlock(al, lines, kind), BlockPrefixes(lines, kind)[k];
            |out| == |lines| && kept <= |out[k]| && out[k][..kept] == lines[k][..kept]
  {
    hide EscapeLine, Inserted, OneLine, Split, Join;
    BlockInserted(al, lines, kind);
  }

  /** Protected text is copied verbatim: whole lines, and the head of a line that closes display math. */
  lemma {:induction false} ProtectedVerbatim(al: Alphabet, lines: seq<string>, k: nat)
    requires al.Lawful() && AllLines(lines) && k < |lines|
    ensures |EscapeLines(al, lines)| == |lines|
    ensures var kept := KeptPrefixes(al, lines)[k];
            kept <= |EscapeLines(al, lines)[k]| && EscapeLines(al, lines)[k][..kept] == lines[k][..kept]
    decreases |lines|
  {
    hide BlockAt, EscapeLine, OneLine, Inserted, EscapeBlock, BlockPrefixes;
    LinesEscaped(al, lines);
    match BlockAt(al, lines)
    case None =>
      if k > 0 {
        ProtectedVerbatim(al, lines[1..], k - 1);
      }
    case Some(block) =>
      var head := lines[..block.end];
      if k >= block.end {
        BlockVerbatim(al, head, block.kind, 0);
        ProtectedVerbatim(al, lines[block.end..], k - block.end);
      } else {
        BlockVerbatim(al, head, block.kind, k);
      }
  }

  // The loop

  /** The lines before `index` are escaped, the others are still to be done. */
  ghost predicate Escaping(al: Alphabet, whole: seq<string>, lines: seq<string>, index: nat) {
    index <= |lines| && AllLines(lines) && whole == lines[..index] + EscapeLines(al, lines[index..])
  }

  /** One turn of the loop: the block or line at `index` is replaced, and nothing else. */
  lemma {:induction false} EscapingTurn(al: Alphabet, whole: seq<string>, lines: seq<string>, index: nat,
      more: seq<string>)
    requires al.Lawful() && Escaping(al, whole, lines, index) && index < |lines|
    requires var block := BlockAt(al, lines[index..]);
             more == lines[..index]
                     + (match block case None => [EscapeLine(al, lines[index])]
                                    case Some(b) => EscapeBlock(al, lines[index..][..b.end], b.kind))
                     + lines[index + (match block case None => 1 case Some(b) => b.end)..]
    ensures |more| == |lines|
    ensures Escaping(al, whole, more, index + match BlockAt(al, lines[index..]) case None => 1 case Some(b) => b.end)
  {
    hide BlockAt, EscapeBlock, EscapeLine, OneLine, Inserted;
    var rest := lines[index..];
    var block := BlockAt(al, rest);
    var n := match block case None => 1 case Some(b) => b.end;
    var head := match block case None => [EscapeLine(al, rest[0])]
      case Some(b) => EscapeBlock(al, rest[..b.end], b.kind);
    match block
    case None => EscapedOneLine(al, rest[0]);
    case Some(b) => BlockInserted(al, rest[..b.end], b.kind);
    assert rest[n..] == lines[index + n..];
    assert |head| == n && more[..index + n] == lines[..index] + head && more[index + n..] == rest[n..];
    assert lines[..index] + (head + EscapeLines(al, rest[n..])) == lines[..index] + head + EscapeLines(al, rest[n..]);
  }

  method EscapeIntrawordUnderscores(al: Alphabet, markdown: string) returns (result: string)
    requires al.Lawful()
    ensures result == EscapeDocument(al, markdown)
  {
    hide EscapeLines, EscapeLine, BlockAt, Split, Join, AllLines;
    var lines := Split(markdown);
    SplitLines(markdown);
    ghost var whole := EscapeLines(al, lines);
    var index: nat := 0;
    assert lines[..0] + EscapeLines(al, lines[0..]) == whole by { assert lines[0..] == lines; }
    while index < |lines|
      invariant Escaping(al, whole, lines, index)
      decreases |lines| - index
    {
      var block := ProtectedBlock(al, lines[index..]);
      ghost var before := lines;
      var next := if block.None? then index + 1 else index + block.value.end;
      if block.None? {
        var escaped := EscapeOneLine(al, lines[index]);
        lines := lines[..index] + [escaped] + lines[index + 1..];
      } else if block.value.kind == EscapeAll {
        var escaped := EscapeOneLine(al, Join(lines[index..][..block.value.end]));
        lines := lines[..index] + Split(escaped) + lines[next..];
      } else if block.value.kind.Trailing? {
        var from := block.value.kind.from;
        var closing := lines[index..][..block.value.end][block.value.end - 1];
        var escaped := EscapeOneLine(al, closing[from..]);
        lines := lines[..index] + (lines[index..][..block.value.end - 1] + [closing[..from] + escaped]) + lines[next..];
        assert before[index..][..block.value.end][..block.value.end - 1] == before[index..][..block.value.end - 1];
      } else {
        assert lines == lines[..index] + lines[index..][..block.value.end] + lines[next..];
      }
      EscapingTurn(al, whole, before, index, lines);
      index := next;
    }
    NothingToDo(al, whole, lines, index);
    return Join(lines);
  }

  lemma NothingToDo(al: Alphabet, whole: seq<string>, lines: seq<string>, index: nat)
    requires Escaping(al, whole, lines, index) && index >= |lines|
    ensures whole == lines
  {
    assert lines[..index] == lines;
  }
}
