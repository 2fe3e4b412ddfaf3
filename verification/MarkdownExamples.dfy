/**
 Documents of one line: a word with an underscore, such a word in a table that renders, and in one that
 does not.
 */
module MarkdownExamples {
  import opened Basics
  import opened Regex
  import opened MarkdownInline
  import opened MarkdownEscape
  import opened MarkdownInserted
  import opened MarkdownTables
  import opened MarkdownRendering
  import opened MarkdownBlocks
  import opened MarkdownLines
  import opened MarkdownDocument
  import opened MarkdownMeaning

  // A word with an underscore

  /** None of the characters that protected inline text needs. */
  predicate NoInline(text: string) {
    '`' !in text && ':' !in text && '(' !in text
  }

  lemma NoRanges(al: Alphabet, line: string, i: nat)
    requires NoInline(line)
    ensures InlineEnd(al, line, i) == None
  {
    hide First, IsSchemeStart, FoldsTo;
    assert forall k | 0 <= k < |line| :: line[k] in line;
  }

  lemma EscapedCharacter(al: Alphabet, line: string, i: nat)
    requires i < |line| && InlineEnd(al, line, i) == None && line[i] != UNDERSCORE
    ensures Escaped(al, line, i) == [line[i]] + Escaped(al, line, i + 1)
  {
    hide InlineEnd, Intraword, RunEnd;
  }

  lemma {:induction false} NoUnderscores(al: Alphabet, line: string, i: nat, n: nat)
    requires al.Lawful() && NoInline(line) && i <= n <= |line| && forall k | i <= k < n :: line[k] != UNDERSCORE
    ensures Escaped(al, line, i) == line[i..n] + Escaped(al, line, n)
    decreases n - i
  {
    hide *;
    if i < n {
      NoRanges(al, line, i);
      EscapedCharacter(al, line, i);
      NoUnderscores(al, line, i + 1, n);
      assert line[i..n] == [line[i]] + line[i + 1..n];
    }
  }

  lemma NoInlineAround(before: string, after: string)
    requires NoInline(before) && NoInline(after)
    ensures NoInline(before + "_" + after)
  {
    assert '`' !in "_" && ':' !in "_" && '(' !in "_";
  }

  lemma NothingMore(al: Alphabet, line: string)
    ensures Escaped(al, line, |line|) == ""
  {
  }

  /** One underscore is escaped exactly between two letters or digits. */
  lemma OneUnderscore(al: Alphabet, before: string, after: string)
    requires al.Lawful() && NoInline(before) && NoInline(after) && UNDERSCORE !in before && UNDERSCORE !in after
    ensures var inside := before != "" && after != "" && al.isAlnum(before[|before| - 1]) && al.isAlnum(after[0]);
            EscapeLine(al, before + "_" + after) == before + (if inside then "\\_" else "_") + after
  {
    hide *;
    var line, n := before + "_" + after, |before|;
    NoInlineAround(before, after);
    EscapeLineIs(al, line);
    Around(before, after);
    NoUnderscores(al, line, 0, n);
    NoUnderscores(al, line, n + 1, |line|);
    NothingMore(al, line);
    NoRanges(al, line, n);
    OneRun(al, line, n);
    Appended(Escaped(al, line, 0), Escaped(al, line, n), Escaped(al, line, n + 1), before, after);
  }

  lemma Around(before: string, after: string)
    requires UNDERSCORE !in before && UNDERSCORE !in after
    ensures var line, n := before + "_" + after, |before|;
            && line[n] == UNDERSCORE && line[0..n] == before && line[n + 1..|line|] == after
            && (forall k | 0 <= k < |line| && k != n :: line[k] != UNDERSCORE)
            && (n > 0 ==> line[n - 1] == before[n - 1]) && (n + 1 < |line| ==> line[n + 1] == after[0])
            && (n + 1 < |line| <==> after != "") && (n > 0 <==> before != "")
  {
    var line, n := before + "_" + after, |before|;
    forall k | 0 <= k < |line| && k != n ensures line[k] != UNDERSCORE {
      if k < n {
        assert line[k] == before[k] && before[k] in before;
      } else {
        assert line[k] == after[k - n - 1] && after[k - n - 1] in after;
      }
    }
  }

  lemma Appended(whole: string, middle: string, rest: string, before: string, after: string)
    requires whole == before + middle && rest == after + ""
    ensures rest == after
    ensures middle == "\\_" + rest ==> whole == before + "\\_" + after
    ensures middle == "_" + rest ==> whole == before + "_" + after
  {
    assert before + ("\\_" + after) == before + "\\_" + after;
    assert before + ("_" + after) == before + "_" + after;
  }

  /** The step over a single underscore. */
  lemma OneRun(al: Alphabet, line: string, n: nat)
    requires n < |line| && line[n] == UNDERSCORE && (n + 1 < |line| ==> line[n + 1] != UNDERSCORE)
    requires InlineEnd(al, line, n) == None
    ensures var inside := 0 < n && n + 1 < |line| && al.isAlnum(line[n - 1]) && al.isAlnum(line[n + 1]);
            Escaped(al, line, n) == (if inside then "\\_" else "_") + Escaped(al, line, n + 1)
  {
    SingleRun(al, line, n);
    hide InlineEnd, Intraword, RunEnd, Escapes;
    assert line[n..n + 1] == "_";
  }

  lemma SingleRun(al: Alphabet, line: string, n: nat)
    requires n < |line| && line[n] == UNDERSCORE && (n + 1 < |line| ==> line[n + 1] != UNDERSCORE)
    ensures RunEnd(line, n) == n + 1 && Escapes(1) == "\\_"
    ensures Intraword(al, line, n) <==>
            0 < n && n + 1 < |line| && al.isAlnum(line[n - 1]) && al.isAlnum(line[n + 1])
  {
    FirstIs(Not(Is(UNDERSCORE)), line, n, n + 1);
    assert Escapes(1) == "\\_" + Escapes(0);
    hide First;
  }

  // Tags, one after the other

  lemma {:induction false} SpelledAt(name: string, s: string, i: nat)
    requires i + |name| <= |s| && forall k | 0 <= k < |name| :: s[i + k] == name[k]
    ensures NameAt(name, s, i)
  {
    if name != "" {
      SpelledAt(name[1..], s, i + 1);
    }
  }

  /** A tag without attributes. */
  function Written(isClose: bool, tag: TagName): string {
    "<" + (if isClose then "/" else "") + Spelled(tag) + ">"
  }

  lemma WrittenTag(isClose: bool, tag: TagName, rest: string)
    ensures var t := Written(isClose, tag); TagAt(t + rest, 0) == Some(HtmlTableTag(0, |t|, isClose, tag))
  {
    var s, i := Written(isClose, tag) + rest, if isClose then 2 else 1;
    hide NameAt;
    SpelledAt(Spelled(tag), s, i);
    NamesExcluded(s, i);
    assert NamedAt(s, i) == Some(tag);
    assert s[i + |Spelled(tag)|] == '>';
  }

  lemma TagsBehind(front: string, rest: string)
    ensures Kinds(Tags(front + rest, |front|)) == Kinds(Tags(rest, 0))
  {
    hide Inserted, Tags, Kinds;
    var s := front + rest;
    SelfInserted(rest, 0);
    ShiftInserted(s, |front|, rest, 0, |front|, 0);
    assert s[|front|..] == rest && rest[0..] == rest;
    SameTags(s, |front|, rest, 0);
  }

  lemma TagFirst(isClose: bool, tag: TagName, rest: string)
    ensures Kinds(Tags(Written(isClose, tag) + rest, 0)) == [(isClose, tag)] + Kinds(Tags(rest, 0))
  {
    hide TagAt, Written;
    var t := Written(isClose, tag);
    WrittenTag(isClose, tag, rest);
    TagsBehind(t, rest);
    KindsFront(HtmlTableTag(0, |t|, isClose, tag), Tags(t + rest, |t|));
  }

  lemma TextFirst(text: string, rest: string)
    requires '<' !in text && (rest != "" ==> rest[0] == '<')
    ensures Kinds(Tags(text + rest, 0)) == Kinds(Tags(rest, 0))
  {
    hide Tags, Kinds;
    var s := text + rest;
    assert forall k | 0 <= k < |text| :: s[k] == text[k] && text[k] in text;
    FirstIs(Is('<'), s, 0, |text|);
    NextTag(s, 0, |text|);
    TagsBehind(text, rest);
  }

  // One line of a table

  /** Text without a tag or a line break. */
  predicate CellText(text: string) {
    '<' !in text && '\n' !in text
  }

  function Rendered(cell: string): string {
    "<table>" + ("<tr>" + ("<td>" + (cell + ("</td>" + ("</tr>" + "</table>")))))
  }

  function Unrendered(text: string): string {
    "<table>" + (text + "</table>")
  }

  lemma WrittenTags()
    ensures Written(false, Table) == "<table>" && Written(true, Table) == "</table>"
    ensures Written(false, Tr) == "<tr>" && Written(true, Tr) == "</tr>"
    ensures Written(false, Td) == "<td>" && Written(true, Td) == "</td>"
  {
  }

  lemma NoTags()
    ensures Kinds(Tags("", 0)) == []
  {
  }

  lemma ClosingTable()
    ensures Kinds(Tags("</table>", 0)) == [(true, Table)]
  {
    WrittenTags();
    NoTags();
    hide *;
    TagFirst(true, Table, "");
    assert "</table>" + "" == "</table>";
  }

  const SIX_TAGS: seq<(bool, TagName)> :=
    [(false, Table), (false, Tr), (false, Td), (true, Td), (true, Tr), (true, Table)]

  lemma RenderedKinds(cell: string)
    requires CellText(cell)
    ensures Kinds(Tags(Rendered(cell), 0)) == SIX_TAGS
  {
    hide Tags, Kinds;
    WrittenTags();
    ClosingTable();
    hide Written;
    var row, end := "</tr>" + "</table>", "</td>" + ("</tr>" + "</table>");
    TagFirst(true, Tr, "</table>");
    TagFirst(true, Td, row);
    TextFirst(cell, end);
    TagFirst(false, Td, cell + end);
    TagFirst(false, Tr, "<td>" + (cell + end));
    TagFirst(false, Table, "<tr>" + ("<td>" + (cell + end)));
  }

  lemma UnrenderedKinds(text: string)
    requires CellText(text)
    ensures Kinds(Tags(Unrendered(text), 0)) == [(false, Table), (true, Table)]
  {
    hide Tags, Kinds;
    WrittenTags();
    ClosingTable();
    hide Written;
    TextFirst(text, "</table>");
    TagFirst(false, Table, text + "</table>");
  }

  lemma SixDepths()
    ensures |SIX_TAGS| == 6 && TableDepth(SIX_TAGS, 0) == 0 && TableDepth(SIX_TAGS, 6) == 0
    ensures forall n | 1 <= n <= 5 :: TableDepth(SIX_TAGS, n) == 1
    ensures forall n | 0 <= n <= 6 :: TableDepth(SIX_TAGS, n) >= 0
  {
    assert TableDepth(SIX_TAGS, 0) == 0;
    assert TableDepth(SIX_TAGS, 1) == 1;
    assert TableDepth(SIX_TAGS, 2) == 1;
    assert TableDepth(SIX_TAGS, 3) == 1;
    assert TableDepth(SIX_TAGS, 4) == 1;
    assert TableDepth(SIX_TAGS, 5) == 1;
  }

  lemma SixRow()
    ensures ClosedRow(SIX_TAGS, 6)
  {
    SixDepths();
    hide TableDepth;
    assert OpenCell(SIX_TAGS, 2, 3);
    assert InCell(SIX_TAGS, 3);
    hide OpenCell, InCell;
    assert CellInRow(SIX_TAGS, 1, 3, 4);
    assert RowTag(SIX_TAGS, 4, true) && HasCell(SIX_TAGS, 4);
  }

  lemma RenderedRenders(cell: string)
    requires CellText(cell)
    ensures TableRenders(Rendered(cell))
  {
    hide *;
    RenderedKinds(cell);
    SixDepths();
    SixRow();
    RendersByKinds(Rendered(cell), SIX_TAGS);
  }

  lemma RendersByKinds(text: string, kinds: seq<(bool, TagName)>)
    requires Kinds(Tags(text, 0)) == kinds && ClosedRow(kinds, |kinds|)
    requires TableDepth(kinds, |kinds|) == 0 && forall n | 0 <= n <= |kinds| :: TableDepth(kinds, n) >= 0
    ensures TableRenders(text)
  {
    hide Kinds, ClosedRow;
  }

  lemma UnrenderedFallsBack(text: string)
    requires CellText(text)
    ensures !TableRenders(Unrendered(text))
  {
    UnrenderedKinds(text);
    hide Tags, Kinds, Unrendered;
  }

  /** A line that begins with a table is a block of its own when it is the only line. */
  lemma OneTableLine(al: Alphabet, rest: string)
    requires al.Lawful() && '\n' !in rest
    ensures var text := "<table>" + rest; Split(text) == [text] && TableSpan(al, [text], 1) && Join([text]) == text
  {
    var text := "<table>" + rest;
    SpelledAt("table", text, 1);
    hide NameAt, Opened;
    assert TableStartsAt(al, text, 0);
    assert '\n' !in "<table>";
    FirstIs(Is('\n'), text, 0, |text|);
  }

  lemma NoBreaks(cell: string)
    requires CellText(cell)
    ensures '\n' !in "<tr>" + ("<td>" + (cell + ("</td>" + ("</tr>" + "</table>")))) && '\n' !in cell + "</table>"
  {
    assert '\n' !in "<tr>" && '\n' !in "<td>" && '\n' !in "</td>" && '\n' !in "</tr>" && '\n' !in "</table>";
  }

  lemma DocumentOfOne(al: Alphabet, line: string)
    requires Split(line) == [line]
    ensures EscapeLines(al, []) == []
    ensures EscapeLines(al, [line]) == [line] ==> EscapeDocument(al, line) == line
    ensures EscapeLines(al, [line]) == Split(EscapeLine(al, line)) + [] ==>
              EscapeDocument(al, line) == EscapeLine(al, line)
  {
    hide Split, EscapeLine, BlockAt;
    assert Split(EscapeLine(al, line)) + [] == Split(EscapeLine(al, line));
    SplitLines(EscapeLine(al, line));
  }

  /** A cell of a table that renders is kept, whatever its underscores. */
  lemma RenderedKept(al: Alphabet, cell: string)
    requires al.Lawful() && CellText(cell)
    ensures EscapeDocument(al, Rendered(cell)) == Rendered(cell)
  {
    var text := Rendered(cell);
    NoBreaks(cell);
    RenderedRenders(cell);
    OneTableLine(al, "<tr>" + ("<td>" + (cell + ("</td>" + ("</tr>" + "</table>")))));
    hide *;
    assert [text][..1] == [text] && [text][1..] == [];
    TableKept(al, [text], 1);
    DocumentOfOne(al, text);
  }

  /** The text of a table that does not render is escaped like any other line. */
  lemma UnrenderedEscaped(al: Alphabet, text: string)
    requires al.Lawful() && CellText(text)
    ensures EscapeDocument(al, Unrendered(text)) == EscapeLine(al, Unrendered(text))
  {
    var line := Unrendered(text);
    NoBreaks(text);
    UnrenderedFallsBack(text);
    OneTableLine(al, text + "</table>");
    hide *;
    assert [line][..1] == [line] && [line][1..] == [];
    TableEscaped(al, [line], 1);
    DocumentOfOne(al, line);
  }

  lemma RenderedExample(al: Alphabet)
    requires al.Lawful()
    ensures EscapeDocument(al, "<table><tr><td>a_b</td></tr></table>") == "<table><tr><td>a_b</td></tr></table>"
  {
    assert Rendered("a_b") == "<table><tr><td>a_b</td></tr></table>";
    assert CellText("a_b");
    hide *;
    RenderedKept(al, "a_b");
  }

  lemma UnrenderedExample(al: Alphabet)
    requires al.Lawful()
    ensures EscapeDocument(al, "<table>a_b</table>") == "<table>a\\_b</table>"
  {
    ExampleParts(al, "<table>a", "b</table>");
    assert Unrendered("a_b") == "<table>a" + "_" + "b</table>";
    assert CellText("a_b");
    assert "<table>a" + "\\_" + "b</table>" == "<table>a\\_b</table>";
    assert "<table>a" + "_" + "b</table>" == "<table>a_b</table>";
    hide *;
    UnrenderedEscaped(al, "a_b");
    OneUnderscore(al, "<table>a", "b</table>");
  }

  lemma ExampleParts(al: Alphabet, before: string, after: string)
    requires al.Lawful() && before == "<table>a" && after == "b</table>"
    ensures NoInline(before) && NoInline(after) && UNDERSCORE !in before && UNDERSCORE !in after
    ensures al.isAlnum(before[|before| - 1]) && al.isAlnum(after[0])
  {
    assert before[|before| - 1] == 'a' && after[0] == 'b';
  }
}
