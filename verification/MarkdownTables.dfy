/**
 HTML table tags: the scanner with suffix tables, the regular expression it stands for, and the
 decision whether a block renders as a table.
 */
module MarkdownTables {
  import opened Basics
  import opened Regex
  import opened MarkdownEscape
  import opened MarkdownInserted

  datatype TagName = Table | Tr | Td | Th

  datatype HtmlTableTag = HtmlTableTag(start: nat, end: nat, isClose: bool, tag: TagName)

  function Spelled(tag: TagName): (name: string)
    ensures name != ""
  {
    match tag
    case Table => "table"
    case Tr => "tr"
    case Td => "td"
    case Th => "th"
  }

  /** Case-insensitive equality with a lower-case ASCII letter; no other character folds to t, a, b, l, e, r, d or h. */
  function Letter(lower: char): char -> bool {
    c => c == lower || ('A' <= c <= 'Z' && c as int + 32 == lower as int)
  }

  predicate NameAt(name: string, s: string, i: nat) {
    name != "" ==> HasAt(Letter(name[0]), s, i) && NameAt(name[1..], s, i + 1)
  }

  /** The index of the ">" that ends attributes scanned from `p`, skipping quoted strings. */
  function TagEnd(s: string, p: nat): (r: Option<nat>)
    requires p <= |s|
    ensures r.Some? ==> p <= r.value < |s|
    decreases |s| - p
  {
    if p == |s| then None
    else if s[p] == '>' then Some(p)
    else if s[p] == '"' || s[p] == '\'' then
      var close := First(Is(s[p]), s, p + 1);
      if close == |s| then None else TagEnd(s, close + 1)
    else TagEnd(s, p + 1)
  }

  function NamedAt(s: string, i: nat): (r: Option<TagName>)
    ensures r.Some? ==> NameAt(Spelled(r.value), s, i)
  {
    if NameAt("table", s, i) then Some(Table)
    else if NameAt("tr", s, i) then Some(Tr)
    else if NameAt("td", s, i) then Some(Td)
    else if NameAt("th", s, i) then Some(Th)
    else None
  }

  lemma {:induction false} NameFits(name: string, s: string, i: nat)
    requires NameAt(name, s, i) && name != ""
    ensures i + |name| <= |s|
  {
    if |name| > 1 {
      NameFits(name[1..], s, i + 1);
    }
  }

  /** Where the name of a tag that opens at `i` stands. */
  function NameStart(s: string, i: nat): nat {
    if HasAt(Is('/'), s, i + 1) then i + 2 else i + 1
  }

  /** The tag that starts at `i`. */
  function TagAt(s: string, i: nat): (r: Option<HtmlTableTag>)
    ensures r.Some? ==> r.value.start == i < r.value.end <= |s|
  {
    if !HasAt(Is('<'), s, i) then None
    else
      var name := NamedAt(s, NameStart(s, i));
      if name.None? then None
      else
        NameFits(Spelled(name.value), s, NameStart(s, i));
        match TagEnd(s, NameStart(s, i) + |Spelled(name.value)|)
        case None => None
        case Some(end) => Some(HtmlTableTag(i, end + 1, NameStart(s, i) == i + 2, name.value))
  }

  function Tags(s: string, i: nat): seq<HtmlTableTag>
    requires i <= |s|
    decreases |s| - i
  {
    if i == |s| then []
    else
      match TagAt(s, i)
      case Some(tag) => [tag] + Tags(s, tag.end)
      case None => Tags(s, i + 1)
  }

  // The regular expression

  function Word(name: string): Regex {
    if name == "" then Empty else Then(One(Letter(name[0])), Word(name[1..]))
  }

  function Quoted(quote: char): Regex {
    Then(One(Is(quote)), Then(Star(One(Not(Is(quote))), true), One(Is(quote))))
  }

  function Plain(): char -> bool {
    c => c != '>' && c != '"' && c != '\''
  }

  function Item(): Regex {
    Or(Quoted('"'), Or(Quoted('\''), One(Plain())))
  }

  function AnyName(): Regex {
    Or(Word("table"), Or(Word("tr"), Or(Word("td"), Word("th"))))
  }

  function Attributes(): Regex {
    Then(Star(Item(), false), One(Is('>')))
  }

  /** /<(\/?)(table|tr|td|th)((?:"[^"]*"|'[^']*'|[^>"'])*?)>/gi */
  function TableRegex(): Regex {
    Then(One(Is('<')), Then(Optional(One(Is('/'))), Then(AnyName(), Attributes())))
  }

  function Just(end: Option<nat>, more: nat): seq<nat> {
    if end.Some? then [end.value + more] else []
  }

  lemma {:induction false} WordIs(name: string, s: string, i: nat)
    requires i <= |s|
    ensures Ends(Word(name), s, i) == if NameAt(name, s, i) then [i + |name|] else []
  {
    if name != "" {
      ThenOne(Letter(name[0]), Word(name[1..]), s, i);
      if HasAt(Letter(name[0]), s, i) {
        WordIs(name[1..], s, i + 1);
      }
    }
  }

  lemma QuotedIs(quote: char, s: string, i: nat)
    requires i <= |s|
    ensures Ends(Quoted(quote), s, i)
            == if HasAt(Is(quote), s, i) && First(Is(quote), s, i + 1) < |s| then [First(Is(quote), s, i + 1) + 1]
              else []
  {
    hide Ends;
    ThenOne(Is(quote), Then(Star(One(Not(Is(quote))), true), One(Is(quote))), s, i);
    if HasAt(Is(quote), s, i) {
      DelimitedOne(Not(Is(quote)), Is(quote), s, i + 1);
      FirstSame(Is(quote), Not(Not(Is(quote))), s, i + 1);
    }
  }

  lemma {:induction false} FirstSame(f: char -> bool, g: char -> bool, s: string, i: nat)
    requires i <= |s| && forall c :: f(c) == g(c)
    ensures First(f, s, i) == First(g, s, i)
    decreases |s| - i
  {
    if i < |s| && !f(s[i]) {
      FirstSame(f, g, s, i + 1);
    }
  }

  /** The position after one attribute item. */
  function ItemEnd(s: string, i: nat): (r: Option<nat>)
    requires i <= |s|
    ensures r.Some? ==> i < r.value <= |s|
  {
    if i == |s| || s[i] == '>' then None
    else if s[i] == '"' || s[i] == '\'' then
      var close := First(Is(s[i]), s, i + 1);
      if close == |s| then None else Some(close + 1)
    else Some(i + 1)
  }

  lemma ItemIs(s: string, i: nat)
    requires i <= |s|
    ensures Ends(Item(), s, i) == Just(ItemEnd(s, i), 0)
  {
    QuotedIs('"', s, i);
    QuotedIs('\'', s, i);
    hide Quoted;
    assert Ends(One(Plain()), s, i) == if HasAt(Plain(), s, i) then [i + 1] else [];
    EitherEnds(Quoted('\''), One(Plain()), s, i);
    EitherEnds(Quoted('"'), Or(Quoted('\''), One(Plain())), s, i);
  }

  /** A lazy star stops at the first ">" outside quotes. */
  lemma {:induction false} LazyIs(s: string, low: nat, i: nat)
    requires low <= i <= |s|
    ensures EndsAll(One(Is('>')), s, low, Ends(Star(Item(), false), s, i)) == Just(TagEnd(s, i), 1)
    decreases |s| - i
  {
    hide Ends, EndsAll, TagEnd, ItemEnd, Item;
    var star, gt := Star(Item(), false), One(Is('>'));
    LazyTurn(s, i);
    TagEndTurn(s, i);
    OneEnds(Is('>'), s, i);
    match ItemEnd(s, i)
    case None => OneStart(gt, s, low, i);
    case Some(e) =>
      LazyIs(s, low, e);
      FirstOfEnds(gt, s, low, i, Ends(star, s, e));
  }

  lemma FirstOfEnds(r: Regex, s: string, low: nat, i: nat, rest: seq<nat>)
    requires low <= i <= |s| && forall e | e in rest :: low <= e <= |s|
    ensures EndsAll(r, s, low, [i] + rest) == Ends(r, s, i) + EndsAll(r, s, low, rest)
  {
    hide Ends;
    assert ([i] + rest)[1..] == rest;
  }

  /** A tag goes on behind its next item, or ends at a `>`. */
  lemma TagEndTurn(s: string, i: nat)
    requires i <= |s|
    ensures TagEnd(s, i) == match ItemEnd(s, i)
                            case Some(e) => TagEnd(s, e)
                            case None => if HasAt(Is('>'), s, i) then Some(i) else None
    ensures ItemEnd(s, i).Some? ==> !HasAt(Is('>'), s, i)
  {
    hide First;
  }

  lemma LazyTurn(s: string, i: nat)
    requires i <= |s|
    ensures Ends(Star(Item(), false), s, i)
            == match ItemEnd(s, i) case None => [i] case Some(e) => [i] + Ends(Star(Item(), false), s, e)
  {
    var star := Star(Item(), false);
    ItemIs(s, i);
    hide Item;
    match ItemEnd(s, i)
    case None => assert Progress([], i) == [];
    case Some(e) =>
      assert Progress([e], i) == [e];
      OneStart(star, s, i + 1, e);
  }

  lemma AttributesAre(s: string, i: nat)
    requires i <= |s|
    ensures Ends(Attributes(), s, i) == Just(TagEnd(s, i), 1)
  {
    LazyIs(s, i, i);
  }

  lemma NameIs(s: string, i: nat)
    requires i <= |s|
    ensures Ends(AnyName(), s, i)
            == match NamedAt(s, i) case None => [] case Some(tag) => [i + |Spelled(tag)|]
  {
    NamesExcluded(s, i);
    hide Word, NameAt, Ends;
    WordIs("table", s, i);
    WordIs("tr", s, i);
    WordIs("td", s, i);
    WordIs("th", s, i);
    EitherEnds(Word("td"), Word("th"), s, i);
    EitherEnds(Word("tr"), Or(Word("td"), Word("th")), s, i);
    EitherEnds(Word("table"), Or(Word("tr"), Or(Word("td"), Word("th"))), s, i);
  }

  lemma NamesExcluded(s: string, i: nat)
    ensures NameAt("table", s, i) ==> !NameAt("tr", s, i) && !NameAt("td", s, i) && !NameAt("th", s, i)
    ensures NameAt("tr", s, i) ==> !NameAt("td", s, i) && !NameAt("th", s, i)
    ensures NameAt("td", s, i) ==> !NameAt("th", s, i)
  {
    SecondLetter("table", s, i);
    SecondLetter("tr", s, i);
    SecondLetter("td", s, i);
    SecondLetter("th", s, i);
  }

  lemma SecondLetter(name: string, s: string, i: nat)
    requires |name| >= 2
    ensures NameAt(name, s, i) ==> HasAt(Letter(name[1]), s, i + 1)
  {
    assert name[1..][0] == name[1] && name[1..] != "";
    if NameAt(name, s, i) {
      assert NameAt(name[1..], s, i + 1);
    }
  }

  lemma NamedAttributes(s: string, i: nat)
    requires i <= |s|
    ensures Ends(Then(AnyName(), Attributes()), s, i)
            == match NamedAt(s, i)
               case None => []
               case Some(tag) => (NameFits(Spelled(tag), s, i); Just(TagEnd(s, i + |Spelled(tag)|), 1))
  {
    hide Ends, AnyName, Attributes, NamedAt;
    ThenEnds(AnyName(), Attributes(), s, i);
    NameIs(s, i);
    var name := NamedAt(s, i);
    if name.Some? {
      NameFits(Spelled(name.value), s, i);
      OneStart(Attributes(), s, i, i + |Spelled(name.value)|);
      AttributesAre(s, i + |Spelled(name.value)|);
    }
  }

  lemma NoNameAtSlash(s: string, i: nat)
    requires HasAt(Is('/'), s, i)
    ensures NamedAt(s, i) == None
  {
  }

  /** At every position the regular expression matches the tag that the scanner reads. */
  lemma TagIs(s: string, i: nat)
    requires i <= |s|
    ensures MatchAt(TableRegex(), s, i) == match TagAt(s, i) case None => None case Some(tag) => Some(tag.end)
  {
    var body := Then(AnyName(), Attributes());
    hide AnyName, Attributes, NamedAt, Ends, TagEnd, Spelled, NameAt;
    ThenOne(Is('<'), Then(Optional(One(Is('/'))), body), s, i);
    if HasAt(Is('<'), s, i) {
      SlashOrNot(body, s, i + 1);
      NamedAttributes(s, i + 1);
      if HasAt(Is('/'), s, i + 1) {
        NoNameAtSlash(s, i + 1);
        NamedAttributes(s, i + 2);
      }
    }
  }

  lemma SlashOrNot(body: Regex, s: string, i: nat)
    requires i <= |s|
    ensures Ends(Then(Optional(One(Is('/'))), body), s, i)
            == if HasAt(Is('/'), s, i) then Ends(body, s, i + 1) + Ends(body, s, i) else Ends(body, s, i)
  {
    if HasAt(Is('/'), s, i) {
      assert Ends(Optional(One(Is('/'))), s, i) == [i + 1, i];
      assert [i + 1, i][1..] == [i];
      OneStart(body, s, i, i);
      assert EndsAll(body, s, i, [i + 1, i]) == Ends(body, s, i + 1) + EndsAll(body, s, i, [i]);
    } else {
      assert Ends(Optional(One(Is('/'))), s, i) == [i];
      OneStart(body, s, i, i);
    }
  }

  function TagRanges(tags: seq<HtmlTableTag>): seq<(nat, nat)> {
    if tags == [] then [] else [(tags[0].start, tags[0].end)] + TagRanges(tags[1..])
  }

  /** The tags are the matches of the regular expression, from every position on. */
  lemma {:induction false} TagsAre(s: string, i: nat)
    requires i <= |s|
    ensures Matches(TableRegex(), s, i) == TagRanges(Tags(s, i))
    decreases |s| - i
  {
    hide TagAt, TableRegex, MatchAt;
    TagIs(s, i);
    if i == |s| {
      NoTagAtEnd(s);
    } else {
      match TagAt(s, i)
      case Some(tag) =>
        TagsAre(s, tag.end);
        assert ([tag] + Tags(s, tag.end))[1..] == Tags(s, tag.end);
      case None => TagsAre(s, i + 1);
    }
  }

  lemma NoTagAtEnd(s: string)
    ensures TagAt(s, |s|) == None
  {
  }

  // The scanner

  ghost predicate QuoteTable(next: array<int>, quote: char, s: string, from: nat)
    reads next
  {
    next.Length == |s| + 1 && forall i | from <= i <= |s| :: next[i] == if First(Is(quote), s, i) == |s| then -1
      else First(Is(quote), s, i)
  }

  ghost predicate EndTable(ends: array<int>, s: string, from: nat)
    reads ends
  {
    ends.Length == |s| + 1 && forall i | from <= i <= |s| :: ends[i] == match TagEnd(s, i) case None => -1
      case Some(e) => e
  }

  /** One entry of a quote table. */
  method FillQuote(next: array<int>, quote: char, raw: string, index: nat)
    requires index < |raw| && QuoteTable(next, quote, raw, index + 1)
    modifies next
    ensures QuoteTable(next, quote, raw, index)
  {
    next[index] := if raw[index] == quote then index else next[index + 1];
  }

  /** One entry of the tag-end table, from the quote tables behind it. */
  method FillEnd(ends: array<int>, nextDouble: array<int>, nextSingle: array<int>, raw: string, index: nat)
    requires index < |raw| && EndTable(ends, raw, index + 1) && ends != nextDouble && ends != nextSingle
    requires QuoteTable(nextDouble, '"', raw, index + 1) && QuoteTable(nextSingle, '\'', raw, index + 1)
    modifies ends
    ensures EndTable(ends, raw, index)
  {
    hide First;
    var c := raw[index];
    if c == '>' {
      ends[index] := index;
    } else if c == '"' || c == '\'' {
      var close := if c == '"' then nextDouble[index + 1] else nextSingle[index + 1];
      ends[index] := if close < 0 then -1 else ends[close + 1];
    } else {
      ends[index] := ends[index + 1];
    }
  }

  method TagEndTable(raw: string) returns (tagEnd: array<int>)
    ensures EndTable(tagEnd, raw, 0)
  {
    hide QuoteTable, EndTable;
    var length := |raw|;
    var nextDouble := new int[length + 1](_ => -1);
    var nextSingle := new int[length + 1](_ => -1);
    tagEnd := new int[length + 1](_ => -1);
    EmptyTables(nextDouble, nextSingle, tagEnd, raw);
    var index := length;
    while index > 0
      invariant 0 <= index <= length
      invariant QuoteTable(nextDouble, '"', raw, index) && QuoteTable(nextSingle, '\'', raw, index)
      invariant EndTable(tagEnd, raw, index)
    {
      index := index - 1;
      FillEnd(tagEnd, nextDouble, nextSingle, raw, index);
      FillQuote(nextDouble, '"', raw, index);
      FillQuote(nextSingle, '\'', raw, index);
    }
  }

  lemma EmptyTables(nextDouble: array<int>, nextSingle: array<int>, tagEnd: array<int>, raw: string)
    requires nextDouble.Length == nextSingle.Length == tagEnd.Length == |raw| + 1
    requires nextDouble[|raw|] == nextSingle[|raw|] == tagEnd[|raw|] == -1
    ensures QuoteTable(nextDouble, '"', raw, |raw|) && QuoteTable(nextSingle, '\'', raw, |raw|)
            && EndTable(tagEnd, raw, |raw|)
  {
  }

  /** The generator, with the tags it yields collected in order. */
  method HtmlTableTags(raw: string) returns (tags: seq<HtmlTableTag>)
    ensures tags == Tags(raw, 0) && TagRanges(tags) == Matches(TableRegex(), raw, 0)
  {
    hide Matches, TableRegex, EndTable, Tags, NamedAt, TagEnd, TagAt, Spelled, First, TagRanges;
    TagsAre(raw, 0);
    var length := |raw|;
    var tagEnd := TagEndTable(raw);
    tags := [];
    var position := 0;
    while position < length
      invariant 0 <= position <= length && tags + Tags(raw, position) == Tags(raw, 0)
      invariant EndTable(tagEnd, raw, 0)
    {
      var open := First(Is('<'), raw, position);
      NextTag(raw, position, open);
      if open == length {
        TagsDone(raw, tags);
        return;
      }
      var cursor := open + 1;
      var isClose := cursor < length && raw[cursor] == '/';
      if isClose {
        cursor := cursor + 1;
      }
      var tag := NamedAt(raw, cursor);
      var end := -1;
      if tag.Some? {
        NamedFits(raw, cursor);
        EndAt(tagEnd, raw, cursor + |Spelled(tag.value)|);
        end := tagEnd[cursor + |Spelled(tag.value)|];
      }
      TagHere(raw, open, cursor, tag, end);
      TagsTurn(raw, open, tags);
      if tag == None || end < 0 {
        position := open + 1;
        continue;
      }
      tags := tags + [HtmlTableTag(open, end + 1, isClose, tag.value)];
      position := end + 1;
    }
    TagsDone(raw, tags);
  }

  lemma EndAt(ends: array<int>, s: string, i: nat)
    requires EndTable(ends, s, 0) && i <= |s|
    ensures ends.Length == |s| + 1 && ends[i] == match TagEnd(s, i) case None => -1 case Some(e) => e
  {
  }

  lemma TagsDone(s: string, done: seq<HtmlTableTag>)
    ensures done + Tags(s, |s|) == done
  {
  }

  lemma NamedFits(s: string, i: nat)
    requires NamedAt(s, i).Some?
    ensures i + |Spelled(NamedAt(s, i).value)| <= |s|
  {
    NameFits(Spelled(NamedAt(s, i).value), s, i);
  }

  /** What the loop finds behind a `<`. */
  lemma TagHere(s: string, open: nat, cursor: nat, tag: Option<TagName>, end: int)
    requires HasAt(Is('<'), s, open) && cursor == NameStart(s, open) && tag == NamedAt(s, cursor)
    requires tag.Some? ==> cursor + |Spelled(tag.value)| <= |s|
    requires end == if tag.None? then -1
                    else match TagEnd(s, cursor + |Spelled(tag.value)|) case None => -1 case Some(e) => e
    ensures TagAt(s, open)
            == if tag.None? || end < 0 then None
               else Some(HtmlTableTag(open, end + 1, cursor == open + 2, tag.value))
  {
    hide TagEnd, NamedAt, Spelled;
  }

  lemma TagsTurn(s: string, i: nat, done: seq<HtmlTableTag>)
    requires i < |s|
    ensures done + Tags(s, i) == match TagAt(s, i) case None => done + Tags(s, i + 1)
            case Some(tag) => done + [tag] + Tags(s, tag.end)
  {
    hide TagAt;
    match TagAt(s, i)
    case None =>
    case Some(tag) => assert done + ([tag] + Tags(s, tag.end)) == done + [tag] + Tags(s, tag.end);
  }

  /** Tags start at "<" only. */
  lemma {:induction false} NextTag(s: string, i: nat, open: nat)
    requires i <= |s| && open == First(Is('<'), s, i)
    ensures Tags(s, i) == Tags(s, open)
    decreases |s| - i
  {
    if i < open {
      NextTag(s, i + 1, open);
    }
  }

  // Whether a block renders as a table

  datatype RenderState = RenderState(depth: int, rowOpen: bool, rowCells: nat, cellOpen: bool, rendered: bool)

  /** What one tag does; only the tags directly inside the outermost table count. */
  function RenderStep(r: RenderState, isClose: bool, tag: TagName): RenderState {
    if tag == Table then r.(depth := if isClose then r.depth - 1 else r.depth + 1)
    else if r.depth != 1 then r
    else if tag == Tr then
      if !isClose then r.(rowOpen := true, rowCells := 0)
      else if r.rowOpen then r.(rowOpen := false, rendered := r.rendered || r.rowCells > 0)
      else r
    else if !isClose then r.(cellOpen := true)
    else if r.cellOpen && r.rowOpen then r.(rowCells := r.rowCells + 1, cellOpen := false)
    else r
  }

  function Kinds(tags: seq<HtmlTableTag>): (ks: seq<(bool, TagName)>)
    ensures |ks| == |tags|
  {
    seq(|tags|, i requires 0 <= i < |tags| => (tags[i].isClose, tags[i].tag))
  }

  /** The decision over the kinds of the tags; a negative depth decides at once. */
  function RendersFrom(r: RenderState, kinds: seq<(bool, TagName)>): bool
    decreases |kinds|
  {
    if kinds == [] then r.depth == 0 && r.rendered
    else
      var next := RenderStep(r, kinds[0].0, kinds[0].1);
      next.depth >= 0 && RendersFrom(next, kinds[1..])
  }

  const BEFORE_TABLE: RenderState := RenderState(0, false, 0, false, false)

  predicate Renders(raw: string) {
    RendersFrom(BEFORE_TABLE, Kinds(Tags(raw, 0)))
  }

  method HtmlTableRenders(raw: string) returns (renders: bool)
    ensures renders == Renders(raw)
  {
    hide Tags, Matches, TableRegex;
    var depth := 0;
    var rowOpen := false;
    var rowCells: nat := 0;
    var cellOpen := false;
    var renderedCell := false;
    var tags := HtmlTableTags(raw);
    var k := 0;
    assert Kinds(tags)[0..] == Kinds(tags);
    while k < |tags|
      invariant 0 <= k <= |tags| && depth >= 0
      invariant Renders(raw) == RendersFrom(RenderState(depth, rowOpen, rowCells, cellOpen, renderedCell),
                Kinds(tags)[k..])
    {
      var isClose, tag := tags[k].isClose, tags[k].tag;
      assert Kinds(tags)[k..][0] == (isClose, tag) && Kinds(tags)[k..][1..] == Kinds(tags)[k + 1..];
      k := k + 1;
      if tag == Table {
        depth := depth + if isClose then -1 else 1;
        if depth < 0 {
          return false;
        }
        continue;
      }
      if depth != 1 {
        continue;
      }
      if tag == Tr {
        if !isClose {
          rowOpen := true;
          rowCells := 0;
        } else if rowOpen {
          if rowCells > 0 {
            renderedCell := true;
          }
          rowOpen := false;
        }
      } else if !isClose {
        cellOpen := true;
      } else if cellOpen && rowOpen {
        rowCells := rowCells + 1;
        cellOpen := false;
      }
    }
    return depth == 0 && renderedCell;
  }

  // Insertions keep the tags

  lemma {:induction false} SameName(name: string, s: string, i: nat, t: string, j: nat)
    requires i <= |s| && j <= |t| && Inserted(s, i, t, j) && forall k | 0 <= k < |name| :: 'a' <= name[k] <= 'z'
    ensures NameAt(name, s, i) == NameAt(name, t, j)
    ensures NameAt(name, s, i) ==> i + |name| <= |s| && j + |name| <= |t| && Inserted(s, i + |name|, t, j + |name|)
  {
    hide Inserted;
    if name != "" {
      SameStart(Letter(name[0]), s, i, t, j);
      if HasAt(Letter(name[0]), s, i) {
        SameName(name[1..], s, i + 1, t, j + 1);
      }
    }
  }

  lemma {:induction false} SameTagEnd(s: string, p: nat, t: string, q: nat)
    requires p <= |s| && q <= |t| && Inserted(s, p, t, q)
    ensures TagEnd(s, p).Some? == TagEnd(t, q).Some?
    ensures TagEnd(s, p).Some? ==> Inserted(s, TagEnd(s, p).value + 1, t, TagEnd(t, q).value + 1)
    decreases |s| - p
  {
    hide First;
    if p < |s| && s[p] != '>' {
      if s[p] == '"' || s[p] == '\'' {
        SameClose(s[p], s, p, t, q);
        var a, b := First(Is(s[p]), s, p + 1), First(Is(s[p]), t, q + 1);
        if a < |s| {
          SameTagEnd(s, a + 1, t, b + 1);
        }
      } else if t[q] == s[p] {
        SameTagEnd(s, p + 1, t, q + 1);
      } else {
        SameTagEnd(s, p + 1, t, q + 2);
      }
    }
  }

  /** The quote that closes a string is the same quote. */
  lemma {:induction false} SameClose(quote: char, s: string, p: nat, t: string, q: nat)
    requires p < |s| && q <= |t| && Inserted(s, p, t, q) && s[p] == quote && (quote == '"' || quote == '\'')
    ensures q < |t| && t[q] == quote
    ensures var a, b := First(Is(quote), s, p + 1), First(Is(quote), t, q + 1);
            (a < |s| <==> b < |t|) && (a < |s| ==> Inserted(s, a + 1, t, b + 1))
  {
    hide First;
    SameStart(Is(quote), s, p, t, q);
    SameStop(Is(quote), s, p + 1, t, q + 1);
    SameStart(Is(quote), s, First(Is(quote), s, p + 1), t, First(Is(quote), t, q + 1));
  }

  lemma {:induction false} SameNamed(s: string, i: nat, t: string, j: nat)
    requires i <= |s| && j <= |t| && Inserted(s, i, t, j)
    ensures NamedAt(s, i) == NamedAt(t, j)
    ensures NamedAt(s, i).Some? ==>
              var n := |Spelled(NamedAt(s, i).value)|; i + n <= |s| && j + n <= |t| && Inserted(s, i + n, t, j + n)
  {
    hide Inserted, NameAt;
    SameName("table", s, i, t, j);
    SameName("tr", s, i, t, j);
    SameName("td", s, i, t, j);
    SameName("th", s, i, t, j);
  }

  lemma {:induction false} SameTag(s: string, i: nat, t: string, j: nat)
    requires i <= |s| && j <= |t| && Inserted(s, i, t, j)
    ensures TagAt(s, i).Some? == TagAt(t, j).Some?
    ensures TagAt(s, i).Some? ==>
              && TagAt(s, i).value.isClose == TagAt(t, j).value.isClose
                && TagAt(s, i).value.tag == TagAt(t, j).value.tag
              && Inserted(s, TagAt(s, i).value.end, t, TagAt(t, j).value.end)
  {
    hide Inserted, NameAt, NamedAt, TagEnd, Spelled;
    SameStart(Is('<'), s, i, t, j);
    if HasAt(Is('<'), s, i) {
      SameStart(Is('/'), s, i + 1, t, j + 1);
      SameNamed(s, NameStart(s, i), t, NameStart(t, j));
      var name := NamedAt(s, NameStart(s, i));
      if name.Some? {
        SameTagEnd(s, NameStart(s, i) + |Spelled(name.value)|, t, NameStart(t, j) + |Spelled(name.value)|);
      }
    }
  }

  /** Inserted backslashes change no tag. */
  lemma {:induction false} SameTags(s: string, i: nat, t: string, j: nat)
    requires i <= |s| && j <= |t| && Inserted(s, i, t, j)
    ensures Kinds(Tags(s, i)) == Kinds(Tags(t, j))
    decreases |s| - i
  {
    hide TagAt;
    if i < |s| {
      SameTag(s, i, t, j);
      match TagAt(s, i)
      case Some(tag) =>
        var other := TagAt(t, j).value;
        SameTags(s, tag.end, t, other.end);
        KindsFront(tag, Tags(s, tag.end));
        KindsFront(other, Tags(t, other.end));
      case None =>
        if t[j] == s[i] {
          SameTags(s, i + 1, t, j + 1);
        } else {
          NoTagAtUnderscore(t, j + 1);
          SameTags(s, i + 1, t, j + 2);
        }
    }
  }

  lemma KindsFront(tag: HtmlTableTag, rest: seq<HtmlTableTag>)
    ensures Kinds([tag] + rest) == [(tag.isClose, tag.tag)] + Kinds(rest)
  {
  }

  lemma NoTagAtUnderscore(t: string, j: nat)
    requires j < |t| && t[j] == UNDERSCORE
    ensures TagAt(t, j) == None
  {
  }

  /** Whether a block renders as a table is not changed by the escape. */
  lemma SameRendering(s: string, t: string)
    requires Inserted(s, 0, t, 0)
    ensures Renders(s) == Renders(t)
  {
    SameTags(s, 0, t, 0);
  }
}
