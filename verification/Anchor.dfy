/**
 Choosing the paragraph after which an image goes. One program resolves an anchor text to the number of an
 occurrence, walking the matches one at a time; another finds the paragraph of that occurrence by adding
 up counts. Both read the same paragraphs in the same order.
 */
module Anchor {
  import opened Basics

  const MAX_SAFE_INTEGER: int := 9007199254740991

  /** A match: section, paragraph in the section, position in the paragraph. */
  datatype Place = Place(section: nat, paragraph: nat, position: nat)

  datatype Resolution = Resolved(occurrence: nat) | NotFound | Ambiguous

  datatype Selection = Selected(section: nat, paragraph: nat) | Missing(matches: nat)

  // ---------------------------------------------------------------- matches in one text

  predicate IsAt(text: string, anchor: string, at: nat) {
    at + |anchor| <= |text| && text[at..at + |anchor|] == anchor
  }

  /** The first match at or after `from`. */
  function IndexOf(text: string, anchor: string, from: nat): (r: Option<nat>)
    ensures r.Some? ==> from <= r.value && IsAt(text, anchor, r.value)
    ensures forall p | from <= p < (if r.Some? then r.value else |text| + 1) :: !IsAt(text, anchor, p)
    decreases |text| - from
  {
    if from + |anchor| > |text| then None
    else if IsAt(text, anchor, from) then Some(from)
    else IndexOf(text, anchor, from + 1)
  }

  /** The leftmost matches that do not overlap, from `from` on. */
  function Matches(text: string, anchor: string, from: nat): seq<nat>
    requires anchor != ""
    decreases |text| - from
  {
    match IndexOf(text, anchor, from)
    case None => []
    case Some(p) => [p] + Matches(text, anchor, p + |anchor|)
  }

  /** How many matches a scan over the characters counts. */
  function Count(text: string, anchor: string, from: nat): nat
    requires anchor != ""
    decreases |text| - from
  {
    if from + |anchor| > |text| then 0
    else if IsAt(text, anchor, from) then 1 + Count(text, anchor, from + |anchor|)
    else Count(text, anchor, from + 1)
  }

  lemma {:induction false} CountIsMatches(text: string, anchor: string, from: nat)
    requires anchor != ""
    ensures Count(text, anchor, from) == |Matches(text, anchor, from)|
    decreases |text| - from
  {
    hide IsAt;
    if from + |anchor| <= |text| {
      if IsAt(text, anchor, from) {
        CountIsMatches(text, anchor, from + |anchor|);
      } else {
        CountIsMatches(text, anchor, from + 1);
      }
    }
  }

  /** Matches that do not overlap, none before `from`. */
  ghost predicate Apart(text: string, anchor: string, from: nat, places: seq<nat>) {
    && (forall i | 0 <= i < |places| :: from <= places[i] && IsAt(text, anchor, places[i]))
    && (forall i, j | 0 <= i < j < |places| :: places[i] + |anchor| <= places[j])
  }

  /** The matches that both programs count do not overlap. */
  lemma {:induction false} MatchesApart(text: string, anchor: string, from: nat)
    requires anchor != ""
    ensures Apart(text, anchor, from, Matches(text, anchor, from))
    decreases |text| - from
  {
    hide IsAt;
    match IndexOf(text, anchor, from) {
      case None =>
      case Some(p) =>
        EndsInside(text, anchor, p);
        MatchesApart(text, anchor, p + |anchor|);
    }
  }

  lemma {:induction false} RestApart(text: string, anchor: string, from: nat, p: nat, others: seq<nat>)
    requires anchor != "" && Apart(text, anchor, from, others) && others != [] && p <= others[0]
    ensures Apart(text, anchor, p + |anchor|, others[1..])
  {
    hide IsAt;
  }

  /** No choice of matches that do not overlap is larger than theirs. */
  lemma {:induction false} MatchesAreMost(text: string, anchor: string, from: nat, others: seq<nat>)
    requires anchor != "" && Apart(text, anchor, from, others)
    ensures |others| <= |Matches(text, anchor, from)|
    decreases |text| - from
  {
    hide IsAt;
    if others != [] {
      assert IsAt(text, anchor, others[0]);
      EndsInside(text, anchor, others[0]);
      var p := IndexOf(text, anchor, from).value;
      EndsInside(text, anchor, p);
      FirstIsFirst(text, anchor, from, p, others[0]);
      RestApart(text, anchor, from, p, others);
      MatchesAreMost(text, anchor, p + |anchor|, others[1..]);
    }
  }

  lemma EndsInside(text: string, anchor: string, at: nat)
    requires IsAt(text, anchor, at)
    ensures at + |anchor| <= |text|
  {
  }

  lemma FirstIsFirst(text: string, anchor: string, from: nat, p: nat, other: nat)
    requires IndexOf(text, anchor, from) == Some(p) && from <= other && IsAt(text, anchor, other)
    ensures p <= other
  {
  }

  // ---------------------------------------------------------------- occurrences in a document

  function PlacesIn(section: nat, paragraph: nat, matches: seq<nat>): (r: seq<Place>)
    ensures |r| == |matches|
    ensures forall i | 0 <= i < |r| :: r[i] == Place(section, paragraph, matches[i])
  {
    seq(|matches|, i requires 0 <= i < |matches| => Place(section, paragraph, matches[i]))
  }

  /** The occurrences in the first `count` paragraphs of a section. */
  function InParagraphs(paragraphs: seq<string>, anchor: string, section: nat, count: nat): seq<Place>
    requires anchor != "" && count <= |paragraphs|
  {
    if count == 0 then []
    else
      InParagraphs(paragraphs, anchor, section, count - 1)
      + PlacesIn(section, count - 1, Matches(paragraphs[count - 1], anchor, 0))
  }

  /** The occurrences in the first `count` sections. */
  function InSections(sections: seq<seq<string>>, anchor: string, count: nat): seq<Place>
    requires anchor != "" && count <= |sections|
  {
    if count == 0 then []
    else
      InSections(sections, anchor, count - 1)
      + InParagraphs(sections[count - 1], anchor, count - 1, |sections[count - 1]|)
  }

  function Occurrences(sections: seq<seq<string>>, anchor: string): seq<Place>
    requires anchor != ""
  {
    InSections(sections, anchor, |sections|)
  }

  lemma {:induction false} ParagraphsGrow(paragraphs: seq<string>, anchor: string, section: nat, count: nat, all: nat)
    requires anchor != "" && count <= all <= |paragraphs|
    ensures InParagraphs(paragraphs, anchor, section, count) <= InParagraphs(paragraphs, anchor, section, all)
    decreases all - count
  {
    hide Matches, PlacesIn;
    if count < all {
      ParagraphsGrow(paragraphs, anchor, section, count + 1, all);
    }
  }

  lemma {:induction false} SectionsGrow(sections: seq<seq<string>>, anchor: string, count: nat, all: nat)
    requires anchor != "" && count <= all <= |sections|
    ensures InSections(sections, anchor, count) <= InSections(sections, anchor, all)
    decreases all - count
  {
    if count < all {
      SectionsGrow(sections, anchor, count + 1, all);
    }
  }

  /** The occurrences before paragraph `q` of section `s`, then those in it, are where they should be among all. */
  lemma {:induction false} PlacedAmongAll(sections: seq<seq<string>>, anchor: string, s: nat, q: nat)
    requires anchor != "" && s < |sections| && q < |sections[s]|
    ensures InSections(sections, anchor, s) + InParagraphs(sections[s], anchor, s, q)
            + PlacesIn(s, q, Matches(sections[s][q], anchor, 0)) <= Occurrences(sections, anchor)
  {
    hide PlacesIn, Matches;
    SectionsGrow(sections, anchor, s + 1, |sections|);
    ParagraphsGrow(sections[s], anchor, s, q + 1, |sections[s]|);
  }

  // ---------------------------------------------------------------- the two programs

  /** What resolving a request means. */
  function ResolutionOf(sections: seq<seq<string>>, anchor: string, requested: Option<int>): Resolution {
    if anchor == "" || (requested.Some? && !(0 <= requested.value <= MAX_SAFE_INTEGER)) then NotFound
    else
      var n := |Occurrences(sections, anchor)|;
      match requested
      case Some(k) => if k < n then Resolved(k) else NotFound
      case None => if n == 0 then NotFound else if n == 1 then Resolved(0) else Ambiguous
  }

  method ResolveHwpxAnchorOccurrence(sections: seq<seq<string>>, anchor: string, requested: Option<int>)
    returns (r: Resolution)
    ensures r == ResolutionOf(sections, anchor, requested)
  {
    hide IndexOf, IsAt, PlacesIn, InSections, InParagraphs;
    if anchor == "" || (requested.Some? && !(0 <= requested.value <= MAX_SAFE_INTEGER)) {
      return NotFound;
    }
    var matchCount: nat := 0;
    NothingBefore(sections, anchor);
    for s := 0 to |sections|
      invariant matchCount == |InSections(sections, anchor, s)|
      invariant requested.Some? ==> matchCount <= requested.value
      invariant requested.None? ==> matchCount <= 1
    {
      NothingBeforeParagraph(sections[s], anchor, s);
      for q := 0 to |sections[s]|
        invariant matchCount == |InSections(sections, anchor, s)| + |InParagraphs(sections[s], anchor, s, q)|
        invariant requested.Some? ==> matchCount <= requested.value
        invariant requested.None? ==> matchCount <= 1
      {
        var text := sections[s][q];
        PlacedAmongAll(sections, anchor, s, q);
        var from: nat := 0;
        while from <= |text|
          invariant matchCount + |Matches(text, anchor, from)| ==
                    |InSections(sections, anchor, s)| + |InParagraphs(sections[s], anchor, s, q)|
                      + |Matches(text, anchor, 0)|
          invariant requested.Some? ==> matchCount <= requested.value
          invariant requested.None? ==> matchCount <= 1
          decreases |text| + 1 - from
        {
          var found := IndexOf(text, anchor, from);
          if found.None? {
            break;
          }
          if requested == Some(matchCount) {
            return Resolved(matchCount);
          }
          matchCount := matchCount + 1;
          if requested.None? && matchCount > 1 {
            return Ambiguous;
          }
          from := found.value + (if 1 < |anchor| then |anchor| else 1);
        }
        NoMatchBehind(text, anchor, from);
        OneMoreParagraph(sections[s], anchor, s, q);
      }
      OneMoreSection(sections, anchor, s);
    }
    if matchCount == 0 || (requested.Some? && requested.value >= matchCount) {
      return NotFound;
    }
    r := Resolved(0);
  }

  lemma {:induction false} NothingBefore(sections: seq<seq<string>>, anchor: string)
    requires anchor != ""
    ensures InSections(sections, anchor, 0) == []
  {
  }

  lemma {:induction false} NothingBeforeParagraph(paragraphs: seq<string>, anchor: string, section: nat)
    requires anchor != ""
    ensures InParagraphs(paragraphs, anchor, section, 0) == []
  {
  }

  lemma {:induction false} OneMoreParagraph(paragraphs: seq<string>, anchor: string, section: nat, q: nat)
    requires anchor != "" && q < |paragraphs|
    ensures |InParagraphs(paragraphs, anchor, section, q + 1)| ==
            |InParagraphs(paragraphs, anchor, section, q)| + |Matches(paragraphs[q], anchor, 0)|
  {
  }

  lemma {:induction false} OneMoreSection(sections: seq<seq<string>>, anchor: string, s: nat)
    requires anchor != "" && s < |sections|
    ensures |InSections(sections, anchor, s + 1)| ==
            |InSections(sections, anchor, s)| + |InParagraphs(sections[s], anchor, s, |sections[s]|)|
  {
  }

  lemma {:induction false} NoMatchBehind(text: string, anchor: string, from: nat)
    requires anchor != "" && (from > |text| || IndexOf(text, anchor, from).None?)
    ensures Matches(text, anchor, from) == []
  {
  }

  /** The accumulation that the second program does from paragraph `q` of section `s` on. */
  function SelectionFrom(sections: seq<seq<string>>, anchor: string, occurrence: nat, s: nat, q: nat,
      seen: nat): Selection
    requires anchor != "" && s <= |sections| && (s < |sections| ==> q <= |sections[s]|)
    decreases |sections| - s, if s < |sections| then |sections[s]| - q else 0
  {
    if s == |sections| then Missing(seen)
    else if q == |sections[s]| then SelectionFrom(sections, anchor, occurrence, s + 1, 0, seen)
    else
      var count := Count(sections[s][q], anchor, 0);
      if occurrence < seen + count then Selected(s, q)
      else SelectionFrom(sections, anchor, occurrence, s, q + 1, seen + count)
  }

  method SelectAnchorParagraph(sections: seq<seq<string>>, anchor: string, occurrence: nat) returns (r: Selection)
    requires anchor != ""
    ensures r == SelectionFrom(sections, anchor, occurrence, 0, 0, 0)
  {
    var seen: nat := 0;
    for s := 0 to |sections|
      invariant SelectionFrom(sections, anchor, occurrence, 0, 0, 0)
                == SelectionFrom(sections, anchor, occurrence, s, 0, seen)
    {
      for q := 0 to |sections[s]|
        invariant SelectionFrom(sections, anchor, occurrence, 0, 0, 0)
                  == SelectionFrom(sections, anchor, occurrence, s, q, seen)
      {
        var count := Count(sections[s][q], anchor, 0);
        if occurrence < seen + count {
          return Selected(s, q);
        }
        seen := seen + count;
      }
    }
    r := Missing(seen);
  }

  /** The selection is the paragraph of the occurrence with that number, counting all matches in order. */
  lemma {:induction false} SelectionIs(
    sections: seq<seq<string>>, anchor: string, occurrence: nat, s: nat, q: nat, seen: nat)
    requires anchor != "" && s <= |sections| && (s < |sections| ==> q <= |sections[s]|) && seen <= occurrence
    requires seen == |InSections(sections, anchor, s)| +
                     if s < |sections| then |InParagraphs(sections[s], anchor, s, q)| else 0
    ensures var all := Occurrences(sections, anchor);
            SelectionFrom(sections, anchor, occurrence, s, q, seen) ==
            if occurrence < |all| then Selected(all[occurrence].section, all[occurrence].paragraph) else Missing(|all|)
    decreases |sections| - s, if s < |sections| then |sections[s]| - q else 0
  {
    hide IsAt, Matches, Count, InSections, InParagraphs;
    if s < |sections| {
      if q == |sections[s]| {
        OneMoreSection(sections, anchor, s);
        if s + 1 < |sections| {
          NothingBeforeParagraph(sections[s + 1], anchor, s + 1);
        }
        SelectionIs(sections, anchor, occurrence, s + 1, 0, seen);
      } else {
        var count := Count(sections[s][q], anchor, 0);
        CountIsMatches(sections[s][q], anchor, 0);
        PlacedAmongAll(sections, anchor, s, q);
        if occurrence >= seen + count {
          OneMoreParagraph(sections[s], anchor, s, q);
          SelectionIs(sections, anchor, occurrence, s, q + 1, seen + count);
        }
      }
    }
  }

  /**
   The two programs agree: a resolved occurrence is selected, in the paragraph that holds it. Without a
   request the occurrence is the only match there is.
   */
  lemma {:induction false} AnchorAgreement(sections: seq<seq<string>>, anchor: string, requested: Option<int>)
    requires ResolutionOf(sections, anchor, requested).Resolved?
    ensures anchor != ""
    ensures var k := ResolutionOf(sections, anchor, requested).occurrence;
            var all := Occurrences(sections, anchor);
            && k < |all| && (requested.Some? ==> k == requested.value) && (requested.None? ==> |all| == 1)
            && SelectionFrom(sections, anchor, k, 0, 0, 0) == Selected(all[k].section, all[k].paragraph)
            && all[k].section < |sections| && all[k].paragraph < |sections[all[k].section]|
            && IsAt(sections[all[k].section][all[k].paragraph], anchor, all[k].position)
  {
    hide IsAt, InSections, InParagraphs, IndexOf;
    NothingBefore(sections, anchor);
    if |sections| > 0 {
      NothingBeforeParagraph(sections[0], anchor, 0);
    }
    var k := ResolutionOf(sections, anchor, requested).occurrence;
    SelectionIs(sections, anchor, k, 0, 0, 0);
    OccurrencesMatch(sections, anchor, |sections|);
  }

  /** A requested occurrence is resolved exactly when the other program finds a paragraph for it. */
  lemma {:induction false} ResolvedIffSelected(sections: seq<seq<string>>, anchor: string, k: nat)
    requires anchor != "" && k <= MAX_SAFE_INTEGER
    ensures ResolutionOf(sections, anchor, Some(k)) == Resolved(k) <==>
            SelectionFrom(sections, anchor, k, 0, 0, 0).Selected?
    ensures ResolutionOf(sections, anchor, Some(k)) == NotFound <==>
            SelectionFrom(sections, anchor, k, 0, 0, 0) == Missing(|Occurrences(sections, anchor)|)
  {
    hide IsAt, InSections, InParagraphs, IndexOf;
    NothingBefore(sections, anchor);
    if |sections| > 0 {
      NothingBeforeParagraph(sections[0], anchor, 0);
    }
    SelectionIs(sections, anchor, k, 0, 0, 0);
  }

  /** Occurrences are matches, in the order of the document. */
  ghost predicate AreMatches(sections: seq<seq<string>>, anchor: string, places: seq<Place>) {
    forall i | 0 <= i < |places| ::
      && places[i].section < |sections| && places[i].paragraph < |sections[places[i].section]|
      && IsAt(sections[places[i].section][places[i].paragraph], anchor, places[i].position)
  }

  lemma {:induction false} MatchesMatch(text: string, anchor: string, from: nat)
    requires anchor != ""
    ensures forall i | 0 <= i < |Matches(text, anchor, from)| :: IsAt(text, anchor, Matches(text, anchor, from)[i])
  {
    MatchesApart(text, anchor, from);
  }

  lemma {:induction false} ParagraphsMatch(sections: seq<seq<string>>, anchor: string, s: nat, count: nat)
    requires anchor != "" && s < |sections| && count <= |sections[s]|
    ensures AreMatches(sections, anchor, InParagraphs(sections[s], anchor, s, count))
  {
    hide IsAt, Matches, AreMatches;
    if count > 0 {
      ParagraphsMatch(sections, anchor, s, count - 1);
      ParagraphMatches(sections, anchor, s, count - 1);
      MatchesAppend(sections, anchor, InParagraphs(sections[s], anchor, s, count - 1),
                    PlacesIn(s, count - 1, Matches(sections[s][count - 1], anchor, 0)));
    } else {
      NoMatches(sections, anchor);
    }
  }

  lemma NoMatches(sections: seq<seq<string>>, anchor: string)
    ensures AreMatches(sections, anchor, [])
  {
  }

  lemma ParagraphMatches(sections: seq<seq<string>>, anchor: string, s: nat, k: nat)
    requires anchor != "" && s < |sections| && k < |sections[s]|
    ensures AreMatches(sections, anchor, PlacesIn(s, k, Matches(sections[s][k], anchor, 0)))
  {
    hide IsAt, Matches;
    MatchesMatch(sections[s][k], anchor, 0);
  }

  lemma MatchesAppend(sections: seq<seq<string>>, anchor: string, a: seq<Place>, b: seq<Place>)
    requires AreMatches(sections, anchor, a) && AreMatches(sections, anchor, b)
    ensures AreMatches(sections, anchor, a + b)
  {
    hide IsAt;
  }

  lemma {:induction false} OccurrencesMatch(sections: seq<seq<string>>, anchor: string, count: nat)
    requires anchor != "" && count <= |sections|
    ensures AreMatches(sections, anchor, InSections(sections, anchor, count))
  {
    hide IsAt, InParagraphs, AreMatches;
    if count > 0 {
      var k := count - 1;
      OccurrencesMatch(sections, anchor, k);
      ParagraphsMatch(sections, anchor, k, |sections[k]|);
      MatchesAppend(sections, anchor, InSections(sections, anchor, k),
        InParagraphs(sections[k], anchor, k, |sections[k]|));
    } else {
      NoMatches(sections, anchor);
    }
  }

  // ---------------------------------------------------------------- the paragraphs that count

  datatype Paragraph = Paragraph(start: nat, excluded: bool, text: string)

  datatype Table = Table(rows: seq<Row>)

  datatype Row = Row(cells: seq<Cell>)

  datatype Cell = Cell(paragraphs: seq<Paragraph>, tables: seq<Table>)

  function InTables(tables: seq<Table>): seq<Paragraph> {
    if tables == [] then [] else InRows(tables[0].rows) + InTables(tables[1..])
  }

  function InRows(rows: seq<Row>): seq<Paragraph> {
    if rows == [] then [] else InCells(rows[0].cells) + InRows(rows[1..])
  }

  function InCells(cells: seq<Cell>): seq<Paragraph> {
    if cells == [] then [] else cells[0].paragraphs + InTables(cells[0].tables) + InCells(cells[1..])
  }

  /** The last paragraph at `start` that is not excluded. */
  function LastAt(paragraphs: seq<Paragraph>, start: nat): Option<Paragraph> {
    if paragraphs == [] then None
    else
      var last := paragraphs[|paragraphs| - 1];
      if !last.excluded && last.start == start then Some(last)
      else LastAt(paragraphs[..|paragraphs| - 1], start)
  }

  /** In order of their starts, one paragraph for every start that has any, and it is the last one listed. */
  ghost predicate AreEligible(r: seq<Paragraph>, paragraphs: seq<Paragraph>) {
    && (forall i, j | 0 <= i < j < |r| :: r[i].start < r[j].start)
    && (forall i | 0 <= i < |r| :: LastAt(paragraphs, r[i].start) == Some(r[i]))
    && (forall start: nat | LastAt(paragraphs, start).Some? :: LastAt(paragraphs, start).value in r)
  }

  /** The eligible paragraphs of a section are determined by what the scan lists, body first, tables after. */
  lemma {:induction false} EligibleIsUnique(r: seq<Paragraph>, s: seq<Paragraph>, paragraphs: seq<Paragraph>)
    requires AreEligible(r, paragraphs) && AreEligible(s, paragraphs)
    ensures r == s
  {
    SameMembers(r, s, paragraphs);
    SameMembers(s, r, paragraphs);
    SortedUnique(r, s);
  }

  lemma {:induction false} SameMembers(r: seq<Paragraph>, s: seq<Paragraph>, paragraphs: seq<Paragraph>)
    requires AreEligible(r, paragraphs) && AreEligible(s, paragraphs)
    ensures forall p | p in r :: p in s
  {
    hide LastAt;
    forall p | p in r ensures p in s {
      var i :| 0 <= i < |r| && r[i] == p;
      assert LastAt(paragraphs, p.start) == Some(p);
    }
  }

  lemma {:induction false} SortedUnique(r: seq<Paragraph>, s: seq<Paragraph>)
    requires forall i, j | 0 <= i < j < |r| :: r[i].start < r[j].start
    requires forall i, j | 0 <= i < j < |s| :: s[i].start < s[j].start
    requires forall p :: p in r <==> p in s
    ensures r == s
  {
    assert |s| > 0 ==> s[0] in s;
    if r != [] {
      assert r[0] in s && s[0] in r;
      var i :| 0 <= i < |s| && s[i] == r[0];
      var j :| 0 <= j < |r| && r[j] == s[0];
      assert i == 0 && j == 0;
      forall p ensures p in r[1..] <==> p in s[1..] {
        if p in r[1..] {
          var k :| 0 < k < |r| && r[k] == p;
          assert p in s && p != s[0];
        }
        if p in s[1..] {
          var k :| 0 < k < |s| && s[k] == p;
          assert p in r && p != r[0];
        }
      }
      SortedUnique(r[1..], s[1..]);
    }
  }

  method Walk(tables: seq<Table>, before: seq<Paragraph>) returns (r: seq<Paragraph>)
    ensures r == before + InTables(tables)
    decreases tables, 1
  {
    r := before;
    for t := 0 to |tables|
      invariant before + InTables(tables) == r + InTables(tables[t..])
    {
      r := WalkRows(tables[t].rows, r);
      assert tables[t..][1..] == tables[t + 1..];
    }
  }

  method WalkRows(rows: seq<Row>, before: seq<Paragraph>) returns (r: seq<Paragraph>)
    ensures r == before + InRows(rows)
    decreases rows, 1
  {
    r := before;
    for i := 0 to |rows|
      invariant before + InRows(rows) == r + InRows(rows[i..])
    {
      r := WalkCells(rows[i].cells, r);
      assert rows[i..][1..] == rows[i + 1..];
    }
  }

  method WalkCells(cells: seq<Cell>, before: seq<Paragraph>) returns (r: seq<Paragraph>)
    ensures r == before + InCells(cells)
    decreases cells, 1
  {
    r := before;
    for c := 0 to |cells|
      invariant before + InCells(cells) == r + InCells(cells[c..])
    {
      r := Walk(cells[c].tables, r + cells[c].paragraphs);
      assert cells[c..][1..] == cells[c + 1..];
    }
  }

  /** `byStart` holds the last paragraph of each start that has one which is not excluded. */
  ghost predicate Keyed(byStart: map<nat, Paragraph>, paragraphs: seq<Paragraph>) {
    forall start: nat ::
      LastAt(paragraphs, start) == if start in byStart then Some(byStart[start]) else None
  }

  lemma {:induction false} KeyedMore(byStart: map<nat, Paragraph>, paragraphs: seq<Paragraph>, k: nat)
    requires k < |paragraphs| && Keyed(byStart, paragraphs[..k])
    ensures var p := paragraphs[k];
            Keyed(if p.excluded then byStart else byStart[p.start := p], paragraphs[..k + 1])
  {
    assert paragraphs[..k + 1][..k] == paragraphs[..k];
  }

  /** The entries of `byStart` in the order of their starts. */
  method SortByStart(byStart: map<nat, Paragraph>) returns (r: seq<Paragraph>)
    requires forall start | start in byStart :: byStart[start].start == start
    ensures forall i, j | 0 <= i < j < |r| :: r[i].start < r[j].start
    ensures forall p :: p in r <==> p.start in byStart && byStart[p.start] == p
  {
    r := [];
    var rest := byStart.Keys;
    while rest != {}
      invariant rest <= byStart.Keys
      invariant forall i, j | 0 <= i < j < |r| :: r[i].start < r[j].start
      invariant forall i, start | 0 <= i < |r| && start in rest :: r[i].start < start
      invariant forall p :: p in r <==> p.start in byStart && p.start !in rest && byStart[p.start] == p
      decreases |rest|
    {
      var least := Least(rest);
      r := r + [byStart[least]];
      rest := rest - {least};
    }
  }

  method Least(starts: set<nat>) returns (least: nat)
    requires starts != {}
    ensures least in starts && forall start | start in starts :: least <= start
  {
    least :| least in starts;
    var rest := starts - {least};
    while rest != {}
      invariant rest <= starts && least in starts
      invariant forall start | start in starts && start !in rest :: least <= start
      decreases |rest|
    {
      var next :| next in rest;
      if next < least {
        least := next;
      }
      rest := rest - {next};
    }
  }

  method EligibleParagraphs(body: seq<Paragraph>, tables: seq<Table>) returns (r: seq<Paragraph>)
    ensures AreEligible(r, body + InTables(tables))
  {
    var paragraphs := Walk(tables, body);
    var byStart: map<nat, Paragraph> := map[];
    for k := 0 to |paragraphs|
      invariant Keyed(byStart, paragraphs[..k])
    {
      KeyedMore(byStart, paragraphs, k);
      if !paragraphs[k].excluded {
        byStart := byStart[paragraphs[k].start := paragraphs[k]];
      }
    }
    assert paragraphs[..|paragraphs|] == paragraphs;
    KeyedStarts(byStart, paragraphs);
    r := SortByStart(byStart);
    hide LastAt, InTables;
    forall i | 0 <= i < |r| ensures LastAt(paragraphs, r[i].start) == Some(r[i]) {
      assert r[i] in r;
    }
  }

  lemma {:induction false} LastStarts(paragraphs: seq<Paragraph>, start: nat)
    ensures LastAt(paragraphs, start).Some? ==> LastAt(paragraphs, start).value.start == start
  {
    if paragraphs != [] {
      LastStarts(paragraphs[..|paragraphs| - 1], start);
    }
  }

  lemma {:induction false} KeyedStarts(byStart: map<nat, Paragraph>, paragraphs: seq<Paragraph>)
    requires Keyed(byStart, paragraphs)
    ensures forall start | start in byStart :: byStart[start].start == start
  {
    forall start | start in byStart ensures byStart[start].start == start {
      assert LastAt(paragraphs, start) == Some(byStart[start]);
      LastStarts(paragraphs, start);
    }
  }
}
