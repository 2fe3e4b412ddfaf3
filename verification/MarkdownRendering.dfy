/**
 Which tables render: balanced ones whose outermost table has a closed row with a closed cell, read off
 the tags themselves.
 */
module MarkdownRendering {
  import opened MarkdownTables

  /** How many tables are open before tag `n`. */
  function TableDepth(kinds: seq<(bool, TagName)>, n: nat): int
    requires n <= |kinds|
  {
    if n == 0 then 0
    else if kinds[n - 1].1 != Table then TableDepth(kinds, n - 1)
    else if kinds[n - 1].0 then TableDepth(kinds, n - 1) - 1
    else TableDepth(kinds, n - 1) + 1
  }

  /** A row tag directly inside the outermost table. */
  predicate RowTag(kinds: seq<(bool, TagName)>, i: nat, isClose: bool) {
    i < |kinds| && kinds[i] == (isClose, Tr) && TableDepth(kinds, i) == 1
  }

  /** A cell tag directly inside the outermost table. */
  predicate CellTag(kinds: seq<(bool, TagName)>, i: nat, isClose: bool) {
    i < |kinds| && kinds[i].0 == isClose && (kinds[i].1 == Td || kinds[i].1 == Th) && TableDepth(kinds, i) == 1
  }

  /** A row has been opened at `r` and not closed before `n`. */
  ghost predicate OpenRow(kinds: seq<(bool, TagName)>, r: nat, n: nat) {
    r < n && RowTag(kinds, r, false) && forall x: nat | r < x < n :: !RowTag(kinds, x, true)
  }

  ghost predicate InRow(kinds: seq<(bool, TagName)>, n: nat) {
    exists r: nat :: OpenRow(kinds, r, n)
  }

  /** A cell has been opened at `o` and not closed within a row before `n`. */
  ghost predicate OpenCell(kinds: seq<(bool, TagName)>, o: nat, n: nat) {
    o < n && CellTag(kinds, o, false) && forall x: nat | o < x < n :: !(CellTag(kinds, x, true) && InRow(kinds, x))
  }

  ghost predicate InCell(kinds: seq<(bool, TagName)>, n: nat) {
    exists o: nat :: OpenCell(kinds, o, n)
  }

  /** The row that opens at `r` has a cell that is closed at `c`, and no other row tag stands before `n`. */
  ghost predicate CellInRow(kinds: seq<(bool, TagName)>, r: nat, c: nat, n: nat) {
    && r < c < n && RowTag(kinds, r, false) && CellTag(kinds, c, true) && InCell(kinds, c)
    && forall x: nat | r < x < n :: !RowTag(kinds, x, false) && !RowTag(kinds, x, true)
  }

  ghost predicate HasCell(kinds: seq<(bool, TagName)>, n: nat) {
    exists r: nat, c: nat :: CellInRow(kinds, r, c, n)
  }

  /** Some row with a closed cell is closed before `n`. */
  ghost predicate ClosedRow(kinds: seq<(bool, TagName)>, n: nat) {
    exists q: nat :: q < n && RowTag(kinds, q, true) && HasCell(kinds, q)
  }

  /** The tables of a text are balanced, and the outermost ones have a closed row with a closed cell. */
  ghost predicate TableRenders(text: string) {
    var kinds := Kinds(Tags(text, 0));
    && (forall n | 0 <= n <= |kinds| :: TableDepth(kinds, n) >= 0) && TableDepth(kinds, |kinds|) == 0
    && ClosedRow(kinds, |kinds|)
  }

  lemma InRowTurn(kinds: seq<(bool, TagName)>, n: nat)
    requires n < |kinds|
    ensures InRow(kinds, n + 1) <==> RowTag(kinds, n, false) || (InRow(kinds, n) && !RowTag(kinds, n, true))
  {
    hide RowTag;
    if InRow(kinds, n + 1) {
      var r: nat :| OpenRow(kinds, r, n + 1);
      if r < n {
        assert OpenRow(kinds, r, n);
      }
    }
    if RowTag(kinds, n, false) {
      assert OpenRow(kinds, n, n + 1);
    } else if InRow(kinds, n) && !RowTag(kinds, n, true) {
      var r: nat :| OpenRow(kinds, r, n);
      assert OpenRow(kinds, r, n + 1);
    }
  }

  lemma InCellTurn(kinds: seq<(bool, TagName)>, n: nat)
    requires n < |kinds|
    ensures InCell(kinds, n + 1) <==>
            CellTag(kinds, n, false) || (InCell(kinds, n) && !(CellTag(kinds, n, true) && InRow(kinds, n)))
  {
    hide CellTag, InRow;
    if InCell(kinds, n + 1) {
      var o: nat :| OpenCell(kinds, o, n + 1);
      if o < n {
        assert OpenCell(kinds, o, n);
      }
    }
    if CellTag(kinds, n, false) {
      assert OpenCell(kinds, n, n + 1);
    } else if InCell(kinds, n) && !(CellTag(kinds, n, true) && InRow(kinds, n)) {
      var o: nat :| OpenCell(kinds, o, n);
      assert OpenCell(kinds, o, n + 1);
    }
  }

  /** A cell is closed in the open row when it was before, or now. */
  lemma HasCellTurn(kinds: seq<(bool, TagName)>, n: nat)
    requires n < |kinds|
    ensures HasCell(kinds, n + 1) <==>
            && !RowTag(kinds, n, false) && !RowTag(kinds, n, true)
            && (HasCell(kinds, n) || (CellTag(kinds, n, true) && InCell(kinds, n) && InRow(kinds, n)))
  {
    hide RowTag, CellTag, InCell;
    if HasCell(kinds, n + 1) {
      var r: nat, c: nat :| CellInRow(kinds, r, c, n + 1);
      if c < n {
        assert CellInRow(kinds, r, c, n);
      } else {
        assert OpenRow(kinds, r, n);
      }
    }
    if !RowTag(kinds, n, false) && !RowTag(kinds, n, true) {
      if HasCell(kinds, n) {
        var r: nat, c: nat :| CellInRow(kinds, r, c, n);
        assert CellInRow(kinds, r, c, n + 1);
      } else if CellTag(kinds, n, true) && InCell(kinds, n) && InRow(kinds, n) {
        var r := LastRow(kinds, n);
        assert CellInRow(kinds, r, n, n + 1);
      }
    }
  }

  /** The last row tag before `n`, when a row is open, opens it. */
  lemma {:induction false} LastRow(kinds: seq<(bool, TagName)>, n: nat) returns (r: nat)
    requires n <= |kinds| && InRow(kinds, n)
    ensures r < n && RowTag(kinds, r, false)
    ensures forall x: nat | r < x < n :: !RowTag(kinds, x, false) && !RowTag(kinds, x, true)
  {
    hide RowTag, InRow;
    if n == 0 {
      NoRowAtStart(kinds);
      assert false;
    } else {
      InRowTurn(kinds, n - 1);
      if RowTag(kinds, n - 1, false) {
        r := n - 1;
      } else {
        r := LastRow(kinds, n - 1);
      }
    }
  }

  lemma NoRowAtStart(kinds: seq<(bool, TagName)>)
    ensures !InRow(kinds, 0) && !InCell(kinds, 0) && !ClosedRow(kinds, 0)
  {
  }

  lemma ClosedRowTurn(kinds: seq<(bool, TagName)>, n: nat)
    requires n < |kinds|
    ensures ClosedRow(kinds, n + 1) <==> ClosedRow(kinds, n) || (RowTag(kinds, n, true) && HasCell(kinds, n))
  {
    hide RowTag, HasCell;
  }

  /** What the fold has learned from the tags before `n`. */
  ghost predicate Learned(r: RenderState, kinds: seq<(bool, TagName)>, n: nat)
    requires n <= |kinds|
  {
    && r.depth == TableDepth(kinds, n) && r.rowOpen == InRow(kinds, n) && r.cellOpen == InCell(kinds, n)
    && (r.rowOpen ==> (r.rowCells > 0 <==> HasCell(kinds, n))) && r.rendered == ClosedRow(kinds, n)
  }

  lemma LearnedTurn(r: RenderState, kinds: seq<(bool, TagName)>, n: nat)
    requires n < |kinds| && Learned(r, kinds, n)
    ensures Learned(RenderStep(r, kinds[n].0, kinds[n].1), kinds, n + 1)
  {
    InRowTurn(kinds, n);
    InCellTurn(kinds, n);
    HasCellTurn(kinds, n);
    ClosedRowTurn(kinds, n);
    RowClosed(kinds, n);
    hide InRow, InCell, HasCell, ClosedRow;
  }

  /** Only an open row has a cell. */
  lemma RowClosed(kinds: seq<(bool, TagName)>, n: nat)
    ensures HasCell(kinds, n) ==> InRow(kinds, n)
  {
    if HasCell(kinds, n) {
      var r: nat, c: nat :| CellInRow(kinds, r, c, n);
      assert OpenRow(kinds, r, n);
    }
  }

  lemma {:induction false} RendersFromIs(r: RenderState, kinds: seq<(bool, TagName)>, n: nat)
    requires n <= |kinds| && Learned(r, kinds, n)
    ensures RendersFrom(r, kinds[n..]) <==>
            && (forall k | n < k <= |kinds| :: TableDepth(kinds, k) >= 0)
            && TableDepth(kinds, |kinds|) == 0 && ClosedRow(kinds, |kinds|)
    decreases |kinds| - n
  {
    hide InRow, InCell, HasCell, ClosedRow, TableDepth;
    hide RenderStep;
    if n < |kinds| {
      LearnedTurn(r, kinds, n);
      var next := RenderStep(r, kinds[n].0, kinds[n].1);
      assert kinds[n..][0] == kinds[n] && kinds[n..][1..] == kinds[n + 1..];
      assert next.depth == TableDepth(kinds, n + 1);
      RendersFromIs(next, kinds, n + 1);
      assert RendersFrom(r, kinds[n..]) <==> next.depth >= 0 && RendersFrom(next, kinds[n + 1..]);
    } else {
      assert kinds[n..] == [];
    }
  }

  lemma RendersIs(text: string)
    ensures Renders(text) <==> TableRenders(text)
  {
    hide InRow, InCell, HasCell, ClosedRow;
    var kinds := Kinds(Tags(text, 0));
    NoRowAtStart(kinds);
    assert Learned(BEFORE_TABLE, kinds, 0);
    assert kinds[0..] == kinds && TableDepth(kinds, 0) == 0;
    RendersFromIs(BEFORE_TABLE, kinds, 0);
    assert Renders(text) <==> RendersFrom(BEFORE_TABLE, kinds);
    if RendersFrom(BEFORE_TABLE, kinds) {
      assert forall n | 0 <= n <= |kinds| :: TableDepth(kinds, n) >= 0;
    }
  }
}
