/**
 The escape of a line inserts backslashes only, keeps the protected ranges verbatim and in place,
 and leaves nothing for a second escape to do.
 */
module MarkdownStable {
  import opened Basics
  import opened Regex
  import opened MarkdownInline
  import opened Texts
  import opened MarkdownEscape
  import opened MarkdownInserted

  // The escape inserts backslashes

  lemma {:induction false} CopyInserted(s: string, i: nat, n: nat, t: string, j: nat)
    requires i + n <= |s| && j + n <= |t| && s[i..i + n] == t[j..j + n] && Inserted(s, i + n, t, j + n)
    ensures Inserted(s, i, t, j)
    decreases n
  {
    if n > 0 {
      assert s[i] == s[i..i + n][0] == t[j];
      assert s[i + 1..i + n] == s[i..i + n][1..] && t[j + 1..j + n] == t[j..j + n][1..];
      CopyInserted(s, i + 1, n - 1, t, j + 1);
    }
  }

  lemma {:induction false} EscapesInserted(s: string, i: nat, n: nat, t: string, j: nat)
    requires i + n <= |s| && j + 2 * n <= |t| && (forall k | i <= k < i + n :: s[k] == UNDERSCORE)
    requires t[j..j + 2 * n] == Escapes(n) && Inserted(s, i + n, t, j + 2 * n)
    ensures Inserted(s, i, t, j)
    decreases n
  {
    if n > 0 {
      EscapesSplit(t, j, n);
      EscapesInserted(s, i + 1, n - 1, t, j + 2);
    }
  }

  lemma EscapesSplit(t: string, j: nat, n: nat)
    requires n > 0 && j + 2 * n <= |t| && t[j..j + 2 * n] == Escapes(n)
    ensures t[j] == BACKSLASH && t[j + 1] == UNDERSCORE && t[j + 2..j + 2 * n] == Escapes(n - 1)
  {
    assert t[j] == t[j..j + 2 * n][0] && t[j + 1] == t[j..j + 2 * n][1];
    Bytes.SliceOfSlice(t, j, j + 2 * n, 2, 2 * n);
    assert Escapes(n)[2..] == Escapes(n - 1);
  }

  lemma Suffix(t: string, j: nat, a: string, b: string)
    requires j <= |t| && t[j..] == a + b
    ensures j + |a| <= |t| && t[j..j + |a|] == a && t[j + |a|..] == b
  {
    assert |t[j..]| == |a| + |b|;
    assert t[j..j + |a|] == t[j..][..|a|];
    assert t[j + |a|..] == t[j..][|a|..];
  }

  /** Escaping, from any position on, only inserts backslashes in front of underscores. */
  lemma {:induction false} EscapedInserted(al: Alphabet, s: string, i: nat, t: string, j: nat)
    requires i <= |s| && j <= |t| && t[j..] == Escaped(al, s, i)
    ensures Inserted(s, i, t, j)
    decreases |s| - i
  {
    hide InlineEnd, Piece, AfterPiece, Inserted;
    if i == |s| {
      assert |t[j..]| == 0;
      NothingInserted(s, t);
    } else {
      match InlineEnd(al, s, i)
      case Some(end) =>
        Suffix(t, j, s[i..end], Escaped(al, s, end));
        EscapedInserted(al, s, end, t, j + (end - i));
        CopyInserted(s, i, end - i, t, j);
      case None =>
        var next := AfterPiece(s, i);
        Suffix(t, j, Piece(al, s, i), Escaped(al, s, next));
        EscapedInserted(al, s, next, t, j + |Piece(al, s, i)|);
        PieceInserted(al, s, i, t, j);
    }
  }

  lemma NothingInserted(s: string, t: string)
    ensures Inserted(s, |s|, t, |t|)
  {
  }

  lemma PieceInserted(al: Alphabet, s: string, i: nat, t: string, j: nat)
    requires i < |s| && j + |Piece(al, s, i)| <= |t| && t[j..j + |Piece(al, s, i)|] == Piece(al, s, i)
    requires Inserted(s, AfterPiece(s, i), t, j + |Piece(al, s, i)|)
    ensures Inserted(s, i, t, j)
  {
    hide Intraword, RunEnd, Escapes, Inserted;
    var n := AfterPiece(s, i) - i;
    if s[i] == UNDERSCORE && Intraword(al, s, i) {
      EscapesInserted(s, i, n, t, j);
    } else {
      assert s[i..i + n] == Piece(al, s, i);
      CopyInserted(s, i, n, t, j);
    }
  }

  // A range that is copied is found again

  lemma {:induction false} StopCopied(f: char -> bool, s: string, i: nat, t: string, j: nat)
    requires i <= |s| && j + (First(f, s, i) - i) <= |t| && s[i..First(f, s, i)] == t[j..j + (First(f, s, i) - i)]
    requires var b := j + (First(f, s, i) - i); b == |t| || f(t[b])
    ensures First(f, t, j) == j + (First(f, s, i) - i)
    decreases |s| - i
  {
    var a := First(f, s, i);
    if i < a {
      assert t[j] == t[j..j + (a - i)][0] == s[i..a][0] == s[i];
      assert s[i + 1..a] == s[i..a][1..] && t[j + 1..j + (a - i)] == t[j..j + (a - i)][1..];
      StopCopied(f, s, i + 1, t, j + 1);
    }
  }

  /** Same characters over the next `n` positions. */
  predicate Copied(s: string, i: nat, t: string, j: nat, n: nat) {
    i + n <= |s| && j + n <= |t| && s[i..i + n] == t[j..j + n]
  }

  lemma CopiedAt(s: string, i: nat, t: string, j: nat, n: nat, k: nat)
    requires Copied(s, i, t, j, n) && k < n
    ensures s[i + k] == t[j + k]
  {
    assert s[i + k] == s[i..i + n][k] == t[j..j + n][k];
  }

  lemma CopiedPart(s: string, i: nat, t: string, j: nat, n: nat, k: nat, m: nat)
    requires Copied(s, i, t, j, n) && k <= m <= n
    ensures Copied(s, i + k, t, j + k, m - k)
  {
    Bytes.SliceOfSlice(s, i, i + n, k, m);
    Bytes.SliceOfSlice(t, j, j + n, k, m);
  }

  /** A stop strictly inside a copied stretch is found at the same distance. */
  lemma StopInside(f: char -> bool, s: string, i: nat, t: string, j: nat, n: nat, k: nat)
    requires Copied(s, i, t, j, n) && k < n && First(f, s, i + k) < i + n
    ensures First(f, t, j + k) == j + (First(f, s, i + k) - i)
  {
    var a := First(f, s, i + k) - i;
    CopiedPart(s, i, t, j, n, k, a);
    CopiedAt(s, i, t, j, n, a);
    StopCopied(f, s, i + k, t, j + k);
  }

  lemma CodeKept(s: string, i: nat, t: string, j: nat)
    requires CodeEnd(s, i).Some? && Copied(s, i, t, j, CodeEnd(s, i).value - i)
    ensures CodeEnd(t, j) == Some(j + (CodeEnd(s, i).value - i))
  {
    var n := CodeEnd(s, i).value - i;
    CopiedAt(s, i, t, j, n, 0);
    StopInside(Is('`'), s, i, t, j, n, 1);
  }

  lemma LinkKept(al: Alphabet, s: string, i: nat, t: string, j: nat)
    requires LinkEnd(al, s, i).Some? && Copied(s, i, t, j, LinkEnd(al, s, i).value - i)
    ensures LinkEnd(al, t, j) == Some(j + (LinkEnd(al, s, i).value - i))
  {
    var n := LinkEnd(al, s, i).value - i;
    CopiedAt(s, i, t, j, n, 0);
    CopiedAt(s, i, t, j, n, 1);
    StopInside(StopParen(al), s, i, t, j, n, 2);
    CopiedAt(s, i, t, j, n, n - 1);
  }

  lemma AutolinkKept(al: Alphabet, s: string, i: nat, t: string, j: nat)
    requires AutolinkEnd(al, s, i).Some? && Copied(s, i, t, j, AutolinkEnd(al, s, i).value - i)
    ensures AutolinkEnd(al, t, j) == Some(j + (AutolinkEnd(al, s, i).value - i))
  {
    hide First, Copied, IsSchemeStart, IsSchemeChar, AutolinkEnd, AutolinkTail;
    var n, cursor := AutolinkEnd(al, s, i).value - i, First(Not(IsSchemeChar), s, i + 2);
    CopiedLength(s, i, t, j, n);
    AutolinkSplit(al, s, i);
    AutolinkSplit(al, t, j);
    CopiedAt(s, i, t, j, n, 0);
    CopiedAt(s, i, t, j, n, 1);
    TailStarts(al, s, cursor);
    StopInside(Not(IsSchemeChar), s, i, t, j, n, 2);
    TailKept(al, s, i, t, j, n, cursor);
  }

  lemma TailStarts(al: Alphabet, s: string, cursor: nat)
    requires cursor <= |s| && AutolinkTail(al, s, cursor).Some?
    ensures cursor + 1 < AutolinkTail(al, s, cursor).value <= |s|
  {
    hide First;
  }

  lemma TailKept(al: Alphabet, s: string, i: nat, t: string, j: nat, n: nat, cursor: nat)
    requires i <= cursor <= |s| && AutolinkTail(al, s, cursor) == Some(i + n) && Copied(s, i, t, j, n)
    ensures j + (cursor - i) <= |t| && AutolinkTail(al, t, j + (cursor - i)) == Some(j + n)
  {
    hide First, Copied;
    CopiedLength(s, i, t, j, n);
    CopiedAt(s, i, t, j, n, cursor - i);
    StopInside(StopAngle(al), s, i, t, j, n, cursor - i + 1);
    CopiedAt(s, i, t, j, n, n - 1);
  }

  lemma CopiedLength(s: string, i: nat, t: string, j: nat, n: nat)
    requires Copied(s, i, t, j, n)
    ensures i + n <= |s| && j + n <= |t|
  {
  }

  lemma HttpKept(s: string, i: nat, t: string, j: nat, n: nat)
    requires SchemeEnd(s, i).Some? && SchemeEnd(s, i).value <= i + n && Copied(s, i, t, j, n)
    ensures SchemeEnd(t, j) == Some(j + (SchemeEnd(s, i).value - i))
  {
    hide FoldsTo;
    CopiedAt(s, i, t, j, n, 0);
    CopiedAt(s, i, t, j, n, 1);
    CopiedAt(s, i, t, j, n, 2);
    CopiedAt(s, i, t, j, n, 3);
    CopiedAt(s, i, t, j, n, 4);
    CopiedAt(s, i, t, j, n, 5);
    CopiedAt(s, i, t, j, n, 6);
    if HasAt(Folds('s'), s, i + 4) {
      CopiedAt(s, i, t, j, n, 7);
    }
  }

  lemma {:induction false} UrlKept(al: Alphabet, s: string, i: nat, t: string, j: nat)
    requires al.Lawful() && UrlEnd(al, s, i).Some? && Copied(s, i, t, j, UrlEnd(al, s, i).value - i)
    requires HasAt(IsWordChar, s, i - 1) == HasAt(IsWordChar, t, j - 1)
    requires var e := UrlEnd(al, s, i).value; Inserted(s, e, t, j + (e - i))
    ensures UrlEnd(al, t, j) == Some(j + (UrlEnd(al, s, i).value - i))
  {
    hide *;
    var e := UrlEnd(al, s, i).value;
    UrlParts(al, s, i);
    var scheme := SchemeEnd(s, i).value;
    CopiedLength(s, i, t, j, e - i);
    CopiedAt(s, i, t, j, e - i, 0);
    HttpKept(s, i, t, j, e - i);
    SpaceKept(al, s, i, t, j, scheme);
    UrlOfParts(al, t, j, j + (scheme - i));
  }

  lemma UrlParts(al: Alphabet, s: string, i: nat)
    requires UrlEnd(al, s, i).Some?
    ensures i < |s| && FoldsTo(s[i], 'h') && !HasAt(IsWordChar, s, i - 1)
    ensures SchemeEnd(s, i).Some? && SchemeEnd(s, i).value < UrlEnd(al, s, i).value
    ensures UrlEnd(al, s, i).value == First(al.isSpace, s, SchemeEnd(s, i).value)
  {
    hide First, SchemeEnd, FoldsTo;
  }

  lemma UrlOfParts(al: Alphabet, s: string, i: nat, scheme: nat)
    requires i < |s| && FoldsTo(s[i], 'h') && !HasAt(IsWordChar, s, i - 1)
    requires SchemeEnd(s, i) == Some(scheme) && scheme < First(al.isSpace, s, scheme)
    ensures UrlEnd(al, s, i) == Some(First(al.isSpace, s, scheme))
  {
    hide First, SchemeEnd, FoldsTo;
  }

  /** The white space, or the end of the line, that ends a URL. */
  lemma {:induction false} SpaceKept(al: Alphabet, s: string, i: nat, t: string, j: nat, scheme: nat)
    requires al.Lawful() && i <= scheme <= |s| && j <= |t|
    requires var e := First(al.isSpace, s, scheme); Copied(s, i, t, j, e - i) && Inserted(s, e, t, j + (e - i))
    ensures j + (scheme - i) <= |t| && First(al.isSpace, t, j + (scheme - i)) == j + (First(al.isSpace, s, scheme) - i)
  {
    hide First, Inserted;
    var e := First(al.isSpace, s, scheme);
    SameStart(al.isSpace, s, e, t, j + (e - i));
    CopiedPart(s, i, t, j, e - i, scheme - i, e - i);
    EndsTogether(s, e, t, j + (e - i));
    StopCopied(al.isSpace, s, scheme, t, j + (scheme - i));
  }

  lemma EndsTogether(s: string, e: nat, t: string, b: nat)
    requires e <= |s| && b <= |t| && Inserted(s, e, t, b)
    ensures e == |s| ==> b == |t|
  {
  }

  /** A protected range that is copied verbatim is found again, as long. */
  lemma {:induction false} InlineKept(al: Alphabet, s: string, i: nat, t: string, j: nat)
    requires al.Lawful() && InlineEnd(al, s, i).Some? && Copied(s, i, t, j, InlineEnd(al, s, i).value - i)
    requires HasAt(IsWordChar, s, i - 1) == HasAt(IsWordChar, t, j - 1)
    requires var e := InlineEnd(al, s, i).value; Inserted(s, e, t, j + (e - i))
    ensures InlineEnd(al, t, j) == Some(j + (InlineEnd(al, s, i).value - i))
  {
    hide CodeEnd, AutolinkEnd, LinkEnd, UrlEnd, Inserted;
    CopiedAt(s, i, t, j, InlineEnd(al, s, i).value - i, 0);
    if s[i] == '`' {
      CodeKept(s, i, t, j);
    } else if s[i] == '<' {
      AutolinkKept(al, s, i, t, j);
    } else if s[i] == ']' {
      LinkKept(al, s, i, t, j);
    } else {
      UrlKept(al, s, i, t, j);
    }
  }

  // A second escape changes nothing

  /** The positions follow the same character, or start the texts. */
  predicate SameBefore(s: string, i: nat, t: string, j: nat) {
    (i == 0 <==> j == 0) && (0 < i <= |s| && 0 < j <= |t| ==> s[i - 1] == t[j - 1])
  }

  lemma NothingAtMarks(al: Alphabet, t: string, j: nat)
    requires al.Lawful() && j < |t| && (t[j] == BACKSLASH || t[j] == UNDERSCORE)
    ensures InlineEnd(al, t, j) == None
  {
    hide InlineEnd;
    if InlineEnd(al, t, j).Some? {
      RangeEdges(al, t, j);
    }
  }

  /** Written escapes are read as backslashes and single underscores after a backslash. */
  lemma {:induction false} EscapesStable(al: Alphabet, t: string, j: nat, n: nat)
    requires al.Lawful() && j + 2 * n <= |t| && t[j..j + 2 * n] == Escapes(n)
    requires j + 2 * n < |t| ==> t[j + 2 * n] != UNDERSCORE
    ensures Escaped(al, t, j) == Escapes(n) + Escaped(al, t, j + 2 * n)
    ensures Ranges(al, t, j) == Ranges(al, t, j + 2 * n)
    decreases n
  {
    hide InlineEnd;
    if n == 0 {
      assert "" + Escaped(al, t, j) == Escaped(al, t, j);
    } else {
      EscapesSplit(t, j, n);
      NothingAtMarks(al, t, j);
      NothingAtMarks(al, t, j + 1);
      if n > 1 {
        EscapesSplit(t, j + 2, n - 1);
      }
      assert RunEnd(t, j + 1) == j + 2;
      EscapesStable(al, t, j + 2, n - 1);
      OneEscape(al, t, j);
      Concatenated([BACKSLASH, UNDERSCORE], Escapes(n - 1), Escaped(al, t, j + 2 * n));
    }
  }

  lemma OneEscape(al: Alphabet, t: string, j: nat)
    requires al.Lawful() && j + 2 <= |t| && t[j] == BACKSLASH && t[j + 1] == UNDERSCORE && RunEnd(t, j + 1) == j + 2
    requires InlineEnd(al, t, j) == None && InlineEnd(al, t, j + 1) == None
    ensures Escaped(al, t, j) == [BACKSLASH, UNDERSCORE] + Escaped(al, t, j + 2)
    ensures Ranges(al, t, j) == Ranges(al, t, j + 2)
  {
    hide InlineEnd, RunEnd;
    assert Piece(al, t, j) == [BACKSLASH] && AfterPiece(t, j) == j + 1;
    assert Piece(al, t, j + 1) == [UNDERSCORE] && AfterPiece(t, j + 1) == j + 2;
    assert Escaped(al, t, j + 1) == [UNDERSCORE] + Escaped(al, t, j + 2);
    assert [BACKSLASH] + ([UNDERSCORE] + Escaped(al, t, j + 2)) == [BACKSLASH, UNDERSCORE] + Escaped(al, t, j + 2);
  }

  /** The escaped text begins with the same character, unless that is an underscore. */
  lemma {:induction false} EscapedFirst(al: Alphabet, s: string, i: nat, t: string, j: nat)
    requires i <= |s| && j <= |t| && t[j..] == Escaped(al, s, i)
    ensures i == |s| ==> j == |t|
    ensures i < |s| && s[i] != UNDERSCORE ==> j < |t| && t[j] == s[i]
  {
    hide InlineEnd;
    EscapedInserted(al, s, i, t, j);
    SameStart(Not(Mark()), s, i, t, j);
    if i < |s| && s[i] == BACKSLASH {
      assert j < |t|;
    }
  }

  function Mark(): char -> bool {
    c => c == UNDERSCORE || c == BACKSLASH
  }

  /** The runs at the two positions have the same letters or digits around them. */
  lemma {:induction false} SameRun(al: Alphabet, s: string, i: nat, t: string, j: nat)
    requires al.Lawful() && i < |s| && s[i] == UNDERSCORE && !Intraword(al, s, i) && SameBefore(s, i, t, j) && j <= |t|
    requires var n := RunEnd(s, i) - i; Copied(s, i, t, j, n) && t[j + n..] == Escaped(al, s, RunEnd(s, i))
    ensures j < |t| && t[j] == UNDERSCORE && RunEnd(t, j) == j + (RunEnd(s, i) - i) && !Intraword(al, t, j)
  {
    hide Escaped;
    var n := RunEnd(s, i) - i;
    EscapedFirst(al, s, i + n, t, j + n);
    CopiedAt(s, i, t, j, n, 0);
    RunCopied(s, i, t, j, n);
  }

  lemma RunCopied(s: string, i: nat, t: string, j: nat, n: nat)
    requires i < |s| && n == RunEnd(s, i) - i && Copied(s, i, t, j, n) && (j + n == |t| || t[j + n] != UNDERSCORE)
    ensures RunEnd(t, j) == j + n
  {
    StopCopied(Not(Is(UNDERSCORE)), s, i, t, j);
  }

  /** A step outside the ranges writes what a second escape leaves alone. */
  lemma {:induction false} PieceStable(al: Alphabet, s: string, i: nat, t: string, j: nat)
    requires al.Lawful() && i < |s| && j <= |t| && t[j..] == Escaped(al, s, i) && SameBefore(s, i, t, j)
    requires InlineEnd(al, s, i) == None
    ensures var n, next := |Piece(al, s, i)|, AfterPiece(s, i);
            && j + n <= |t| && t[j + n..] == Escaped(al, s, next) && SameBefore(s, next, t, j + n)
            && Escaped(al, t, j) == Piece(al, s, i) + Escaped(al, t, j + n)
            && Ranges(al, t, j) == Ranges(al, t, j + n)
  {
    hide InlineEnd, Escaped, Ranges, Inserted, Piece, AfterPiece, SameBefore, Intraword;
    var next := AfterPiece(s, i);
    PieceNext(al, s, i, t, j);
    BeforeNext(al, s, i, t, j);
    EscapedFirst(al, s, next, t, j + |Piece(al, s, i)|);
    if s[i] == UNDERSCORE {
      AfterRun(s, i);
      RunStable(al, s, i, t, j);
    } else {
      EscapedInserted(al, s, i, t, j);
      NothingInline(al, s, i, t, j);
      EscapedFirst(al, s, i, t, j);
      CharacterStable(al, s, i, t, j);
    }
  }

  lemma AfterRun(s: string, i: nat)
    requires i < |s| && s[i] == UNDERSCORE
    ensures AfterPiece(s, i) == RunEnd(s, i) && (RunEnd(s, i) < |s| ==> s[RunEnd(s, i)] != UNDERSCORE)
  {
  }

  lemma BeforeNext(al: Alphabet, s: string, i: nat, t: string, j: nat)
    requires i < |s| && Piece(al, s, i) != "" && j + |Piece(al, s, i)| <= |t|
    requires t[j + |Piece(al, s, i)| - 1] == s[AfterPiece(s, i) - 1]
    ensures SameBefore(s, AfterPiece(s, i), t, j + |Piece(al, s, i)|)
  {
    hide Piece;
  }

  lemma CharacterStable(al: Alphabet, s: string, i: nat, t: string, j: nat)
    requires i < |s| && j < |t| && s[i] == t[j] != UNDERSCORE && InlineEnd(al, t, j) == None
    ensures Piece(al, s, i) == [s[i]]
    ensures Escaped(al, t, j) == Piece(al, s, i) + Escaped(al, t, j + 1) && Ranges(al, t, j) == Ranges(al, t, j + 1)
  {
    hide InlineEnd;
  }

  lemma NothingInline(al: Alphabet, s: string, i: nat, t: string, j: nat)
    requires al.Lawful() && i < |s| && j <= |t| && Inserted(s, i, t, j) && SameBefore(s, i, t, j)
             && InlineEnd(al, s, i) == None
    ensures InlineEnd(al, t, j) == None
  {
    hide InlineEnd, Inserted;
    SameInline(al, s, i, t, j);
  }

  lemma {:induction false} PieceNext(al: Alphabet, s: string, i: nat, t: string, j: nat)
    requires i < |s| && j <= |t| && t[j..] == Escaped(al, s, i) && InlineEnd(al, s, i) == None
    ensures var n, next := |Piece(al, s, i)|, AfterPiece(s, i);
            && n > 0 && j + n <= |t| && t[j..j + n] == Piece(al, s, i) && t[j + n..] == Escaped(al, s, next)
            && t[j + n - 1] == s[next - 1]
  {
    hide InlineEnd, Intraword;
    Suffix(t, j, Piece(al, s, i), Escaped(al, s, AfterPiece(s, i)));
    PieceLast(al, s, i);
    var p := Piece(al, s, i);
    assert t[j + |p| - 1] == t[j..j + |p|][|p| - 1];
  }

  lemma PieceLast(al: Alphabet, s: string, i: nat)
    requires i < |s|
    ensures Piece(al, s, i) != "" && Piece(al, s, i)[|Piece(al, s, i)| - 1] == s[AfterPiece(s, i) - 1]
  {
    hide Intraword;
    if s[i] == UNDERSCORE {
      EscapesLast(RunEnd(s, i) - i);
    }
  }

  lemma {:induction false} EscapesLast(n: nat)
    requires n > 0
    ensures Escapes(n)[2 * n - 1] == UNDERSCORE
  {
    if n > 1 {
      EscapesLast(n - 1);
    }
  }

  lemma {:induction false} RunStable(al: Alphabet, s: string, i: nat, t: string, j: nat)
    requires al.Lawful() && i < |s| && j <= |t| && s[i] == UNDERSCORE && SameBefore(s, i, t, j)
    requires var n := |Piece(al, s, i)|;
             j + n <= |t| && t[j..j + n] == Piece(al, s, i) && t[j + n..] == Escaped(al, s, RunEnd(s, i))
    requires var b := j + |Piece(al, s, i)|; b < |t| ==> t[b] != UNDERSCORE
    ensures var n := |Piece(al, s, i)|;
            Escaped(al, t, j) == Piece(al, s, i) + Escaped(al, t, j + n) && Ranges(al, t, j) == Ranges(al, t, j + n)
  {
    hide Escaped, Ranges, RunEnd, Escapes, Intraword, InlineEnd, SameBefore;
    var n := RunEnd(s, i) - i;
    if Intraword(al, s, i) {
      EscapesStable(al, t, j, n);
    } else {
      SameRun(al, s, i, t, j);
      NothingAtMarks(al, t, j);
      PlainRun(al, t, j);
      SkippedRun(al, t, j, RunEnd(t, j));
    }
  }

  lemma {:induction false} PlainRun(al: Alphabet, t: string, j: nat)
    requires j < |t| && t[j] == UNDERSCORE && !Intraword(al, t, j) && InlineEnd(al, t, j) == None
    ensures Escaped(al, t, j) == t[j..RunEnd(t, j)] + Escaped(al, t, RunEnd(t, j))
  {
    hide InlineEnd, Intraword, RunEnd;
  }

  /** No range starts inside a run of underscores. */
  lemma {:induction false} SkippedRun(al: Alphabet, t: string, j: nat, stop: nat)
    requires al.Lawful() && j <= stop <= |t| && forall k | j <= k < stop :: t[k] == UNDERSCORE
    ensures Ranges(al, t, j) == Ranges(al, t, stop)
    decreases stop - j
  {
    hide InlineEnd;
    if j < stop {
      NothingAtMarks(al, t, j);
      SkippedRun(al, t, j + 1, stop);
    }
  }

  /** Ranges at corresponding positions, with the same text. */
  predicate SameRange(s: string, r: (nat, nat), t: string, u: (nat, nat)) {
    && r.0 <= r.1 <= |s| && u.0 <= u.1 <= |t|
    && s[r.0..r.1] == t[u.0..u.1] && Inserted(s, r.0, t, u.0)
  }

  ghost predicate SameRanges(s: string, rs: seq<(nat, nat)>, t: string, ts: seq<(nat, nat)>) {
    |rs| == |ts| && forall k | 0 <= k < |rs| :: SameRange(s, rs[k], t, ts[k])
  }

  /** From corresponding positions on, the escaped text is its own escape and has the same ranges. */
  lemma {:induction false} StableFrom(al: Alphabet, s: string, i: nat, t: string, j: nat)
    requires al.Lawful() && i <= |s| && j <= |t| && t[j..] == Escaped(al, s, i) && SameBefore(s, i, t, j)
    ensures Escaped(al, t, j) == Escaped(al, s, i)
    ensures SameRanges(s, Ranges(al, s, i), t, Ranges(al, t, j))
    decreases |s| - i
  {
    hide InlineEnd, Piece, AfterPiece, SameBefore, Inserted, SameRanges;
    if i == |s| {
      EndStable(al, s, t, j);
    } else {
      match InlineEnd(al, s, i)
      case Some(end) =>
        RangeNext(al, s, i, t, j);
        StableFrom(al, s, end, t, j + (end - i));
        RangeStable(al, s, i, t, j);
        MoreRanges(s, i, end, Ranges(al, s, end), t, j, j + (end - i), Ranges(al, t, j + (end - i)));
      case None =>
        var next, n := AfterPiece(s, i), |Piece(al, s, i)|;
        PieceStable(al, s, i, t, j);
        StableFrom(al, s, next, t, j + n);
        PieceRanges(al, s, i);
    }
  }

  lemma EndStable(al: Alphabet, s: string, t: string, j: nat)
    requires j <= |t| && t[j..] == Escaped(al, s, |s|)
    ensures Escaped(al, t, j) == Escaped(al, s, |s|)
    ensures SameRanges(s, Ranges(al, s, |s|), t, Ranges(al, t, j))
  {
    assert |t[j..]| == 0;
  }

  lemma PieceRanges(al: Alphabet, s: string, i: nat)
    requires al.Lawful() && i < |s| && InlineEnd(al, s, i) == None
    ensures Ranges(al, s, i) == Ranges(al, s, AfterPiece(s, i))
  {
    hide InlineEnd;
    if s[i] == UNDERSCORE {
      SkippedRun(al, s, i, RunEnd(s, i));
    }
  }

  lemma RangeNext(al: Alphabet, s: string, i: nat, t: string, j: nat)
    requires i < |s| && j <= |t| && InlineEnd(al, s, i).Some? && t[j..] == Escaped(al, s, i) && SameBefore(s, i, t, j)
    ensures var end := InlineEnd(al, s, i).value;
            && Copied(s, i, t, j, end - i) && t[j + (end - i)..] == Escaped(al, s, end)
              && SameBefore(s, end, t, j + (end - i))
            && Inserted(s, end, t, j + (end - i)) && Inserted(s, i, t, j)
  {
    hide InlineEnd, Inserted, Escaped, Ranges;
    var end := InlineEnd(al, s, i).value;
    RangesTurn(al, s, i);
    Suffix(t, j, s[i..end], Escaped(al, s, end));
    EscapedInserted(al, s, end, t, j + (end - i));
    EscapedInserted(al, s, i, t, j);
    CopiedAt(s, i, t, j, end - i, end - i - 1);
  }

  lemma {:induction false} RangeStable(al: Alphabet, s: string, i: nat, t: string, j: nat)
    requires al.Lawful() && i < |s| && InlineEnd(al, s, i).Some? && SameBefore(s, i, t, j) && j <= |t|
    requires var n := InlineEnd(al, s, i).value - i;
             Copied(s, i, t, j, n) && Inserted(s, i + n, t, j + n) && Escaped(al, t, j + n) == Escaped(al, s, i + n)
    ensures var end := InlineEnd(al, s, i).value;
            && Escaped(al, t, j) == Escaped(al, s, i)
            && Ranges(al, t, j) == [(j, j + (end - i))] + Ranges(al, t, j + (end - i))
            && Ranges(al, s, i) == [(i, end)] + Ranges(al, s, end)
  {
    hide *;
    WordBefore(s, i, t, j);
    InlineKept(al, s, i, t, j);
    var n := InlineEnd(al, s, i).value - i;
    CopiedLength(s, i, t, j, n);
    SameStretch(s, i, t, j, n);
    RangesTurn(al, s, i);
    RangesTurn(al, t, j);
  }

  lemma RangesTurn(al: Alphabet, s: string, i: nat)
    requires i < |s| && InlineEnd(al, s, i).Some?
    ensures var end := InlineEnd(al, s, i).value;
            Escaped(al, s, i) == s[i..end] + Escaped(al, s, end) && Ranges(al, s, i) == [(i, end)] + Ranges(al, s, end)
  {
    hide InlineEnd;
  }

  lemma SameStretch(s: string, i: nat, t: string, j: nat, n: nat)
    requires Copied(s, i, t, j, n)
    ensures i + n <= |s| && j + n <= |t| && s[i..i + n] == t[j..j + n]
  {
  }

  lemma WordBefore(s: string, i: nat, t: string, j: nat)
    requires SameBefore(s, i, t, j) && i <= |s| && j <= |t|
    ensures HasAt(IsWordChar, s, i - 1) == HasAt(IsWordChar, t, j - 1)
  {
  }

  lemma MoreRanges(s: string, i: nat, e: nat, rs: seq<(nat, nat)>, t: string, j: nat, f: nat, ts: seq<(nat, nat)>)
    requires SameRanges(s, rs, t, ts) && i <= e <= |s| && j <= f <= |t| && s[i..e] == t[j..f] && Inserted(s, i, t, j)
    ensures SameRanges(s, [(i, e)] + rs, t, [(j, f)] + ts)
  {
    hide Inserted, SameRange;
    var more, others := [(i, e)] + rs, [(j, f)] + ts;
    assert SameRange(s, (i, e), t, (j, f)) by { FoldRange(s, (i, e), t, (j, f)); }
    forall k | 0 <= k < |more| ensures SameRange(s, more[k], t, others[k]) {
      if k > 0 {
        assert more[k] == rs[k - 1] && others[k] == ts[k - 1];
      }
    }
  }

  lemma FoldRange(s: string, r: (nat, nat), t: string, u: (nat, nat))
    requires r.0 <= r.1 <= |s| && u.0 <= u.1 <= |t| && s[r.0..r.1] == t[u.0..u.1] && Inserted(s, r.0, t, u.0)
    ensures SameRange(s, r, t, u)
  {
    hide Inserted;
  }

  /** The escape of a line is its own escape, differs by inserted backslashes only, and keeps the ranges. */
  lemma EscapeLineStable(al: Alphabet, line: string)
    requires al.Lawful()
    ensures var out := EscapeLine(al, line);
            && EscapeLine(al, out) == out && Inserted(line, 0, out, 0)
            && SameRanges(line, Ranges(al, line, 0), out, Ranges(al, out, 0))
  {
    var out := Escaped(al, line, 0);
    EscapeLineIs(al, line);
    EscapeLineIs(al, out);
    assert out[0..] == out;
    EscapedInserted(al, line, 0, out, 0);
    StableFrom(al, line, 0, out, 0);
  }
}
