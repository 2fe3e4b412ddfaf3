/**
 Texts that differ only by backslashes inserted in front of underscores, and what such insertions
 cannot change: the decisions of the inline scanner, and so the protected ranges.
 */
module MarkdownInserted {
  import opened Basics
  import opened Regex
  import opened MarkdownInline
  import opened Texts
  import opened MarkdownEscape

  /** From `j` on, `t` is `s` from `i` on with a backslash inserted in front of some underscores. */
  predicate Inserted(s: string, i: nat, t: string, j: nat)
    requires i <= |s| && j <= |t|
    decreases |s| - i
  {
    if i == |s| then j == |t|
    else if j < |t| && t[j] == s[i] then Inserted(s, i + 1, t, j + 1)
    else
      && s[i] == UNDERSCORE && j + 1 < |t| && t[j] == BACKSLASH && t[j + 1] == UNDERSCORE
      && Inserted(s, i + 1, t, j + 2)
  }

  /** The class holds neither the underscore nor the backslash. */
  ghost predicate Blind(f: char -> bool) {
    !f(UNDERSCORE) && !f(BACKSLASH)
  }

  lemma {:induction false} SameStart(f: char -> bool, s: string, i: nat, t: string, j: nat)
    requires i <= |s| && j <= |t| && Inserted(s, i, t, j) && Blind(f)
    ensures HasAt(f, s, i) == HasAt(f, t, j)
    ensures HasAt(f, s, i) ==> i < |s| && j < |t| && s[i] == t[j] && Inserted(s, i + 1, t, j + 1)
  {
  }

  /** The next stop of a blind class is the same stop, at the shifted position. */
  lemma {:induction false} SameStop(f: char -> bool, s: string, i: nat, t: string, j: nat)
    requires i <= |s| && j <= |t| && Inserted(s, i, t, j) && Blind(f)
    ensures var a, b := First(f, s, i), First(f, t, j);
            Inserted(s, a, t, b) && (a == i <==> b == j) && (a < |s| <==> b < |t|) && (a < |s| ==> s[a] == t[b])
    decreases |s| - i
  {
    if i < |s| && !f(s[i]) {
      if t[j] == s[i] {
        SameStop(f, s, i + 1, t, j + 1);
      } else {
        SameStop(f, s, i + 1, t, j + 2);
      }
    }
  }

  lemma {:induction false} SameCode(s: string, i: nat, t: string, j: nat)
    requires i <= |s| && j <= |t| && Inserted(s, i, t, j)
    ensures CodeEnd(s, i).Some? == CodeEnd(t, j).Some?
    ensures CodeEnd(s, i).Some? ==> Inserted(s, CodeEnd(s, i).value, t, CodeEnd(t, j).value)
  {
    hide First;
    SameStart(Is('`'), s, i, t, j);
    if HasAt(Is('`'), s, i) {
      SameStop(Is('`'), s, i + 1, t, j + 1);
      SameStart(Is('`'), s, First(Is('`'), s, i + 1), t, First(Is('`'), t, j + 1));
    }
  }

  lemma {:induction false} SameLink(al: Alphabet, s: string, i: nat, t: string, j: nat)
    requires al.Lawful() && i <= |s| && j <= |t| && Inserted(s, i, t, j)
    ensures LinkEnd(al, s, i).Some? == LinkEnd(al, t, j).Some?
    ensures LinkEnd(al, s, i).Some? ==> Inserted(s, LinkEnd(al, s, i).value, t, LinkEnd(al, t, j).value)
  {
    hide First;
    SameStart(Is(']'), s, i, t, j);
    if HasAt(Is(']'), s, i) {
      SameStart(Is('('), s, i + 1, t, j + 1);
      if HasAt(Is('('), s, i + 1) {
        SameStop(StopParen(al), s, i + 2, t, j + 2);
        SameStart(Is(')'), s, First(StopParen(al), s, i + 2), t, First(StopParen(al), t, j + 2));
      }
    }
  }

  /** The autolink after its scheme. */
  function AutolinkTail(al: Alphabet, s: string, cursor: nat): (r: Option<nat>)
    requires cursor <= |s|
    ensures r.Some? ==> r.value <= |s|
  {
    if !HasAt(Is(':'), s, cursor) then None
    else
      var stop := First(StopAngle(al), s, cursor + 1);
      if HasAt(Is('>'), s, stop) then Some(stop + 1) else None
  }

  lemma AutolinkSplit(al: Alphabet, s: string, i: nat)
    requires i <= |s|
    ensures AutolinkEnd(al, s, i)
            == if !HasAt(Is('<'), s, i) || !HasAt(IsSchemeStart, s, i + 1) then None
               else AutolinkTail(al, s, First(Not(IsSchemeChar), s, i + 2))
  {
    hide First, IsSchemeStart, IsSchemeChar;
  }

  lemma {:induction false} SameTail(al: Alphabet, s: string, i: nat, t: string, j: nat)
    requires al.Lawful() && i <= |s| && j <= |t| && Inserted(s, i, t, j)
    ensures AutolinkTail(al, s, i).Some? == AutolinkTail(al, t, j).Some?
    ensures AutolinkTail(al, s, i).Some? ==> Inserted(s, AutolinkTail(al, s, i).value, t, AutolinkTail(al, t, j).value)
  {
    BlindClasses(al);
    hide First, Inserted, Blind;
    SameStart(Is(':'), s, i, t, j);
    if HasAt(Is(':'), s, i) {
      SameStop(StopAngle(al), s, i + 1, t, j + 1);
      SameStart(Is('>'), s, First(StopAngle(al), s, i + 1), t, First(StopAngle(al), t, j + 1));
    }
  }

  lemma {:induction false} SameAutolink(al: Alphabet, s: string, i: nat, t: string, j: nat)
    requires al.Lawful() && i <= |s| && j <= |t| && Inserted(s, i, t, j)
    ensures AutolinkEnd(al, s, i).Some? == AutolinkEnd(al, t, j).Some?
    ensures AutolinkEnd(al, s, i).Some? ==> Inserted(s, AutolinkEnd(al, s, i).value, t, AutolinkEnd(al, t, j).value)
  {
    hide *;
    BlindClasses(al);
    AutolinkSplit(al, s, i);
    AutolinkSplit(al, t, j);
    SameStart(Is('<'), s, i, t, j);
    if HasAt(Is('<'), s, i) {
      SameStart(IsSchemeStart, s, i + 1, t, j + 1);
      if HasAt(IsSchemeStart, s, i + 1) {
        SameScheme(s, i + 2, t, j + 2);
        SameTail(al, s, First(Not(IsSchemeChar), s, i + 2), t, First(Not(IsSchemeChar), t, j + 2));
      }
    }
  }

  lemma BlindClasses(al: Alphabet)
    requires al.Lawful()
    ensures Blind(Is('<')) && Blind(Is(':')) && Blind(Is('>')) && Blind(IsSchemeStart) && Blind(StopAngle(al))
  {
  }

  /** Scheme characters are copied one to one, and end at the same place. */
  lemma {:induction false} SameScheme(s: string, i: nat, t: string, j: nat)
    requires i <= |s| && j <= |t| && Inserted(s, i, t, j)
    ensures Inserted(s, First(Not(IsSchemeChar), s, i), t, First(Not(IsSchemeChar), t, j))
    decreases |s| - i
  {
    SameStart(IsSchemeChar, s, i, t, j);
    if HasAt(IsSchemeChar, s, i) {
      SameScheme(s, i + 1, t, j + 1);
    }
  }

  lemma {:induction false} SameHttp(s: string, i: nat, t: string, j: nat)
    requires i <= |s| && j <= |t| && Inserted(s, i, t, j)
    ensures SchemeEnd(s, i).Some? == SchemeEnd(t, j).Some?
    ensures SchemeEnd(s, i).Some? ==> Inserted(s, SchemeEnd(s, i).value, t, SchemeEnd(t, j).value)
  {
    hide FoldsTo;
    FoldsBlind();
    SameStart(Folds('h'), s, i, t, j);
    if HasAt(Folds('h'), s, i) {
      SameStart(Folds('t'), s, i + 1, t, j + 1);
      if HasAt(Folds('t'), s, i + 1) {
        SameStart(Folds('t'), s, i + 2, t, j + 2);
        if HasAt(Folds('t'), s, i + 2) {
          SameStart(Folds('p'), s, i + 3, t, j + 3);
          if HasAt(Folds('p'), s, i + 3) {
            SameStart(Folds('s'), s, i + 4, t, j + 4);
            if HasAt(Folds('s'), s, i + 4) {
              SameSlashes(s, i + 5, t, j + 5);
            } else {
              SameSlashes(s, i + 4, t, j + 4);
            }
          }
        }
      }
    }
  }

  lemma FoldsBlind()
    ensures Blind(Folds('h')) && Blind(Folds('t')) && Blind(Folds('p')) && Blind(Folds('s'))
  {
  }

  lemma {:induction false} SameSlashes(s: string, i: nat, t: string, j: nat)
    requires i <= |s| && j <= |t| && Inserted(s, i, t, j)
    ensures SlashesAt(s, i) == SlashesAt(t, j)
    ensures SlashesAt(s, i) ==> Inserted(s, i + 3, t, j + 3)
  {
    SameStart(Is(':'), s, i, t, j);
    if HasAt(Is(':'), s, i) {
      SameStart(Is('/'), s, i + 1, t, j + 1);
      if HasAt(Is('/'), s, i + 1) {
        SameStart(Is('/'), s, i + 2, t, j + 2);
      }
    }
  }

  lemma {:induction false} SameUrl(al: Alphabet, s: string, i: nat, t: string, j: nat)
    requires al.Lawful() && i <= |s| && j <= |t| && Inserted(s, i, t, j)
    requires HasAt(IsWordChar, s, i - 1) == HasAt(IsWordChar, t, j - 1)
    ensures UrlEnd(al, s, i).Some? == UrlEnd(al, t, j).Some?
    ensures UrlEnd(al, s, i).Some? ==> Inserted(s, UrlEnd(al, s, i).value, t, UrlEnd(al, t, j).value)
  {
    hide First, SchemeEnd, FoldsTo;
    FoldsBlind();
    SameStart(Folds('h'), s, i, t, j);
    SameHttp(s, i, t, j);
    if SchemeEnd(s, i).Some? {
      SameStop(al.isSpace, s, SchemeEnd(s, i).value, t, SchemeEnd(t, j).value);
    }
  }

  /** Insertions leave every decision of the scanner as it was, wherever the range they may stretch. */
  lemma {:induction false} SameInline(al: Alphabet, s: string, i: nat, t: string, j: nat)
    requires al.Lawful() && i <= |s| && j <= |t| && Inserted(s, i, t, j)
    requires HasAt(IsWordChar, s, i - 1) == HasAt(IsWordChar, t, j - 1)
    ensures InlineEnd(al, s, i).Some? == InlineEnd(al, t, j).Some?
    ensures InlineEnd(al, s, i).Some? ==> Inserted(s, InlineEnd(al, s, i).value, t, InlineEnd(al, t, j).value)
  {
    hide CodeEnd, AutolinkEnd, LinkEnd, UrlEnd, Inserted;
    SameCode(s, i, t, j);
    SameAutolink(al, s, i, t, j);
    SameLink(al, s, i, t, j);
    SameUrl(al, s, i, t, j);
    SameStart(Is('`'), s, i, t, j);
    SameStart(Is('<'), s, i, t, j);
    SameStart(Is(']'), s, i, t, j);
  }
}
