/** What ordering by local offset keeps: the entries themselves, and any offset-preserving completion of them. */
module ZipSorting {
  import opened ZipFormat
  import opened ZipInspect

  predicate Ascending(es: seq<ZipEntry>) {
    forall i, j | 0 <= i < j < |es| :: es[i].localOffset <= es[j].localOffset
  }

  predicate StrictlyAscending(es: seq<ZipEntry>) {
    forall i, j | 0 <= i < j < |es| :: es[i].localOffset < es[j].localOffset
  }

  lemma {:induction false} InsertKeeps(e: ZipEntry, s: seq<ZipEntry>)
    ensures multiset(Insert(e, s)) == multiset{e} + multiset(s)
  {
    if !(s == [] || e.localOffset <= s[0].localOffset) {
      InsertKeeps(e, s[1..]);
      assert s == [s[0]] + s[1..];
    }
  }

  lemma {:induction false} InsertAscends(e: ZipEntry, s: seq<ZipEntry>)
    requires Ascending(s)
    ensures Ascending(Insert(e, s)) && Insert(e, s)[0] == if s == [] || e.localOffset <= s[0].localOffset then e
            else s[0]
  {
    if !(s == [] || e.localOffset <= s[0].localOffset) {
      InsertAscends(e, s[1..]);
    }
  }

  /** The local order holds the same entries. */
  lemma {:induction false} SortPermutes(es: seq<ZipEntry>)
    ensures multiset(SortByOffset(es)) == multiset(es)
  {
    if es != [] {
      SortPermutes(es[1..]);
      InsertKeeps(es[0], SortByOffset(es[1..]));
      assert es == [es[0]] + es[1..];
    }
  }

  /** The local order is ascending. */
  lemma {:induction false} SortAscends(es: seq<ZipEntry>)
    ensures Ascending(SortByOffset(es))
  {
    if es != [] {
      SortAscends(es[1..]);
      InsertAscends(es[0], SortByOffset(es[1..]));
    }
  }

  lemma SortMembers(es: seq<ZipEntry>)
    ensures forall e :: e in SortByOffset(es) <==> e in es
  {
    SortPermutes(es);
    forall e ensures e in SortByOffset(es) <==> e in es {
      assert e in multiset(SortByOffset(es)) <==> e in multiset(es);
    }
  }

  ghost predicate KeepsOffset(f: ZipEntry -> ZipEntry) {
    forall e :: f(e).localOffset == e.localOffset
  }

  lemma {:induction false} InsertMapped(f: ZipEntry -> ZipEntry, e: ZipEntry, s: seq<ZipEntry>)
    requires KeepsOffset(f)
    ensures Insert(f(e), MapEntries(f, s)) == MapEntries(f, Insert(e, s))
  {
    if s == [] || e.localOffset <= s[0].localOffset {
      assert [f(e)] + MapEntries(f, s) == MapEntries(f, [e] + s);
    } else {
      InsertMapped(f, e, s[1..]);
      assert MapEntries(f, s)[1..] == MapEntries(f, s[1..]);
      assert MapEntries(f, [s[0]] + Insert(e, s[1..])) == [f(s[0])] + MapEntries(f, Insert(e, s[1..]));
    }
  }

  /** Completing the entries before or after ordering them makes no difference. */
  lemma {:induction false} SortMapped(f: ZipEntry -> ZipEntry, es: seq<ZipEntry>)
    requires KeepsOffset(f)
    ensures SortByOffset(MapEntries(f, es)) == MapEntries(f, SortByOffset(es))
  {
    if es == [] {
      assert MapEntries(f, es) == [];
    } else {
      SortMapped(f, es[1..]);
      assert MapEntries(f, es)[1..] == MapEntries(f, es[1..]);
      InsertMapped(f, es[0], SortByOffset(es[1..]));
    }
  }

  /** An ascending sequence with no repeated offset is the only ordering of its entries. */
  lemma {:induction false} SortUnique(es: seq<ZipEntry>, s: seq<ZipEntry>)
    requires StrictlyAscending(s) && multiset(es) == multiset(s)
    ensures SortByOffset(es) == s
  {
    SortPermutes(es);
    SortAscends(es);
    AscendingUnique(SortByOffset(es), s);
  }

  lemma {:induction false} AscendingUnique(r: seq<ZipEntry>, s: seq<ZipEntry>)
    requires Ascending(r) && StrictlyAscending(s) && multiset(r) == multiset(s)
    ensures r == s
  {
    assert |r| == |multiset(r)| == |multiset(s)| == |s|;
    if s != [] {
      FirstAgrees(r, s);
      WithoutFirst(r);
      WithoutFirst(s);
      AscendingUnique(r[1..], s[1..]);
    }
  }

  lemma WithoutFirst<T>(s: seq<T>)
    requires s != []
    ensures multiset(s[1..]) == multiset(s) - multiset{s[0]}
  {
    assert s == [s[0]] + s[1..];
  }

  lemma FirstAgrees(r: seq<ZipEntry>, s: seq<ZipEntry>)
    requires |r| == |s| > 0 && Ascending(r) && StrictlyAscending(s) && multiset(r) == multiset(s)
    ensures r[0] == s[0]
  {
    assert s[0] in multiset(r) && r[0] in multiset(s);
    var i :| 0 <= i < |r| && r[i] == s[0];
    var j :| 0 <= j < |s| && s[j] == r[0];
    assert s[j].localOffset == r[0].localOffset <= r[i].localOffset == s[0].localOffset;
  }

  /** Distinct names stay distinct in local order. */
  lemma SortNames(es: seq<ZipEntry>)
    requires NoDuplicates(Names(es))
    ensures NoDuplicates(Names(SortByOffset(es)))
  {
    hide SortByOffset;
    SortPermutes(es);
    var s := SortByOffset(es);
    forall i, j | 0 <= i < j < |s| ensures s[i].name != s[j].name {
      if s[i].name == s[j].name {
        SameNameSameEntry(es, s[i], s[j]);
        Twice(s, i, j);
        OnceEach(es, s[i]);
      }
    }
  }

  lemma Twice<T>(s: seq<T>, i: nat, j: nat)
    requires i < j < |s| && s[i] == s[j]
    ensures multiset(s)[s[i]] >= 2
  {
    assert s == s[..i] + [s[i]] + s[i + 1..j] + [s[j]] + s[j + 1..];
  }

  lemma SameNameSameEntry(es: seq<ZipEntry>, a: ZipEntry, b: ZipEntry)
    requires NoDuplicates(Names(es)) && a in multiset(es) && b in multiset(es) && a.name == b.name
    ensures a == b
  {
    var i :| 0 <= i < |es| && es[i] == a;
    var j :| 0 <= j < |es| && es[j] == b;
    assert Names(es)[i] == Names(es)[j];
  }

  lemma {:induction false} OnceEach(es: seq<ZipEntry>, e: ZipEntry)
    requires NoDuplicates(Names(es))
    ensures multiset(es)[e] <= 1
  {
    if es != [] {
      assert forall k | 0 <= k < |es| - 1 :: Names(es[1..])[k] == Names(es)[k + 1];
      OnceEach(es[1..], e);
      assert es == [es[0]] + es[1..];
      forall k | 0 <= k < |es| - 1 ensures es[1..][k] != es[0] {
        assert Names(es)[0] != Names(es)[k + 1];
      }
      assert es[0] !in multiset(es[1..]);
    }
  }
}
