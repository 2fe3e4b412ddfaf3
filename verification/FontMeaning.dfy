/** What it means for a header to have no font issues, or only issues that the repair can deal with. */
module FontMeaning {
  import opened Basics
  import opened FontIntegrity

  /** All identifiers are numerals, and no two are equal. */
  ghost predicate DistinctIds(a: Attributes, nodes: Elements) {
    && (forall i | 0 <= i < |nodes| :: NonNegativeInteger(IdOf(a, nodes[i])))
    && (forall i, j | 0 <= i < j < |nodes| :: IdOf(a, nodes[i]) != IdOf(a, nodes[j]))
  }

  ghost predicate Faced(a: Attributes, font: Node)
    requires font.Element?
  {
    GetAttribute(a, font, "face").Some? && !Blank(GetAttribute(a, font, "face").value)
  }

  ghost predicate Named(a: Attributes, nodes: Elements) {
    forall i | 0 <= i < |nodes| :: Faced(a, nodes[i])
  }

  /** `id` names one of `nodes`. */
  ghost predicate Names(a: Attributes, nodes: Elements, id: string) {
    exists i :: 0 <= i < |nodes| && IdOf(a, nodes[i]) == id
  }

  /** Exactly one font group for the language, counted right, with named fonts under distinct numbers from "0" on. */
  ghost predicate SoundGroup(a: Attributes, fontfaces: Elements, language: string) {
    && |Group(a, fontfaces, language)| == 1
    && GetAttribute(a, Group(a, fontfaces, language)[0], "fontCnt") == Some(Decimal(|Fonts(a, fontfaces, language)|))
    && DistinctIds(a, Fonts(a, fontfaces, language))
    && Named(a, Fonts(a, fontfaces, language))
    && Names(a, Fonts(a, fontfaces, language), "0")
  }

  ghost predicate SoundTable(root: Option<Node>, a: Attributes) {
    && IsHeader(root)
    && |Containers(root)| == 1
    && GetAttribute(a, Containers(root)[0], "itemCnt") == Some(Decimal(|Fontfaces(root)|))
    && forall k | 0 <= k < |SCRIPTS| :: SoundGroup(a, Fontfaces(root), SCRIPTS[k].1)
  }

  function FontRefs(charPr: Node): Elements
    requires charPr.Element?
  {
    HeaderChildren(charPr, "fontRef")
  }

  /** Reference `k` of a `fontRef` is there, and is a numeral. */
  ghost predicate Numeral(a: Attributes, fontRef: Node, k: nat)
    requires fontRef.Element? && k < |SCRIPTS|
  {
    GetAttribute(a, fontRef, SCRIPTS[k].0).Some? && NonNegativeInteger(GetAttribute(a, fontRef, SCRIPTS[k].0).value)
  }

  ghost predicate FullRef(a: Attributes, fontRef: Node, scripts: nat)
    requires fontRef.Element? && scripts <= |SCRIPTS|
  {
    forall k | 0 <= k < scripts :: Numeral(a, fontRef, k)
  }

  /** Reference `k` is there and not reported as dangling. */
  ghost predicate Fine(a: Attributes, fontfaces: Elements, fontRef: Node, k: nat)
    requires fontRef.Element? && k < |SCRIPTS|
  {
    && GetAttribute(a, fontRef, SCRIPTS[k].0).Some?
    && !Dangling(a, fontfaces, SCRIPTS[k].1, GetAttribute(a, fontRef, SCRIPTS[k].0).value)
  }

  ghost predicate SoundChars(a: Attributes, charPrs: Elements) {
    && DistinctIds(a, charPrs)
    && forall i | 0 <= i < |charPrs| ::
         |FontRefs(charPrs[i])| == 1 && FullRef(a, FontRefs(charPrs[i])[0], |SCRIPTS|)
  }

  /** Reference `k` of a `fontRef` names a font of its group. */
  ghost predicate Resolves(a: Attributes, fontfaces: Elements, fontRef: Node, k: nat)
    requires fontRef.Element? && k < |SCRIPTS|
  {
    && GetAttribute(a, fontRef, SCRIPTS[k].0).Some?
    && Names(a, Fonts(a, fontfaces, SCRIPTS[k].1), GetAttribute(a, fontRef, SCRIPTS[k].0).value)
  }

  ghost predicate AllResolve(a: Attributes, fontfaces: Elements, charPrs: Elements)
    requires forall i | 0 <= i < |charPrs| :: |FontRefs(charPrs[i])| == 1
  {
    forall i, k | 0 <= i < |charPrs| && 0 <= k < |SCRIPTS| :: Resolves(a, fontfaces, FontRefs(charPrs[i])[0], k)
  }

  // ---------------------------------------------------------------- lists of issues

  ghost predicate AllRepairable(issues: seq<Issue>) {
    forall i | 0 <= i < |issues| :: Repairable(issues[i])
  }

  ghost predicate NoneRepairable(issues: seq<Issue>) {
    forall i | 0 <= i < |issues| :: !Repairable(issues[i])
  }

  lemma {:induction false} RepairableSum(x: seq<Issue>, y: seq<Issue>)
    ensures AllRepairable(x + y) <==> AllRepairable(x) && AllRepairable(y)
    ensures NoneRepairable(x + y) <==> NoneRepairable(x) && NoneRepairable(y)
    ensures NoneRepairable(x) ==> (AllRepairable(x) <==> x == [])
  {
    hide Repairable;
    if x != [] {
      assert Repairable(x[0]) || !Repairable(x[0]);
    }
    forall i | 0 <= i < |x| ensures (x + y)[i] == x[i] {}
    forall i | 0 <= i < |y| ensures (x + y)[|x| + i] == y[i] {}
  }

  lemma {:induction false} InIds(a: Attributes, nodes: Elements, id: string)
    ensures id in Ids(a, nodes) <==> NonNegativeInteger(id) && Names(a, nodes, id)
  {
  }

  lemma {:induction false} OneFontMeans(a: Attributes, font: Node, ids: set<string>)
    requires font.Element?
    ensures NoneRepairable(OneFont(a, font, ids))
    ensures OneFont(a, font, ids) == [] <==>
            NonNegativeInteger(IdOf(a, font)) && IdOf(a, font) !in ids && Faced(a, font)
  {
    hide NonNegativeInteger, Blank;
  }

  lemma {:induction false} DistinctIdsStep(a: Attributes, nodes: Elements)
    requires nodes != []
    ensures var k := |nodes| - 1;
            DistinctIds(a, nodes) <==>
            DistinctIds(a, nodes[..k]) && NonNegativeInteger(IdOf(a, nodes[k]))
              && IdOf(a, nodes[k]) !in Ids(a, nodes[..k])
  {
    hide Ids, NonNegativeInteger;
    InIds(a, nodes[..|nodes| - 1], IdOf(a, nodes[|nodes| - 1]));
  }

  /** The font part of an inspection reports nothing exactly for distinct numbers and named fonts. */
  lemma {:induction false} FontIssuesMean(a: Attributes, fonts: Elements)
    ensures NoneRepairable(FontIssues(a, fonts))
    ensures FontIssues(a, fonts) == [] <==> DistinctIds(a, fonts) && Named(a, fonts)
  {
    hide Ids, NonNegativeInteger, OneFont, DistinctIds, NoneRepairable, Faced;
    if fonts == [] {
      NothingRepairable();
      NoIdsAreDistinct(a);
    } else {
      var k := |fonts| - 1;
      FontIssuesMean(a, fonts[..k]);
      OneFontMeans(a, fonts[k], Ids(a, fonts[..k]));
      DistinctIdsStep(a, fonts);
      RepairableSum(FontIssues(a, fonts[..k]), OneFont(a, fonts[k], Ids(a, fonts[..k])));
    }
  }

  lemma {:induction false} NoIdsAreDistinct(a: Attributes)
    ensures DistinctIds(a, [])
  {
  }

  lemma {:induction false} GroupIssuesMean(a: Attributes, fontfaces: Elements, language: string)
    ensures NoneRepairable(GroupIssues(a, fontfaces, language))
    ensures GroupIssues(a, fontfaces, language) == [] <==> SoundGroup(a, fontfaces, language)
  {
    hide Group, Ids, FontIssues, Matching, Decimal, DistinctIds, Named, Names;
    var fonts := Fonts(a, fontfaces, language);
    FontIssuesMean(a, fonts);
    ZeroIsNumeral();
    InIds(a, fonts, "0");
  }

  lemma ZeroIsNumeral()
    ensures NonNegativeInteger("0")
  {
  }

  lemma {:induction false} TableIssuesMean(a: Attributes, fontfaces: Elements, languages: nat)
    requires languages <= |SCRIPTS|
    ensures NoneRepairable(TableIssues(a, fontfaces, languages))
    ensures TableIssues(a, fontfaces, languages) == [] <==>
            forall k | 0 <= k < languages :: SoundGroup(a, fontfaces, SCRIPTS[k].1)
  {
    hide SoundGroup, GroupIssues, NoneRepairable;
    if languages == 0 {
      NothingRepairable();
    } else {
      TableIssuesMean(a, fontfaces, languages - 1);
      GroupIssuesMean(a, fontfaces, SCRIPTS[languages - 1].1);
      RepairableSum(TableIssues(a, fontfaces, languages - 1), GroupIssues(a, fontfaces, SCRIPTS[languages - 1].1));
    }
  }

  lemma NothingRepairable()
    ensures NoneRepairable([]) && AllRepairable([])
  {
  }

  /** The references of one `fontRef` are all repairable when they are numerals, and fine when they resolve. */
  lemma {:induction false} RefIssuesMean(a: Attributes, fontfaces: Elements, id: string, fontRef: Node, scripts: nat)
    requires fontRef.Element? && scripts <= |SCRIPTS| && NonNegativeInteger(id)
    ensures AllRepairable(RefIssues(a, fontfaces, id, fontRef, scripts)) <==> FullRef(a, fontRef, scripts)
    ensures RefIssues(a, fontfaces, id, fontRef, scripts) == [] <==>
            forall k | 0 <= k < scripts :: Fine(a, fontfaces, fontRef, k)
  {
    hide NonNegativeInteger, Fine, Numeral, AllRepairable, OneRef, NoneRepairable;
    if scripts == 0 {
      NothingRepairable();
    } else {
      var (script, language) := SCRIPTS[scripts - 1];
      RefIssuesMean(a, fontfaces, id, fontRef, scripts - 1);
      OneRefMeans(a, fontfaces, id, fontRef, scripts - 1);
      RepairableSum(RefIssues(a, fontfaces, id, fontRef, scripts - 1),
        OneRef(a, fontfaces, id, fontRef, script, language));
    }
  }

  lemma {:induction false} OneRefMeans(a: Attributes, fontfaces: Elements, id: string, fontRef: Node, k: nat)
    requires fontRef.Element? && NonNegativeInteger(id) && k < |SCRIPTS|
    ensures var issues := OneRef(a, fontfaces, id, fontRef, SCRIPTS[k].0, SCRIPTS[k].1);
            && (AllRepairable(issues) <==> Numeral(a, fontRef, k))
            && (issues == [] <==> Fine(a, fontfaces, fontRef, k))
  {
    hide Group, Ids, Fonts;
    forall issue ensures AllRepairable([issue]) <==> Repairable(issue) {
      assert [issue][0] == issue;
    }
  }

  /** One character property: its own issues, and those of its references. */
  ghost predicate SoundChar(a: Attributes, charPr: Node, seen: set<string>)
    requires charPr.Element?
  {
    && NonNegativeInteger(IdOf(a, charPr)) && IdOf(a, charPr) !in seen
    && |FontRefs(charPr)| == 1 && FullRef(a, FontRefs(charPr)[0], |SCRIPTS|)
  }

  lemma {:induction false} OneCharMeans(a: Attributes, fontfaces: Elements, charPr: Node, seen: set<string>)
    requires charPr.Element?
    ensures AllRepairable(OneChar(a, fontfaces, charPr, seen)) <==> SoundChar(a, charPr, seen)
    ensures OneChar(a, fontfaces, charPr, seen) == [] <==>
            SoundChar(a, charPr, seen) && forall k | 0 <= k < |SCRIPTS| :: Fine(a, fontfaces, FontRefs(charPr)[0], k)
    ensures SoundChar(a, charPr, seen) ==>
              OneChar(a, fontfaces, charPr, seen)
                == RefIssues(a, fontfaces, IdOf(a, charPr), FontRefs(charPr)[0], |SCRIPTS|)
  {
    hide NonNegativeInteger, Fine, FullRef, RefIssues, Matching;
    var id := IdOf(a, charPr);
    var fontRefs := FontRefs(charPr);
    var all := OneChar(a, fontfaces, charPr, seen);
    if !NonNegativeInteger(id) || id in seen {
      assert !Repairable(all[0]);
    } else if fontRefs == [] {
      assert !Repairable(all[0]);
    } else if |fontRefs| > 1 {
      assert !Repairable(all[0]);
    } else {
      assert all == RefIssues(a, fontfaces, id, fontRefs[0], |SCRIPTS|);
      RefIssuesMean(a, fontfaces, id, fontRefs[0], |SCRIPTS|);
      FineIsNumeral(a, fontfaces, fontRefs[0]);
    }
  }

  lemma {:induction false} FineIsNumeral(a: Attributes, fontfaces: Elements, fontRef: Node)
    requires fontRef.Element?
    ensures (forall k | 0 <= k < |SCRIPTS| :: Fine(a, fontfaces, fontRef, k)) ==> FullRef(a, fontRef, |SCRIPTS|)
  {
    hide NonNegativeInteger;
    if forall k | 0 <= k < |SCRIPTS| :: Fine(a, fontfaces, fontRef, k) {
      forall k | 0 <= k < |SCRIPTS| ensures Numeral(a, fontRef, k) {
        assert Fine(a, fontfaces, fontRef, k);
      }
    }
  }

  ghost predicate AllFine(a: Attributes, fontfaces: Elements, charPrs: Elements) {
    forall i | 0 <= i < |charPrs| && FontRefs(charPrs[i]) != [] ::
      forall k | 0 <= k < |SCRIPTS| :: Fine(a, fontfaces, FontRefs(charPrs[i])[0], k)
  }

  lemma {:induction false} SoundCharsStep(a: Attributes, charPrs: Elements)
    requires charPrs != []
    ensures var k := |charPrs| - 1;
            SoundChars(a, charPrs) <==>
            SoundChars(a, charPrs[..k]) && SoundChar(a, charPrs[k], Ids(a, charPrs[..k]))
  {
    hide FullRef, Matching, Ids, NonNegativeInteger;
    var k := |charPrs| - 1;
    InIds(a, charPrs[..k], IdOf(a, charPrs[k]));
  }

  lemma {:induction false} CharIssuesMean(a: Attributes, fontfaces: Elements, charPrs: Elements)
    ensures AllRepairable(CharIssues(a, fontfaces, charPrs)) <==> SoundChars(a, charPrs)
    ensures CharIssues(a, fontfaces, charPrs) == [] <==> SoundChars(a, charPrs) && AllFine(a, fontfaces, charPrs)
  {
    hide *;
    if charPrs == [] {
      NothingRepairable();
      NoChars(a, fontfaces);
    } else {
      var k := |charPrs| - 1;
      CharsTurn(a, fontfaces, charPrs);
      CharIssuesMean(a, fontfaces, charPrs[..k]);
      OneCharMeans(a, fontfaces, charPrs[k], Ids(a, charPrs[..k]));
      RepairableSum(CharIssues(a, fontfaces, charPrs[..k]), OneChar(a, fontfaces, charPrs[k], Ids(a, charPrs[..k])));
      SoundCharsStep(a, charPrs);
      OneRefEach(a, charPrs[k], Ids(a, charPrs[..k]));
    }
  }

  lemma {:induction false} OneRefEach(a: Attributes, charPr: Node, seen: set<string>)
    requires charPr.Element?
    ensures SoundChar(a, charPr, seen) ==> |FontRefs(charPr)| == 1
  {
  }

  lemma {:induction false} NoChars(a: Attributes, fontfaces: Elements)
    ensures SoundChars(a, []) && AllFine(a, fontfaces, []) && CharIssues(a, fontfaces, []) == []
  {
  }

  lemma {:induction false} CharsTurn(a: Attributes, fontfaces: Elements, charPrs: Elements)
    requires charPrs != []
    ensures var k := |charPrs| - 1;
            && CharIssues(a, fontfaces, charPrs)
               == CharIssues(a, fontfaces, charPrs[..k]) + OneChar(a, fontfaces, charPrs[k], Ids(a, charPrs[..k]))
            && (AllFine(a, fontfaces, charPrs) <==>
                AllFine(a, fontfaces, charPrs[..k]) &&
                (FontRefs(charPrs[k]) != [] ==> forall j | 0 <= j < |SCRIPTS| ::
                  Fine(a, fontfaces, FontRefs(charPrs[k])[0], j)))
  {
    hide OneChar, Ids, Matching, Fine;
  }

  /** Reading the table and the references together: what a fine reference is when its group is sound. */
  lemma {:induction false} FineResolves(a: Attributes, fontfaces: Elements, fontRef: Node, k: nat)
    requires fontRef.Element? && k < |SCRIPTS| && SoundGroup(a, fontfaces, SCRIPTS[k].1)
    ensures Fine(a, fontfaces, fontRef, k) <==> Numeral(a, fontRef, k) && Resolves(a, fontfaces, fontRef, k)
  {
    hide Group, Ids, Names, DistinctIds, FontIntegrity.Fonts, NonNegativeInteger;
    var f := GetAttribute(a, fontRef, SCRIPTS[k].0);
    if f.Some? {
      InIds(a, Fonts(a, fontfaces, SCRIPTS[k].1), f.value);
    }
  }

  /** Everything but the resolution of the references is in order. */
  ghost predicate Sound(root: Option<Node>, a: Attributes) {
    SoundTable(root, a) && SoundChars(a, CharPrs(root))
  }

  /** Exactly the headers with a sound table and full references have nothing but repairable issues. */
  lemma {:induction false} RepairableMeans(root: Option<Node>, a: Attributes)
    ensures AllRepairable(Issues(root, a)) <==> Sound(root, a)
    ensures Sound(root, a) ==> Issues(root, a) == CharIssues(a, Fontfaces(root), CharPrs(root))
  {
    hide TableIssues, CharIssues, SoundGroup, SoundChars, Decimal, Matching;
    var issues := Issues(root, a);
    if IsHeader(root) && Containers(root) != [] {
      TableIssuesMean(a, Fontfaces(root), |SCRIPTS|);
      CharIssuesMean(a, Fontfaces(root), CharPrs(root));
      var counts := Reported(|Containers(root)| != 1, HeaderIssue(FontfaceCountMismatch))
        + Reported(GetAttribute(a, Containers(root)[0], "itemCnt") != Some(Decimal(|Fontfaces(root)|)),
                   HeaderIssue(FontfaceCountMismatch));
      var table, chars := TableIssues(a, Fontfaces(root), |SCRIPTS|), CharIssues(a, Fontfaces(root), CharPrs(root));
      assert issues == counts + table + chars;
      RepairableSum(counts + table, chars);
      RepairableSum(counts, table);
      RepairableSum(counts, []);
    } else {
      assert !Repairable(issues[0]);
    }
  }

  /** Exactly the headers that are sound and whose references all resolve have no issue. */
  lemma {:induction false} NoIssuesMean(root: Option<Node>, a: Attributes)
    ensures Issues(root, a) == [] <==>
            Sound(root, a) && AllResolve(a, Fontfaces(root), CharPrs(root))
  {
    hide CharIssues, Matching, Decimal, Fine, SoundGroup, Resolves, Numeral, TableIssues;
    RepairableMeans(root, a);
    NothingRepairable();
    if Sound(root, a) {
      CharIssuesMean(a, Fontfaces(root), CharPrs(root));
      forall i, k | 0 <= i < |CharPrs(root)| && 0 <= k < |SCRIPTS|
        ensures Fine(a, Fontfaces(root), FontRefs(CharPrs(root)[i])[0], k) <==>
                Resolves(a, Fontfaces(root), FontRefs(CharPrs(root)[i])[0], k)
      {
        FineResolves(a, Fontfaces(root), FontRefs(CharPrs(root)[i])[0], k);
        assert Numeral(a, FontRefs(CharPrs(root)[i])[0], k);
      }
    }
  }

  // ---------------------------------------------------------------- numerals

  lemma LastDigit(n: nat)
    ensures IsDigit(('0' as int + n % 10) as char)
    ensures 1 <= n < 10 ==> '1' <= ('0' as int + n % 10) as char
  {
  }

  lemma {:induction false} DecimalIsNumeral(n: nat)
    ensures Decimal(n) != "" && NonNegativeInteger(Decimal(n)) && (n > 0 ==> Decimal(n)[0] != '0')
  {
    LastDigit(n);
    if n >= 10 {
      DecimalIsNumeral(n / 10);
      assert Decimal(n)[0] == Decimal(n / 10)[0];
    }
  }

  /** The numerals that the inspection accepts are exactly the decimal representations of the natural numbers. */
  lemma {:induction false} NumeralIsDecimal(s: string) returns (n: nat)
    requires NonNegativeInteger(s)
    ensures Decimal(n) == s
    decreases |s|
  {
    var k := |s| - 1;
    assert IsDigit(s[k]);
    var digit := s[k] as int - '0' as int;
    if k == 0 {
      n := digit;
      assert s == [s[0]];
    } else {
      var m := NumeralIsDecimal(s[..k]);
      assert Decimal(m)[0] == s[0];
      n := 10 * m + digit;
      assert n / 10 == m && n % 10 == digit;
      assert s == s[..k] + [s[k]];
    }
  }
}
