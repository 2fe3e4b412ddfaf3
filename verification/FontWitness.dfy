/**
 A header whose only issue is one dangling reference, in a document whose body refers to a character
 property that the header does not define: its references are repaired, and it is refused all the same.
 */
module FontWitness {
  import opened Basics
  import opened Texts
  import opened FontIntegrity
  import opened FontMeaning
  import opened FontRepair
  import opened FontNormalization

  function Font(k: nat): Node {
    Element(20 + k, "font", true, [])
  }

  function Face(k: nat): Node {
    Element(10 + k, "fontface", true, [Font(k)])
  }

  function Faces(): (r: Elements)
    ensures |r| == |SCRIPTS| && forall k | 0 <= k < |SCRIPTS| :: r[k] == Face(k)
  {
    seq(|SCRIPTS|, k requires 0 <= k < |SCRIPTS| => Face(k))
  }

  const REF: Node := Element(5, "fontRef", true, [])
  const PROPERTY: Node := Element(4, "charPr", true, [REF])
  const TABLES: Node := Element(2, "fontfaces", true, Faces())
  const PROPERTIES: Node := Element(3, "charProperties", true, [PROPERTY])
  const LIST: Node := Element(1, "refList", true, [TABLES, PROPERTIES])
  const HEAD: Node := Element(0, "head", true, [LIST])

  /** One font "0" in each group; the one property refers to "0" everywhere but in its first script. */
  function AttributesOf(key: nat): map<string, string> {
    if key == 2 then map["itemCnt" := "7"]
    else if key == 4 then map["id" := "0"]
    else if key == 5 then
      map["hangul" := "5", "latin" := "0", "hanja" := "0", "japanese" := "0", "other" := "0", "symbol" := "0",
        "user" := "0"]
    else if 10 <= key < 10 + |SCRIPTS| then map["lang" := SCRIPTS[key - 10].1, "fontCnt" := "1"]
    else if 20 <= key < 20 + |SCRIPTS| then map["id" := "0", "face" := "A"]
    else map[]
  }

  function Given(): Attributes {
    map key: nat | key < 30 :: AttributesOf(key)
  }

  const BODY: seq<Section> := [Section("Contents/section0.xml", ["7"])]

  // The keys

  function PathOf(key: nat): seq<nat> {
    if key == 0 then []
    else if key == 1 then [0]
    else if key == 2 then [0, 0]
    else if key == 3 then [0, 1]
    else if key == 4 then [0, 1, 0]
    else if key == 5 then [0, 1, 0, 0]
    else if key < 20 then [0, 0, if key >= 10 then key - 10 else 0]
    else [0, 0, key - 20, 0]
  }

  lemma AtLeaf(n: Node, p: seq<nat>)
    requires n.Element? && n.children == [] && IsElementAt(n, p)
    ensures p == []
  {
  }

  lemma FaceKeys(k: nat, p: seq<nat>)
    requires IsElementAt(Face(k), p)
    ensures (p == [] && At(Face(k), p).value.key == 10 + k) || (p == [0] && At(Face(k), p).value.key == 20 + k)
  {
    if p != [] {
      AtLeaf(Font(k), p[1..]);
      assert p == [p[0]] + p[1..];
    }
  }

  lemma TableKeys(p: seq<nat>)
    requires IsElementAt(TABLES, p)
    ensures [0, 0] + p == PathOf(At(TABLES, p).value.key)
  {
    if p != [] {
      assert TABLES.children[p[0]] == Face(p[0]);
      FaceKeys(p[0], p[1..]);
      assert p == [p[0]] + p[1..];
    }
  }

  lemma PropertyKeys(p: seq<nat>)
    requires IsElementAt(PROPERTIES, p)
    ensures [0, 1] + p == PathOf(At(PROPERTIES, p).value.key)
  {
    if p != [] {
      assert p == [p[0]] + p[1..];
      if p[1..] != [] {
        AtLeaf(REF, p[1..][1..]);
        assert p[1..] == [p[1]] + p[1..][1..];
      }
    }
  }

  lemma HeadKeys(p: seq<nat>)
    requires IsElementAt(HEAD, p)
    ensures p == PathOf(At(HEAD, p).value.key)
  {
    if p != [] {
      var q := p[1..];
      assert p == [0] + q && At(HEAD, p) == At(LIST, q);
      if q != [] {
        assert q == [q[0]] + q[1..];
        if q[0] == 0 {
          TableKeys(q[1..]);
          assert p == [0, 0] + q[1..];
        } else {
          PropertyKeys(q[1..]);
          assert p == [0, 1] + q[1..];
        }
      }
    }
  }

  lemma KeysAreOwn()
    ensures OwnKeys(HEAD)
  {
    hide At, PathOf;
    forall p, q | IsElementAt(HEAD, p) && IsElementAt(HEAD, q) && At(HEAD, p).value.key == At(HEAD, q).value.key
      ensures p == q
    {
      HeadKeys(p);
      HeadKeys(q);
    }
  }

  // What an inspection reads

  lemma {:induction false} AllMatching(nodes: seq<Node>, local: string)
    requires forall i | 0 <= i < |nodes| :: IsHeaderChild(nodes[i], local)
    ensures Matching(nodes, local) == nodes
    decreases |nodes|
  {
    if nodes != [] {
      AllMatching(nodes[..|nodes| - 1], local);
    }
  }

  lemma PairMatching(a: Node, b: Node, local: string)
    requires IsHeaderChild(a, local) != IsHeaderChild(b, local)
    ensures Matching([a, b], local) == if IsHeaderChild(a, local) then [a] else [b]
  {
    assert [a, b][..1] == [a] && [a][..0] == [];
    assert Matching([a], local) == Matching([], local) + if IsHeaderChild(a, local) then [a] else [];
    assert Matching([a, b], local) == Matching([a], local) + if IsHeaderChild(b, local) then [b] else [];
  }

  lemma WhatIsRead()
    ensures IsHeader(Some(HEAD)) && Containers(Some(HEAD)) == [TABLES] && Fontfaces(Some(HEAD)) == Faces()
    ensures CharPrs(Some(HEAD)) == [PROPERTY] && FontRefs(PROPERTY) == [REF]
  {
    hide Matching;
    AllMatching([LIST], "refList");
    PairMatching(TABLES, PROPERTIES, "fontfaces");
    PairMatching(TABLES, PROPERTIES, "charProperties");
    AllMatching(Faces(), "fontface");
    AllMatching([PROPERTY], "charPr");
    AllMatching([REF], "fontRef");
  }

  lemma {:induction false} OneGroup(k: nat, n: nat)
    requires k < |SCRIPTS| && n <= |SCRIPTS|
    ensures Group(Given(), Faces()[..n], SCRIPTS[k].1) == if k < n then [Face(k)] else []
    decreases n
  {
    if n > 0 {
      assert Faces()[..n][..n - 1] == Faces()[..n - 1] && Faces()[..n][n - 1] == Face(n - 1);
      OneGroup(k, n - 1);
      FaceLanguage(n - 1);
      if k < n - 1 {
        ScriptsDiffer(k, n - 1);
      } else if k > n - 1 {
        ScriptsDiffer(n - 1, k);
      }
    }
  }

  lemma FaceLanguage(k: nat)
    requires k < |SCRIPTS|
    ensures GetAttribute(Given(), Face(k), "lang") == Some(SCRIPTS[k].1)
    ensures GetAttribute(Given(), Face(k), "fontCnt") == Some("1")
    ensures GetAttribute(Given(), Font(k), "id") == Some("0") && GetAttribute(Given(), Font(k), "face") == Some("A")
  {
  }

  lemma GroupRead(k: nat)
    requires k < |SCRIPTS|
    ensures Group(Given(), Faces(), SCRIPTS[k].1) == [Face(k)] && Fonts(Given(), Faces(), SCRIPTS[k].1) == [Font(k)]
  {
    hide Group, Matching, Given;
    OneGroup(k, |SCRIPTS|);
    assert Faces()[..|SCRIPTS|] == Faces();
    AllMatching([Font(k)], "font");
  }

  lemma GroupIsSound(k: nat)
    requires k < |SCRIPTS|
    ensures SoundGroup(Given(), Faces(), SCRIPTS[k].1)
    ensures !Names(Given(), Fonts(Given(), Faces(), SCRIPTS[k].1), "5")
  {
    hide Group, Fonts, Given;
    GroupRead(k);
    FaceLanguage(k);
    assert Decimal(1) == "1";
    var fonts := Fonts(Given(), Faces(), SCRIPTS[k].1);
    assert IdOf(Given(), fonts[0]) == "0" && fonts == [Font(k)];
    assert "A"[0] == 'A' && !IsSpace('A') && Faced(Given(), fonts[0]);
  }

  lemma PropertyRead(k: nat)
    requires k < |SCRIPTS|
    ensures GetAttribute(Given(), REF, SCRIPTS[k].0) == Some(if k == 0 then "5" else "0")
            && IdOf(Given(), PROPERTY) == "0"
    ensures GetAttribute(Given(), TABLES, "itemCnt") == Some("7")
  {
    if k > 0 {
      ScriptsDiffer(0, k);
    }
  }

  lemma HeaderIsSound()
    ensures Sound(Some(HEAD), Given())
  {
    hide Group, Fonts, Matching, Given, SoundGroup, Containers, Fontfaces, CharPrs;
    WhatIsRead();
    PropertyRead(0);
    assert Decimal(7) == "7";
    forall k | 0 <= k < |SCRIPTS| ensures SoundGroup(Given(), Fontfaces(Some(HEAD)), SCRIPTS[k].1) {
      GroupIsSound(k);
    }
    forall k | 0 <= k < |SCRIPTS| ensures Numeral(Given(), REF, k) {
      PropertyRead(k);
    }
  }

  /** With repairable issues only, the header is repaired; the body still refers to a property that is not there. */
  lemma RepairedButRefused()
    ensures OwnKeys(HEAD) && AllRepairable(Issues(Some(HEAD), Given())) && Issues(Some(HEAD), Given()) != []
    ensures BodyIssues(Ids(Given(), CharPrs(Some(HEAD))), BODY) != []
  {
    hide Group, Fonts, Matching, Given, Sound, Issues, BodyIssues, Containers, Fontfaces, CharPrs, OwnKeys,
      AllRepairable;
    hide Ids, Names;
    KeysAreOwn();
    WhatIsRead();
    HeaderIsSound();
    RepairableMeans(Some(HEAD), Given());
    NoIssuesMean(Some(HEAD), Given());
    PropertyRead(0);
    GroupIsSound(0);
    assert !Resolves(Given(), Faces(), REF, 0);
    BodyMeans(Some(HEAD), Given(), BODY);
    InIds(Given(), [PROPERTY], "7");
    OnlyZero();
    assert BODY[0].references[0] == "7";
  }

  lemma OnlyZero()
    ensures !Names(Given(), [PROPERTY], "7")
  {
    PropertyRead(0);
  }

  /** The whole call on that document. */
  method NormalizeHead() returns (outcome: Outcome)
    ensures outcome.StillInvalid?
  {
    RepairedButRefused();
    hide *;
    var doc := new Document(Some(HEAD), Given());
    outcome := NormalizeGeneratedFontReferences(doc, BODY);
  }
}
