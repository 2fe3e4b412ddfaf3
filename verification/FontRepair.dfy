/** The repair of dangling font references in a generated document. */
module FontRepair {
  import opened Basics
  import opened FontIntegrity
  import opened FontMeaning

  // ---------------------------------------------------------------- nodes of a tree have their own keys

  function At(n: Node, path: seq<nat>): Option<Node> {
    if path == [] then Some(n)
    else if n.Element? && path[0] < |n.children| then At(n.children[path[0]], path[1..])
    else None
  }

  ghost predicate IsElementAt(root: Node, path: seq<nat>) {
    At(root, path).Some? && At(root, path).value.Element?
  }

  /** No two elements of the tree share a key, so that setting an attribute of one leaves the others alone. */
  ghost predicate OwnKeys(root: Node) {
    forall p, q | IsElementAt(root, p) && IsElementAt(root, q)
      && At(root, p).value.key == At(root, q).value.key :: p == q
  }

  lemma {:induction false} KeysDiffer(root: Node, p: seq<nat>, q: seq<nat>)
    requires OwnKeys(root) && IsElementAt(root, p) && IsElementAt(root, q) && p != q
    ensures At(root, p).value.key != At(root, q).value.key
  {
  }

  /** The positions of the matching children. */
  ghost function Positions(nodes: seq<Node>, local: string): (r: seq<nat>)
    ensures |r| == |Matching(nodes, local)|
    ensures forall i | 0 <= i < |r| ::
              r[i] < |nodes| && nodes[r[i]] == Matching(nodes, local)[i] && IsHeaderChild(nodes[r[i]], local)
    ensures forall i, j | 0 <= i < j < |r| :: r[i] < r[j]
  {
    if nodes == [] then []
    else
      var k := |nodes| - 1;
      Positions(nodes[..k], local) + if IsHeaderChild(nodes[k], local) then [k] else []
  }

  lemma {:induction false} AtFurther(n: Node, path: seq<nat>, i: nat)
    requires IsElementAt(n, path) && i < |At(n, path).value.children|
    ensures At(n, path + [i]) == Some(At(n, path).value.children[i])
  {
    if path == [] {
      assert path + [i] == [i] && [i][1..] == [];
    } else {
      AtFurther(n.children[path[0]], path[1..], i);
      assert (path + [i])[1..] == path[1..] + [i];
    }
  }

  /** From a node at `path` to its matching child number `i`. */
  lemma {:induction false} AtMatching(root: Node, path: seq<nat>, local: string, i: nat)
    requires IsElementAt(root, path) && i < |HeaderChildren(At(root, path).value, local)|
    ensures var n := At(root, path).value;
            At(root, path + [Positions(n.children, local)[i]]) == Some(HeaderChildren(n, local)[i])
  {
    hide Matching, Positions, At;
    var n := At(root, path).value;
    AtFurther(root, path, Positions(n.children, local)[i]);
  }

  /** Where the nodes that an inspection reads are: the list, its two containers, and what is in them. */
  lemma {:induction false} ListAt(root: Option<Node>) returns (path: seq<nat>)
    requires RefList(root).Some?
    ensures At(root.value, path) == RefList(root) && |path| == 1
  {
    assert At(root.value, []) == root;
    AtMatching(root.value, [], "refList", 0);
    path := [] + [Positions(root.value.children, "refList")[0]];
  }

  lemma {:induction false} ContainersAt(root: Option<Node>) returns (tables: seq<nat>, properties: seq<nat>)
    requires RefList(root).Some?
    ensures |tables| == |properties| == 2 && tables != properties
    ensures Containers(root) != [] ==> At(root.value, tables) == Some(Containers(root)[0])
    ensures CharPrs(root) != [] ==>
              At(root.value, properties) == Some(HeaderChildren(RefList(root).value, "charProperties")[0])
  {
    hide Matching, At;
    var path := ListAt(root);
    var list := RefList(root).value;
    tables, properties := path + [0], path + [1];
    var t, p := HeaderChildren(list, "fontfaces"), HeaderChildren(list, "charProperties");
    if t != [] {
      AtMatching(root.value, path, "fontfaces", 0);
      tables := path + [Positions(list.children, "fontfaces")[0]];
    }
    if p != [] {
      AtMatching(root.value, path, "charProperties", 0);
      properties := path + [Positions(list.children, "charProperties")[0]];
    }
    if t == [] {
      tables := path + [properties[1] + 1];
    } else if p == [] {
      properties := path + [tables[1] + 1];
    }
  }

  /** The character properties that have a reference element. */
  ghost predicate HasRef(root: Option<Node>, i: nat) {
    i < |CharPrs(root)| && FontRefs(CharPrs(root)[i]) != []
  }

  ghost function Ref(root: Option<Node>, i: nat): Node
    requires HasRef(root, i)
    ensures Ref(root, i).Element?
  {
    FontRefs(CharPrs(root)[i])[0]
  }

  lemma {:induction false} CharAt(root: Option<Node>, properties: seq<nat>, i: nat) returns (path: seq<nat>)
    requires RefList(root).Some? && i < |CharPrs(root)| && |properties| == 2
    requires At(root.value, properties) == Some(HeaderChildren(RefList(root).value, "charProperties")[0])
    ensures At(root.value, path) == Some(CharPrs(root)[i]) && |path| == 3 && path[..2] == properties
    ensures path[2] == Positions(At(root.value, properties).value.children, "charPr")[i]
  {
    hide Matching, At, Positions;
    AtMatching(root.value, properties, "charPr", i);
    path := properties + [Positions(At(root.value, properties).value.children, "charPr")[i]];
  }

  lemma {:induction false} RefAt(root: Option<Node>, properties: seq<nat>, i: nat) returns (path: seq<nat>)
    requires RefList(root).Some? && HasRef(root, i) && |properties| == 2
    requires At(root.value, properties) == Some(HeaderChildren(RefList(root).value, "charProperties")[0])
    ensures At(root.value, path) == Some(Ref(root, i)) && |path| == 4 && path[..2] == properties
    ensures path[2] == Positions(At(root.value, properties).value.children, "charPr")[i]
  {
    hide Matching, At, Positions;
    var at := CharAt(root, properties, i);
    AtMatching(root.value, at, "fontRef", 0);
    path := at + [Positions(CharPrs(root)[i].children, "fontRef")[0]];
    assert path[..2] == at[..2];
  }

  lemma {:induction false} CharPrsNeedList(root: Option<Node>)
    ensures CharPrs(root) != [] || Containers(root) != [] ==> RefList(root).Some? && IsHeader(root)
  {
  }

  /** The reference elements of different character properties are different nodes, and none is a property. */
  lemma {:induction false} RefsDiffer(root: Option<Node>, i: nat, j: nat)
    requires IsHeader(root) && OwnKeys(root.value) && HasRef(root, i) && j < |CharPrs(root)|
    ensures Ref(root, i).key != CharPrs(root)[j].key
    ensures i != j && HasRef(root, j) ==> Ref(root, i).key != Ref(root, j).key
  {
    hide Matching, At, Positions;
    CharPrsNeedList(root);
    var _, properties := ContainersAt(root);
    var path := RefAt(root, properties, i);
    assert IsElementAt(root.value, path);
    var other := CharAt(root, properties, j);
    assert IsElementAt(root.value, other);
    if i != j && HasRef(root, j) {
      var further := RefAt(root, properties, j);
      assert IsElementAt(root.value, further);
    }
  }

  /** A reference element is not part of the font table. */
  lemma {:induction false} RefNotInTable(root: Option<Node>, i: nat)
    requires IsHeader(root) && OwnKeys(root.value) && HasRef(root, i) && Containers(root) != []
    ensures Ref(root, i).key != Containers(root)[0].key
    ensures forall x | 0 <= x < |Fontfaces(root)| :: Ref(root, i).key != Fontfaces(root)[x].key
    ensures forall x, y | 0 <= x < |Fontfaces(root)| && 0 <= y < |HeaderChildren(Fontfaces(root)[x], "font")| ::
              Ref(root, i).key != HeaderChildren(Fontfaces(root)[x], "font")[y].key
  {
    hide Matching, At, Positions;
    CharPrsNeedList(root);
    var tables, properties := ContainersAt(root);
    var path := RefAt(root, properties, i);
    assert IsElementAt(root.value, path) && IsElementAt(root.value, tables);
    forall x | 0 <= x < |Fontfaces(root)| ensures Ref(root, i).key != Fontfaces(root)[x].key {
      AtMatching(root.value, tables, "fontface", x);
      assert IsElementAt(root.value, tables + [Positions(Containers(root)[0].children, "fontface")[x]]);
    }
    forall x, y | 0 <= x < |Fontfaces(root)| && 0 <= y < |HeaderChildren(Fontfaces(root)[x], "font")|
      ensures Ref(root, i).key != HeaderChildren(Fontfaces(root)[x], "font")[y].key
    {
      FontNotRef(root, tables, path, x, y);
    }
  }

  lemma {:induction false} FontNotRef(root: Option<Node>, tables: seq<nat>, path: seq<nat>, x: nat, y: nat)
    requires IsHeader(root) && OwnKeys(root.value) && Containers(root) != []
    requires At(root.value, tables) == Some(Containers(root)[0])
    requires x < |Fontfaces(root)| && y < |HeaderChildren(Fontfaces(root)[x], "font")|
    requires IsElementAt(root.value, path) && |path| == 4 && |tables| == 2 && path[..2] != tables
    ensures At(root.value, path).value.key != HeaderChildren(Fontfaces(root)[x], "font")[y].key
  {
    hide Matching, At, Positions, OwnKeys;
    AtMatching(root.value, tables, "fontface", x);
    var at := tables + [Positions(Containers(root)[0].children, "fontface")[x]];
    AtMatching(root.value, at, "font", y);
    var font := at + [Positions(Fontfaces(root)[x].children, "font")[y]];
    assert font[..2] == tables;
    KeysDiffer(root.value, path, font);
  }

  // ---------------------------------------------------------------- setting references only

  /** `key` belongs to a reference element and `name` is one of its seven references, which dangles. */
  ghost predicate IsDangling(root: Option<Node>, a: Attributes, key: nat, name: string) {
    exists i, k :: HasRef(root, i) && 0 <= k < |SCRIPTS| && Ref(root, i).key == key && SCRIPTS[k].0 == name &&
                   Dangles(root, a, i, k)
  }

  ghost predicate Dangles(root: Option<Node>, a: Attributes, i: nat, k: nat)
    requires HasRef(root, i) && k < |SCRIPTS|
  {
    GetAttribute(a, Ref(root, i), SCRIPTS[k].0).Some? && !Fine(a, Fontfaces(root), Ref(root, i), k)
  }

  /** From `a` to `b` exactly the dangling references were set to "0"; nothing else changed. */
  ghost predicate RepairOf(root: Option<Node>, a: Attributes, b: Attributes) {
    forall key, name :: Get(b, key, name) == if IsDangling(root, a, key, name) then Some("0") else Get(a, key, name)
  }

  ghost predicate IsRefKey(root: Option<Node>, key: nat) {
    exists i :: HasRef(root, i) && Ref(root, i).key == key
  }

  /** `a` and `b` agree on everything but the attributes of reference elements. */
  ghost predicate SameTable(root: Option<Node>, a: Attributes, b: Attributes) {
    forall key, name | !IsRefKey(root, key) :: Get(b, key, name) == Get(a, key, name)
  }

  lemma {:induction false} SameIds(a: Attributes, b: Attributes, nodes: Elements)
    requires forall i, name | 0 <= i < |nodes| :: GetAttribute(b, nodes[i], name) == GetAttribute(a, nodes[i], name)
    ensures DistinctIds(b, nodes) == DistinctIds(a, nodes) && Named(b, nodes) == Named(a, nodes)
    ensures forall id :: Names(b, nodes, id) == Names(a, nodes, id)
    ensures Ids(b, nodes) == Ids(a, nodes)
  {
    assert forall i | 0 <= i < |nodes| :: IdOf(b, nodes[i]) == IdOf(a, nodes[i]);
    forall id ensures Names(b, nodes, id) == Names(a, nodes, id) && (id in Ids(b, nodes) <==> id in Ids(a, nodes)) {
      InIds(a, nodes, id);
      InIds(b, nodes, id);
    }
  }

  lemma {:induction false} SameGroup(a: Attributes, b: Attributes, fontfaces: Elements, language: string)
    requires forall x | 0 <= x < |fontfaces| ::
             GetAttribute(b, fontfaces[x], "lang") == GetAttribute(a, fontfaces[x], "lang")
    ensures Group(b, fontfaces, language) == Group(a, fontfaces, language)
    ensures forall g | 0 <= g < |Group(a, fontfaces, language)| :: Group(a, fontfaces, language)[g] in fontfaces
  {
    if fontfaces != [] {
      SameGroup(a, b, fontfaces[..|fontfaces| - 1], language);
    }
  }

  /** The font table reads the same when only reference elements were changed. */
  lemma {:induction false} TableStays(root: Option<Node>, a: Attributes, b: Attributes, language: string)
    requires IsHeader(root) && OwnKeys(root.value) && SameTable(root, a, b) && Containers(root) != []
    ensures GetAttribute(b, Containers(root)[0], "itemCnt") == GetAttribute(a, Containers(root)[0], "itemCnt")
    ensures Group(b, Fontfaces(root), language) == Group(a, Fontfaces(root), language)
    ensures SoundGroup(b, Fontfaces(root), language) == SoundGroup(a, Fontfaces(root), language)
    ensures Ids(b, Fonts(a, Fontfaces(root), language)) == Ids(a, Fonts(a, Fontfaces(root), language))
  {
    hide Matching, Positions, At, OwnKeys, Decimal, Ids, DistinctIds, FontMeaning.Named, Names, Group;
    forall i | HasRef(root, i)
      ensures Ref(root, i).key != Containers(root)[0].key
      ensures forall x | 0 <= x < |Fontfaces(root)| :: Ref(root, i).key != Fontfaces(root)[x].key
      ensures forall x, y | 0 <= x < |Fontfaces(root)| && 0 <= y < |HeaderChildren(Fontfaces(root)[x], "font")| ::
                Ref(root, i).key != HeaderChildren(Fontfaces(root)[x], "font")[y].key
    {
      RefNotInTable(root, i);
    }
    var fontfaces := Fontfaces(root);
    SameGroup(a, b, fontfaces, language);
    if Group(a, fontfaces, language) != [] {
      var face := Group(a, fontfaces, language)[0];
      var x :| 0 <= x < |fontfaces| && fontfaces[x] == face;
      forall y, name | 0 <= y < |HeaderChildren(face, "font")|
        ensures GetAttribute(b, HeaderChildren(face, "font")[y], name)
                == GetAttribute(a, HeaderChildren(face, "font")[y], name)
      {
        assert !IsRefKey(root, HeaderChildren(fontfaces[x], "font")[y].key);
      }
      SameIds(a, b, HeaderChildren(face, "font"));
    } else {
      SameIds(a, b, []);
    }
  }

  lemma {:induction false} CharIdsStay(root: Option<Node>, a: Attributes, b: Attributes)
    requires IsHeader(root) && OwnKeys(root.value) && SameTable(root, a, b)
    ensures forall i | 0 <= i < |CharPrs(root)| :: IdOf(b, CharPrs(root)[i]) == IdOf(a, CharPrs(root)[i])
    ensures DistinctIds(b, CharPrs(root)) == DistinctIds(a, CharPrs(root))
  {
    hide Matching, Positions, At, OwnKeys;
    forall j, name | 0 <= j < |CharPrs(root)|
      ensures GetAttribute(b, CharPrs(root)[j], name) == GetAttribute(a, CharPrs(root)[j], name)
    {
      forall i | HasRef(root, i) ensures Ref(root, i).key != CharPrs(root)[j].key {
        RefsDiffer(root, i, j);
      }
      assert !IsRefKey(root, CharPrs(root)[j].key);
    }
    SameIds(a, b, CharPrs(root));
  }

  /** After a repair each single reference is "0" if it dangled, and else what it was. */
  lemma {:induction false} ReferenceAfter(root: Option<Node>, a: Attributes, b: Attributes, i: nat, k: nat)
    requires IsHeader(root) && OwnKeys(root.value) && RepairOf(root, a, b) && HasRef(root, i) && k < |SCRIPTS|
    ensures GetAttribute(b, Ref(root, i), SCRIPTS[k].0) ==
            if Dangles(root, a, i, k) then Some("0") else GetAttribute(a, Ref(root, i), SCRIPTS[k].0)
  {
    hide Matching, OwnKeys, Fine;
    var key, name := Ref(root, i).key, SCRIPTS[k].0;
    if IsDangling(root, a, key, name) {
      var j, l :| HasRef(root, j) && 0 <= l < |SCRIPTS| && Ref(root, j).key == key && SCRIPTS[l].0 == name
        && Dangles(root, a, j, l);
      if j != i {
        RefsDiffer(root, i, j);
      }
      if l < k {
        ScriptsDiffer(l, k);
      } else if k < l {
        ScriptsDiffer(k, l);
      }
    }
  }

  lemma {:induction false} RepairTouchesRefs(root: Option<Node>, a: Attributes, b: Attributes)
    requires RepairOf(root, a, b)
    ensures SameTable(root, a, b)
  {
  }

  lemma {:induction false} RepairedReference(root: Option<Node>, a: Attributes, b: Attributes, i: nat, k: nat)
    requires IsHeader(root) && OwnKeys(root.value) && Sound(root, a) && RepairOf(root, a, b)
    requires i < |CharPrs(root)| && k < |SCRIPTS|
    ensures HasRef(root, i) && Numeral(b, Ref(root, i), k) && Resolves(b, Fontfaces(root), Ref(root, i), k)
  {
    hide Matching, OwnKeys, RepairOf, NonNegativeInteger, Group, Ids, Decimal, DistinctIds, FontMeaning.Named, Names;
    RepairTouchesRefs(root, a, b);
    TableStays(root, a, b, SCRIPTS[k].1);
    ReferenceAfter(root, a, b, i, k);
    ZeroIsNumeral();
    assert SoundGroup(a, Fontfaces(root), SCRIPTS[k].1) && Numeral(a, Ref(root, i), k);
    FineResolves(a, Fontfaces(root), Ref(root, i), k);
    var fonts := Fonts(a, Fontfaces(root), SCRIPTS[k].1);
    var f := GetAttribute(a, Ref(root, i), SCRIPTS[k].0).value;
    InIds(a, fonts, f);
    InIds(b, fonts, f);
    assert Names(b, fonts, "0");
  }

  lemma {:induction false} RepairedTable(root: Option<Node>, a: Attributes, b: Attributes)
    requires root.Some? && OwnKeys(root.value) && SoundTable(root, a) && SameTable(root, a, b)
    ensures SoundTable(root, b)
  {
    hide Matching, OwnKeys, SoundGroup, SameTable, Decimal;
    TableStays(root, a, b, SCRIPTS[0].1);
    forall k | 0 <= k < |SCRIPTS| ensures SoundGroup(b, Fontfaces(root), SCRIPTS[k].1) {
      TableStays(root, a, b, SCRIPTS[k].1);
    }
  }

  lemma {:induction false} RepairedChars(root: Option<Node>, a: Attributes, b: Attributes)
    requires IsHeader(root) && OwnKeys(root.value) && Sound(root, a) && RepairOf(root, a, b)
    ensures SoundChars(b, CharPrs(root)) && AllResolve(b, Fontfaces(root), CharPrs(root))
  {
    hide Matching, OwnKeys, RepairOf, SameTable, Numeral, Resolves, DistinctIds, SoundTable;
    RepairTouchesRefs(root, a, b);
    CharIdsStay(root, a, b);
    forall i, k | 0 <= i < |CharPrs(root)| && 0 <= k < |SCRIPTS|
      ensures Numeral(b, FontRefs(CharPrs(root)[i])[0], k)
      ensures Resolves(b, Fontfaces(root), FontRefs(CharPrs(root)[i])[0], k)
    {
      RepairedReference(root, a, b, i, k);
    }
  }

  /** Complete: when only references were wrong, nothing is wrong after setting the dangling ones to "0". */
  lemma {:induction false} RepairIsComplete(root: Option<Node>, a: Attributes, b: Attributes)
    requires root.Some? ==> OwnKeys(root.value)
    requires AllRepairable(Issues(root, a)) && RepairOf(root, a, b)
    ensures Issues(root, b) == []
  {
    hide Issues, OwnKeys, RepairOf, SoundTable, SoundChars, AllResolve, Matching;
    RepairableMeans(root, a);
    SoundHeader(root, a);
    RepairTouchesRefs(root, a, b);
    RepairedTable(root, a, b);
    RepairedChars(root, a, b);
    NoIssuesMean(root, b);
  }

  lemma {:induction false} SoundHeader(root: Option<Node>, a: Attributes)
    requires Sound(root, a)
    ensures IsHeader(root)
  {
  }
}
