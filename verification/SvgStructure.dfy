/**
 The element structure of a validated SVG: the stack of open elements accepts a sequence of tags
 exactly when they are the tags of one tree rooted at `svg`, at most 1024 elements deep.
 */
module SvgStructure {
  import opened Basics

  datatype TagKind = Declaration | Malformed | CloseTag(name: string) | OpenTag(name: string, selfClosing: bool)

  const MAX_DEPTH: nat := 1024
  const ROOT: string := "svg"

  datatype Structure = Structure(elements: seq<string>, rootSeen: bool, rootClosed: bool)

  const NO_ROOT: Structure := Structure([], false, false)

  /** What one completed tag does to the open elements; None is the thrown error. */
  function InspectStructure(s: Structure, kind: TagKind): Option<Structure> {
    match kind
    case Declaration => None
    case Malformed => None
    case CloseTag(name) =>
      if s.elements == [] || s.elements[|s.elements| - 1] != name then None
      else
        var rest := s.elements[..|s.elements| - 1];
        Some(s.(elements := rest, rootClosed := s.rootClosed || rest == []))
    case OpenTag(name, selfClosing) =>
      if s.elements == [] && (s.rootSeen || s.rootClosed || name != ROOT) then None
      else
        var t := s.(rootSeen := s.rootSeen || s.elements == []);
        if selfClosing then Some(t.(rootClosed := t.rootClosed || s.elements == []))
        else if |s.elements| >= MAX_DEPTH then None
        else Some(t.(elements := s.elements + [name]))
  }

  predicate Finished(s: Structure) {
    s.rootSeen && s.rootClosed && s.elements == []
  }

  function InspectAll(s: Structure, kinds: seq<TagKind>): Option<Structure>
    decreases |kinds|
  {
    if kinds == [] then Some(s)
    else
      match InspectStructure(s, kinds[0])
      case None => None
      case Some(t) => InspectAll(t, kinds[1..])
  }

  predicate AcceptsTags(kinds: seq<TagKind>) {
    InspectAll(NO_ROOT, kinds).Some? && Finished(InspectAll(NO_ROOT, kinds).value)
  }

  // Trees

  datatype Tree = Empty(name: string) | Element(name: string, children: seq<Tree>)

  function TreeTags(t: Tree): seq<TagKind>
    decreases t, 0
  {
    match t
    case Empty(name) => [OpenTag(name, true)]
    case Element(name, children) => [OpenTag(name, false)] + ForestTags(children) + [CloseTag(name)]
  }

  function ForestTags(ts: seq<Tree>): seq<TagKind>
    decreases ts, |ts|
  {
    if ts == [] then [] else TreeTags(ts[0]) + ForestTags(ts[1..])
  }

  /** Within a tree, no more than `room` elements are ever open at once. */
  predicate Fits(t: Tree, room: int)
    decreases t, 0
  {
    match t
    case Empty(_) => room >= 0
    case Element(_, children) => room >= 1 && AllFit(children, room - 1)
  }

  predicate AllFit(ts: seq<Tree>, room: int)
    decreases ts, |ts|
  {
    room >= 0 && (ts == [] || (Fits(ts[0], room) && AllFit(ts[1..], room)))
  }

  lemma {:induction false} InspectAppend(s: Structure, a: seq<TagKind>, b: seq<TagKind>)
    ensures InspectAll(s, a + b) == match InspectAll(s, a) case None => None case Some(t) => InspectAll(t, b)
    decreases |a|
  {
    if a == [] {
      assert a + b == b;
    } else {
      assert (a + b)[1..] == a[1..] + b;
      match InspectStructure(s, a[0])
      case None =>
      case Some(t) => InspectAppend(t, a[1..], b);
    }
  }

  // A tree is accepted

  /** Inside open elements, the tags of a tree that fits leave the elements as they were. */
  lemma {:induction false} TreeAccepted(s: Structure, t: Tree)
    requires s.elements != [] && Fits(t, MAX_DEPTH - |s.elements|)
    ensures InspectAll(s, TreeTags(t)) == Some(s)
    decreases t, 0
  {
    match t
    case Empty(name) =>
      OneTag(s, OpenTag(name, true));
    case Element(name, children) =>
      var inner := s.(elements := s.elements + [name]);
      InspectAppend(s, [OpenTag(name, false)] + ForestTags(children), [CloseTag(name)]);
      InspectAppend(s, [OpenTag(name, false)], ForestTags(children));
      OneTag(s, OpenTag(name, false));
      ForestAccepted(inner, children);
      OneTag(inner, CloseTag(name));
      assert inner.elements[..|inner.elements| - 1] == s.elements;
  }

  lemma {:induction false} ForestAccepted(s: Structure, ts: seq<Tree>)
    requires s.elements != [] && AllFit(ts, MAX_DEPTH - |s.elements|)
    ensures InspectAll(s, ForestTags(ts)) == Some(s)
    decreases ts, |ts|
  {
    if ts != [] {
      TreeAccepted(s, ts[0]);
      ForestAccepted(s, ts[1..]);
      InspectAppend(s, TreeTags(ts[0]), ForestTags(ts[1..]));
    }
  }

  lemma OneTag(s: Structure, kind: TagKind)
    ensures InspectAll(s, [kind]) == InspectStructure(s, kind)
  {
    assert [kind][1..] == [];
  }

  lemma RootAccepted(t: Tree)
    requires t.name == ROOT && Fits(t, MAX_DEPTH)
    ensures AcceptsTags(TreeTags(t))
  {
    match t
    case Empty(name) => OneTag(NO_ROOT, OpenTag(name, true));
    case Element(name, children) =>
      var inner := Structure([name], true, false);
      InspectAppend(NO_ROOT, [OpenTag(name, false)] + ForestTags(children), [CloseTag(name)]);
      InspectAppend(NO_ROOT, [OpenTag(name, false)], ForestTags(children));
      OneTag(NO_ROOT, OpenTag(name, false));
      assert [] + [name] == [name];
      ForestAccepted(inner, children);
      OneTag(inner, CloseTag(name));
  }

  // Whatever is accepted is a tree

  /** The open elements, outermost first, each with the children completed so far. */
  datatype Open = Open(name: string, children: seq<Tree>)

  function OpenTags(opens: seq<Open>): seq<TagKind> {
    if opens == [] then [] else [OpenTag(opens[0].name, false)] + ForestTags(opens[0].children) + OpenTags(opens[1..])
  }

  function OpenNames(opens: seq<Open>): (names: seq<string>)
    ensures |names| == |opens|
  {
    seq(|opens|, i requires 0 <= i < |opens| => opens[i].name)
  }

  /** Every completed child still fits below its open parents. */
  ghost predicate OpensFit(opens: seq<Open>, room: int) {
    room >= 0 && (opens != [] ==> AllFit(opens[0].children, room - 1) && OpensFit(opens[1..], room - 1))
  }

  lemma {:induction false} ForestAppend(a: seq<Tree>, b: seq<Tree>, room: int)
    ensures ForestTags(a + b) == ForestTags(a) + ForestTags(b)
    ensures AllFit(a, room) && AllFit(b, room) ==> AllFit(a + b, room)
    decreases |a|
  {
    if a == [] {
      assert a + b == b;
    } else {
      assert (a + b)[1..] == a[1..] + b;
      ForestAppend(a[1..], b, room);
    }
  }

  /** Adds a completed tree to the innermost open element. */
  function AddChild(opens: seq<Open>, t: Tree): (r: seq<Open>)
    requires opens != []
    ensures |r| == |opens|
  {
    var last := opens[|opens| - 1];
    opens[..|opens| - 1] + [last.(children := last.children + [t])]
  }

  lemma OneOpen(o: Open, room: int)
    ensures OpenTags([o]) == [OpenTag(o.name, false)] + ForestTags(o.children)
    ensures OpenNames([o]) == [o.name]
    ensures OpensFit([o], room) <==> room >= 1 && AllFit(o.children, room - 1)
  {
    assert [o][1..] == [];
  }

  lemma OneTree(t: Tree, room: int)
    ensures ForestTags([t]) == TreeTags(t) && (AllFit([t], room) <==> room >= 0 && Fits(t, room))
  {
    assert [t][1..] == [];
  }

  lemma {:induction false} ChildAdded(opens: seq<Open>, t: Tree, room: int)
    requires opens != [] && OpensFit(opens, room) && Fits(t, room - |opens|)
    ensures OpenTags(AddChild(opens, t)) == OpenTags(opens) + TreeTags(t)
    ensures OpenNames(AddChild(opens, t)) == OpenNames(opens) && OpensFit(AddChild(opens, t), room)
    decreases |opens|
  {
    hide TreeTags, ForestTags, Fits, AllFit;
    if |opens| == 1 {
      assert opens == [opens[0]];
      ChildOfOne(opens[0], t, room);
    } else {
      ChildAdded(opens[1..], t, room - 1);
      hide *;
      ChildOfRest(opens, t, room);
    }
  }

  lemma AddChildRest(opens: seq<Open>, t: Tree)
    requires |opens| > 1
    ensures AddChild(opens, t)[1..] == AddChild(opens[1..], t) && AddChild(opens, t)[0] == opens[0]
  {
    var n, last := |opens|, opens[|opens| - 1];
    var x := last.(children := last.children + [t]);
    assert opens[1..][|opens[1..]| - 1] == last;
    assert opens[1..][..n - 2] == opens[..n - 1][1..];
    assert AddChild(opens, t) == opens[..n - 1] + [x];
  }

  lemma ChildOfRest(opens: seq<Open>, t: Tree, room: int)
    requires |opens| > 1 && OpensFit(opens, room)
    requires var rest := AddChild(opens[1..], t);
             OpenTags(rest) == OpenTags(opens[1..]) + TreeTags(t) && OpenNames(rest) == OpenNames(opens[1..])
               && OpensFit(rest, room - 1)
    ensures OpenTags(AddChild(opens, t)) == OpenTags(opens) + TreeTags(t)
    ensures OpenNames(AddChild(opens, t)) == OpenNames(opens) && OpensFit(AddChild(opens, t), room)
  {
    hide TreeTags, ForestTags, Fits, AllFit;
    var more := AddChild(opens, t);
    AddChildRest(opens, t);
    var head := [OpenTag(opens[0].name, false)] + ForestTags(opens[0].children);
    assert head + (OpenTags(opens[1..]) + TreeTags(t)) == head + OpenTags(opens[1..]) + TreeTags(t);
    assert forall i | 0 < i < |opens| ::
      OpenNames(more)[i] == OpenNames(more[1..])[i - 1] == OpenNames(opens[1..])[i - 1];
  }

  lemma ChildOfOne(o: Open, t: Tree, room: int)
    requires OpensFit([o], room) && Fits(t, room - 1)
    ensures AddChild([o], t) == [o.(children := o.children + [t])]
    ensures OpenTags(AddChild([o], t)) == OpenTags([o]) + TreeTags(t)
    ensures OpenNames(AddChild([o], t)) == OpenNames([o]) && OpensFit(AddChild([o], t), room)
  {
    hide OpenTags, OpensFit, OpenNames, TreeTags, ForestTags, Fits, AllFit;
    var more := o.(children := o.children + [t]);
    OneOpen(o, room);
    OneOpen(more, room);
    OneTree(t, room - 1);
    ForestAppend(o.children, [t], room - 1);
    assert AddChild([o], t) == [more];
  }

  lemma {:induction false} OpenedMore(opens: seq<Open>, name: string, room: int)
    requires OpensFit(opens, room) && room >= |opens| + 1
    ensures var more := opens + [Open(name, [])];
            OpenTags(more) == OpenTags(opens) + [OpenTag(name, false)] && OpenNames(more) == OpenNames(opens) + [name]
              && OpensFit(more, room)
    decreases |opens|
  {
    var more := opens + [Open(name, [])];
    if opens == [] {
      assert more[1..] == [];
    } else {
      assert more[1..] == opens[1..] + [Open(name, [])];
      OpenedMore(opens[1..], name, room - 1);
    }
  }

  /** Closing the innermost element completes a tree. */
  lemma {:induction false} ClosedLast(opens: seq<Open>, room: int)
    requires opens != [] && OpensFit(opens, room)
    ensures var k, last := |opens| - 1, opens[|opens| - 1];
            && OpenTags(opens) + [CloseTag(last.name)]
              == OpenTags(opens[..k]) + TreeTags(Element(last.name, last.children))
            && OpensFit(opens[..k], room) && Fits(Element(last.name, last.children), room - k)
    decreases |opens|
  {
    hide *;
    var k, last := |opens| - 1, opens[|opens| - 1];
    if k == 0 {
      assert opens == [last] && opens[..0] == [];
      ClosedOnly(last, room);
    } else {
      var tree, front := Element(last.name, last.children), opens[..k];
      OpenTurn(opens, room);
      ClosedLast(opens[1..], room - 1);
      assert opens[1..][..k - 1] == front[1..] && front[0] == opens[0];
      OpenTurn(front, room);
      var head := [OpenTag(opens[0].name, false)] + ForestTags(opens[0].children);
      assert head + OpenTags(opens[1..]) + [CloseTag(last.name)]
        == head + (OpenTags(opens[1..]) + [CloseTag(last.name)]);
      assert head + (OpenTags(front[1..]) + TreeTags(tree)) == head + OpenTags(front[1..]) + TreeTags(tree);
    }
  }

  lemma OpenTurn(opens: seq<Open>, room: int)
    requires opens != []
    ensures OpenTags(opens) == [OpenTag(opens[0].name, false)] + ForestTags(opens[0].children) + OpenTags(opens[1..])
    ensures OpensFit(opens, room) <==>
            room >= 0 && AllFit(opens[0].children, room - 1) && OpensFit(opens[1..], room - 1)
  {
    hide ForestTags, AllFit;
  }

  lemma ClosedOnly(last: Open, room: int)
    requires OpensFit([last], room)
    ensures OpenTags([last]) + [CloseTag(last.name)] == OpenTags([]) + TreeTags(Element(last.name, last.children))
    ensures OpensFit([], room) && Fits(Element(last.name, last.children), room)
  {
    OneOpen(last, room);
    hide ForestTags, AllFit;
    assert OpenTags([]) + TreeTags(Element(last.name, last.children)) == TreeTags(Element(last.name, last.children));
  }

  /** Where the run stands: elements still open, or the finished root. */
  datatype Progress = Before | Inside(opens: seq<Open>) | After(root: Tree)

  ghost predicate Explains(p: Progress, s: Structure, done: seq<TagKind>) {
    match p
    case Before => s == NO_ROOT && done == []
    case Inside(opens) =>
      && opens != [] && opens[0].name == ROOT && OpensFit(opens, MAX_DEPTH)
      && s == Structure(OpenNames(opens), true, false) && done == OpenTags(opens)
    case After(root) =>
      && s == Structure([], true, true) && root.name == ROOT
      && Fits(root, MAX_DEPTH) && done == TreeTags(root)
  }

  lemma {:induction false} ProgressStep(p: Progress, s: Structure, done: seq<TagKind>, kind: TagKind)
    returns (q: Progress)
    requires Explains(p, s, done) && InspectStructure(s, kind).Some?
    ensures Explains(q, InspectStructure(s, kind).value, done + [kind])
  {
    match kind
    case OpenTag(name, selfClosing) =>
      if p.Before? {
        q := if selfClosing then After(Empty(name)) else Inside([Open(name, [])]);
        FirstTag(name);
      } else {
        q := OpenInside(p.opens, s, done, name, selfClosing);
      }
    case CloseTag(name) =>
      q := CloseInside(p.opens, s, done);
  }

  lemma FirstTag(name: string)
    ensures OpenTags([Open(name, [])]) == [OpenTag(name, false)] && OpenNames([Open(name, [])]) == [name]
    ensures OpensFit([Open(name, [])], MAX_DEPTH)
    ensures [] + [OpenTag(name, false)] == [OpenTag(name, false)] && [] + [name] == [name]
  {
    assert [Open(name, [])][1..] == [];
  }

  lemma {:induction false} OpenInside(opens: seq<Open>, s: Structure, done: seq<TagKind>, name: string,
      selfClosing: bool)
    returns (q: Progress)
    requires Explains(Inside(opens), s, done) && InspectStructure(s, OpenTag(name, selfClosing)).Some?
    ensures Explains(q, InspectStructure(s, OpenTag(name, selfClosing)).value, done + [OpenTag(name, selfClosing)])
  {
    if selfClosing {
      RoomLeft(opens, MAX_DEPTH);
      ChildAdded(opens, Empty(name), MAX_DEPTH);
      q := Inside(AddChild(opens, Empty(name)));
    } else {
      OpenedMore(opens, name, MAX_DEPTH);
      q := Inside(opens + [Open(name, [])]);
    }
  }

  lemma {:induction false} RoomLeft(opens: seq<Open>, room: int)
    requires OpensFit(opens, room)
    ensures room >= |opens|
  {
    if opens != [] {
      RoomLeft(opens[1..], room - 1);
    }
  }

  lemma {:induction false} CloseInside(opens: seq<Open>, s: Structure, done: seq<TagKind>) returns (q: Progress)
    requires Explains(Inside(opens), s, done)
    ensures var kind := CloseTag(opens[|opens| - 1].name);
            Explains(q, InspectStructure(s, kind).value, done + [kind])
  {
    var k, last := |opens| - 1, opens[|opens| - 1];
    var tree := Element(last.name, last.children);
    ClosedLast(opens, MAX_DEPTH);
    assert OpenNames(opens)[..k] == OpenNames(opens[..k]);
    if k == 0 {
      assert OpenTags(opens[..0]) + TreeTags(tree) == TreeTags(tree);
      q := After(tree);
    } else {
      ChildAdded(opens[..k], tree, MAX_DEPTH);
      q := Inside(AddChild(opens[..k], tree));
      assert AddChild(opens[..k], tree)[0].name == opens[0].name;
    }
  }

  lemma {:induction false} Explained(p: Progress, s: Structure, done: seq<TagKind>, kinds: seq<TagKind>)
    returns (q: Progress)
    requires Explains(p, s, done) && InspectAll(s, kinds).Some?
    ensures Explains(q, InspectAll(s, kinds).value, done + kinds)
    decreases |kinds|
  {
    if kinds == [] {
      q := p;
      assert done + kinds == done;
    } else {
      var next := ProgressStep(p, s, done, kinds[0]);
      q := Explained(next, InspectStructure(s, kinds[0]).value, done + [kinds[0]], kinds[1..]);
      assert done + [kinds[0]] + kinds[1..] == done + kinds;
    }
  }

  /** The stack accepts exactly the tags of one tree rooted at `svg` that is at most 1024 elements deep. */
  lemma AcceptsExactlyTrees(kinds: seq<TagKind>)
    ensures AcceptsTags(kinds) <==> exists t: Tree :: t.name == ROOT && Fits(t, MAX_DEPTH) && TreeTags(t) == kinds
  {
    if AcceptsTags(kinds) {
      var q := Explained(Before, NO_ROOT, [], kinds);
      assert [] + kinds == kinds;
      assert q.After? && TreeTags(q.root) == kinds;
    }
    if exists t: Tree :: t.name == ROOT && Fits(t, MAX_DEPTH) && TreeTags(t) == kinds {
      var t: Tree :| t.name == ROOT && Fits(t, MAX_DEPTH) && TreeTags(t) == kinds;
      RootAccepted(t);
    }
  }
}
