/**
 The normalization of generated documents: inspect, set every repairable reference to "0", inspect again.
 Saving the archive and loading it again is taken to give back the header and the sections.
 */
module FontNormalization {
  import opened Basics
  import opened FontIntegrity
  import opened FontMeaning
  import opened FontRepair

  /** A part of the document body: the character properties its elements refer to, in document order. */
  datatype Section = Section(name: string, references: seq<string>)

  datatype Change = Change(charPrId: string, script: string, from: string)

  datatype Outcome =
    | Unchanged
    | Normalized(changes: seq<Change>)
    | Unsafe(issues: seq<Issue>)
    | ChangedMeanwhile(issue: Issue)
    | StillInvalid(issues: seq<Issue>)

  // ---------------------------------------------------------------- the body's references

  function OneReference(ids: set<string>, section: Section, k: nat): seq<Issue>
    requires k < |section.references|
  {
    var id := section.references[k];
    Reported(!NonNegativeInteger(id) || id !in ids, Issue(CharPrReferenceInvalid, section.name, Some(id), None, None))
  }

  function SectionIssues(ids: set<string>, section: Section, count: nat): seq<Issue>
    requires count <= |section.references|
  {
    if count == 0 then [] else SectionIssues(ids, section, count - 1) + OneReference(ids, section, count - 1)
  }

  function BodyIssues(ids: set<string>, sections: seq<Section>): seq<Issue> {
    if sections == [] then []
    else
      var last := sections[|sections| - 1];
      BodyIssues(ids, sections[..|sections| - 1]) + SectionIssues(ids, last, |last.references|)
  }

  /** Every character property that the body refers to is defined by the header. */
  ghost predicate BodyResolves(ids: set<string>, sections: seq<Section>) {
    forall s, k | 0 <= s < |sections| && 0 <= k < |sections[s].references| :: sections[s].references[k] in ids
  }

  ghost predicate Numerals(ids: set<string>) {
    forall id | id in ids :: NonNegativeInteger(id)
  }

  lemma {:induction false} SectionIssuesMean(ids: set<string>, section: Section, count: nat)
    requires count <= |section.references| && Numerals(ids)
    ensures SectionIssues(ids, section, count) == [] <==> forall k | 0 <= k < count :: section.references[k] in ids
  {
    hide NonNegativeInteger;
    if count > 0 {
      SectionIssuesMean(ids, section, count - 1);
    }
  }

  lemma {:induction false} BodyIssuesMean(ids: set<string>, sections: seq<Section>)
    requires Numerals(ids)
    ensures BodyIssues(ids, sections) == [] <==> BodyResolves(ids, sections)
  {
    hide SectionIssues, Numerals;
    if sections != [] {
      var k := |sections| - 1;
      BodyIssuesMean(ids, sections[..k]);
      SectionIssuesMean(ids, sections[k], |sections[k].references|);
    }
  }

  method InspectCharacterShapeReferences(ids: set<string>, sections: seq<Section>) returns (issues: seq<Issue>)
    ensures issues == BodyIssues(ids, sections)
  {
    hide NonNegativeInteger;
    issues := [];
    for s := 0 to |sections|
      invariant issues == BodyIssues(ids, sections[..s])
    {
      assert sections[..s + 1][..s] == sections[..s];
      ghost var before := issues;
      for k := 0 to |sections[s].references|
        invariant issues == before + SectionIssues(ids, sections[s], k)
      {
        var id := sections[s].references[k];
        if !NonNegativeInteger(id) || id !in ids {
          issues := issues + [Issue(CharPrReferenceInvalid, sections[s].name, Some(id), None, None)];
        }
      }
    }
    assert sections[..|sections|] == sections;
  }

  // ---------------------------------------------------------------- where the repairable issues are

  /** The dangling references of the element `fontRef` of property `i`, in the order of the scripts. */
  ghost function RefPlaces(a: Attributes, fontfaces: Elements, fontRef: Node, i: nat, scripts: nat): seq<(nat, nat)>
    requires fontRef.Element? && scripts <= |SCRIPTS|
  {
    if scripts == 0 then []
    else
      RefPlaces(a, fontfaces, fontRef, i, scripts - 1)
      + if Fine(a, fontfaces, fontRef, scripts - 1) then [] else [(i, scripts - 1)]
  }

  ghost function Places(a: Attributes, fontfaces: Elements, charPrs: Elements): seq<(nat, nat)>
    requires forall i | 0 <= i < |charPrs| :: FontRefs(charPrs[i]) != []
  {
    if charPrs == [] then []
    else
      var k := |charPrs| - 1;
      Places(a, fontfaces, charPrs[..k]) + RefPlaces(a, fontfaces, FontRefs(charPrs[k])[0], k, |SCRIPTS|)
  }

  ghost predicate Before(p: (nat, nat), q: (nat, nat)) {
    p.0 < q.0 || (p.0 == q.0 && p.1 < q.1)
  }

  ghost predicate Ordered(places: seq<(nat, nat)>) {
    forall t, u | 0 <= t < u < |places| :: Before(places[t], places[u])
  }

  function IssueAt(a: Attributes, id: string, fontRef: Node, k: nat): Issue
    requires fontRef.Element? && k < |SCRIPTS|
  {
    Issue(FontRefInvalid, HEADER_PATH, Some(id), Some(SCRIPTS[k].0), GetAttribute(a, fontRef, SCRIPTS[k].0))
  }

  lemma {:induction false} RefPlacesOrdered(a: Attributes, fontfaces: Elements, fontRef: Node, i: nat, scripts: nat)
    requires fontRef.Element? && scripts <= |SCRIPTS|
    ensures var places := RefPlaces(a, fontfaces, fontRef, i, scripts);
            && Ordered(places)
            && (forall t | 0 <= t < |places| :: places[t].0 == i && places[t].1 < scripts)
            && (forall k: nat | k < scripts :: (i, k) in places <==> !Fine(a, fontfaces, fontRef, k))
  {
    hide Fine;
    if scripts > 0 {
      RefPlacesOrdered(a, fontfaces, fontRef, i, scripts - 1);
      var before, k := RefPlaces(a, fontfaces, fontRef, i, scripts - 1), scripts - 1;
      assert (i, k) !in before;
      if !Fine(a, fontfaces, fontRef, k) {
        assert (before + [(i, k)])[|before|] == (i, k);
      }
    }
  }

  lemma {:induction false} RefPlacesReport(a: Attributes, fontfaces: Elements, id: string, fontRef: Node, i: nat,
      scripts: nat)
    requires fontRef.Element? && scripts <= |SCRIPTS| && FullRef(a, fontRef, scripts)
    ensures var issues, places := RefIssues(a, fontfaces, id, fontRef, scripts),
            RefPlaces(a, fontfaces, fontRef, i, scripts);
            && |issues| == |places|
            && (forall t | 0 <= t < |places| ::
              places[t].1 < scripts && issues[t] == IssueAt(a, id, fontRef, places[t].1))
  {
    hide NonNegativeInteger, Dangling, OneRef, Fine, IssueAt;
    if scripts > 0 {
      RefPlacesReport(a, fontfaces, id, fontRef, i, scripts - 1);
      assert Numeral(a, fontRef, scripts - 1);
      OneRefReports(a, fontfaces, id, fontRef, scripts - 1);
    }
  }

  lemma {:induction false} OneRefReports(a: Attributes, fontfaces: Elements, id: string, fontRef: Node, k: nat)
    requires fontRef.Element? && k < |SCRIPTS| && Numeral(a, fontRef, k)
    ensures OneRef(a, fontfaces, id, fontRef, SCRIPTS[k].0, SCRIPTS[k].1) ==
            if Fine(a, fontfaces, fontRef, k) then [] else [IssueAt(a, id, fontRef, k)]
  {
    hide NonNegativeInteger, Dangling;
  }

  /** `places` are exactly the dangling references of `charPrs`, in order, and `issues` reports them one by one. */
  ghost predicate Match(
    a: Attributes, fontfaces: Elements, charPrs: Elements, issues: seq<Issue>, places: seq<(nat, nat)>)
    requires forall i | 0 <= i < |charPrs| :: FontRefs(charPrs[i]) != []
  {
    && |issues| == |places| && Ordered(places)
    && (forall t | 0 <= t < |places| :: Reports(a, charPrs, issues[t], places[t]))
    && (forall i: nat, k: nat | i < |charPrs| && k < |SCRIPTS| ::
          (i, k) in places <==> !Fine(a, fontfaces, FontRefs(charPrs[i])[0], k))
  }

  ghost predicate Reports(a: Attributes, charPrs: Elements, issue: Issue, place: (nat, nat))
    requires forall i | 0 <= i < |charPrs| :: FontRefs(charPrs[i]) != []
  {
    && place.0 < |charPrs| && place.1 < |SCRIPTS|
    && issue == IssueAt(a, IdOf(a, charPrs[place.0]), FontRefs(charPrs[place.0])[0], place.1)
  }

  lemma {:induction false} PlacesMatch(a: Attributes, fontfaces: Elements, charPrs: Elements)
    requires SoundChars(a, charPrs)
    ensures Match(a, fontfaces, charPrs, CharIssues(a, fontfaces, charPrs), Places(a, fontfaces, charPrs))
  {
    hide Matching, OneChar, RefPlaces, RefIssues, Fine, NonNegativeInteger, FullRef, DistinctIds, Ids, IssueAt;
    if charPrs != [] {
      var k := |charPrs| - 1;
      SoundCharsStep(a, charPrs);
      PlacesMatch(a, fontfaces, charPrs[..k]);
      OneCharMeans(a, fontfaces, charPrs[k], Ids(a, charPrs[..k]));
      RefPlacesOrdered(a, fontfaces, FontRefs(charPrs[k])[0], k, |SCRIPTS|);
      RefPlacesReport(a, fontfaces, IdOf(a, charPrs[k]), FontRefs(charPrs[k])[0], k, |SCRIPTS|);
      MatchMore(
        a, fontfaces, charPrs, CharIssues(a, fontfaces, charPrs[..k]), Places(a, fontfaces, charPrs[..k]),
        OneChar(a, fontfaces, charPrs[k], Ids(a, charPrs[..k])),
        RefPlaces(a, fontfaces, FontRefs(charPrs[k])[0], k, |SCRIPTS|), k);
    }
  }

  /** Places of the first properties, followed by places of the last one. */
  ghost predicate Follow(places: seq<(nat, nat)>, more: seq<(nat, nat)>, last: nat) {
    && (forall t | 0 <= t < |places| :: places[t].0 < last)
    && (forall t | 0 <= t < |more| :: more[t].0 == last)
  }

  lemma {:induction false} FollowMeans(places: seq<(nat, nat)>, more: seq<(nat, nat)>, last: nat)
    requires Follow(places, more, last) && Ordered(places) && Ordered(more)
    ensures Ordered(places + more)
    ensures forall i: nat, k: nat :: (i, k) in places + more <==> if i == last then (i, k) in more else (i, k) in places
  {
  }

  lemma {:induction false} ReportsMore(
    a: Attributes, charPrs: Elements, issues: seq<Issue>, places: seq<(nat, nat)>, more: seq<Issue>,
      morePlaces: seq<(nat, nat)>,
    last: nat)
    requires forall i | 0 <= i < |charPrs| :: FontRefs(charPrs[i]) != []
    requires last < |charPrs| && |issues| == |places| && |more| == |morePlaces|
    requires forall t | 0 <= t < |places| :: Reports(a, charPrs[..last], issues[t], places[t])
    requires forall t | 0 <= t < |more| :: Reports(a, charPrs, more[t], morePlaces[t])
    ensures forall t | 0 <= t < |places + morePlaces| ::
              Reports(a, charPrs, (issues + more)[t], (places + morePlaces)[t])
    ensures forall t | 0 <= t < |places| :: places[t].0 < last
  {
    hide Matching, IssueAt;
    forall t | 0 <= t < |places| ensures Reports(a, charPrs, issues[t], places[t]) && places[t].0 < last {
      assert Reports(a, charPrs[..last], issues[t], places[t]);
    }
  }

  lemma {:induction false} MatchMore(
    a: Attributes, fontfaces: Elements, charPrs: Elements, issues: seq<Issue>, places: seq<(nat, nat)>,
    more: seq<Issue>, morePlaces: seq<(nat, nat)>, last: nat)
    requires |charPrs| == last + 1 && forall i | 0 <= i < |charPrs| :: FontRefs(charPrs[i]) != []
    requires Match(a, fontfaces, charPrs[..last], issues, places)
    requires |more| == |morePlaces| && Ordered(morePlaces)
    requires forall t | 0 <= t < |more| :: morePlaces[t].0 == last && Reports(a, charPrs, more[t], morePlaces[t])
    requires forall k: nat | k < |SCRIPTS| ::
               (last, k) in morePlaces <==> !Fine(a, fontfaces, FontRefs(charPrs[last])[0], k)
    ensures Match(a, fontfaces, charPrs, issues + more, places + morePlaces)
  {
    hide Fine, Matching, NonNegativeInteger, Reports, Ordered;
    ReportsMore(a, charPrs, issues, places, more, morePlaces, last);
    FollowMeans(places, morePlaces, last);
    forall i: nat, k: nat | i < |charPrs| && k < |SCRIPTS|
      ensures (i, k) in places + morePlaces <==> !Fine(a, fontfaces, FontRefs(charPrs[i])[0], k)
    {
      if i < last {
        assert charPrs[..last][i] == charPrs[i];
      }
    }
  }

  // ---------------------------------------------------------------- the repair loop

  class Document {
    const root: Option<Node>
    var attributes: Attributes

    constructor (root: Option<Node>, attributes: Attributes)
      ensures this.root == root && this.attributes == attributes
    {
      this.root := root;
      this.attributes := attributes;
    }

    method SetAttribute(n: Node, name: string, value: string)
      requires n.Element?
      modifies this
      ensures forall key, other :: Get(attributes, key, other) ==
                if key == n.key && other == name then Some(value) else Get(old(attributes), key, other)
    {
      var own := if n.key in attributes then attributes[n.key] else map[];
      attributes := attributes[n.key := own[name := value]];
    }
  }

  /** `name` of the element `key` is one of the first `count` places. */
  ghost predicate Hit(root: Option<Node>, places: seq<(nat, nat)>, count: nat, key: nat, name: string)
    requires count <= |places|
  {
    exists t :: 0 <= t < count && IsPlace(root, places[t], key, name)
  }

  ghost predicate IsPlace(root: Option<Node>, place: (nat, nat), key: nat, name: string) {
    HasRef(root, place.0) && place.1 < |SCRIPTS| && Ref(root, place.0).key == key && SCRIPTS[place.1].0 == name
  }

  /** The first `count` places read "0"; nothing else has changed since `a`. */
  ghost predicate Applied(root: Option<Node>, a: Attributes, b: Attributes, places: seq<(nat, nat)>, count: nat)
    requires count <= |places|
  {
    forall key, name :: Get(b, key, name) == if Hit(root, places, count, key, name) then Some("0")
      else Get(a, key, name)
  }

  lemma {:induction false} AppliedMore(
    root: Option<Node>, a: Attributes, b: Attributes, c: Attributes, places: seq<(nat, nat)>, count: nat)
    requires count < |places| && Applied(root, a, b, places, count)
    requires HasRef(root, places[count].0) && places[count].1 < |SCRIPTS|
    requires var (i, k) := places[count];
             forall key, name :: Get(c, key, name) ==
               if key == Ref(root, i).key && name == SCRIPTS[k].0 then Some("0") else Get(b, key, name)
    ensures Applied(root, a, c, places, count + 1)
  {
    hide HasRef, Ref, Get;
    forall key, name
      ensures Get(c, key, name) == if Hit(root, places, count + 1, key, name) then Some("0") else Get(a, key, name) {
      assert Hit(root, places, count + 1, key, name)
        <==> Hit(root, places, count, key, name) || IsPlace(root, places[count], key, name) by {
        if Hit(root, places, count, key, name) {
          var t :| 0 <= t < count && IsPlace(root, places[t], key, name);
          assert 0 <= t < count + 1;
        }
      }
    }
  }

  /** No two places are the same attribute of the same element, so a place not reached yet is still as it was. */
  lemma {:induction false} NotYetHit(root: Option<Node>, places: seq<(nat, nat)>, count: nat)
    requires IsHeader(root) && OwnKeys(root.value) && Ordered(places) && count < |places|
    requires HasRef(root, places[count].0) && places[count].1 < |SCRIPTS|
    ensures !Hit(root, places, count, Ref(root, places[count].0).key, SCRIPTS[places[count].1].0)
  {
    hide OwnKeys, Matching;
    var (i, k) := places[count];
    forall t | 0 <= t < count ensures !IsPlace(root, places[t], Ref(root, i).key, SCRIPTS[k].0) {
      assert Before(places[t], places[count]);
      var (j, l) := places[t];
      if HasRef(root, j) && l < |SCRIPTS| {
        if j != i {
          RefsDiffer(root, i, j);
        } else {
          ScriptsDiffer(l, k);
        }
      }
    }
  }

  lemma {:induction false} AppliedOutside(root: Option<Node>, a: Attributes, b: Attributes, places: seq<(nat, nat)>,
      count: nat)
    requires count <= |places| && Applied(root, a, b, places, count)
    ensures SameTable(root, a, b)
  {
  }

  lemma {:induction false} PlaceDangles(
    root: Option<Node>, a: Attributes, issues: seq<Issue>, places: seq<(nat, nat)>, i: nat, k: nat)
    requires SoundChars(a, CharPrs(root)) && Match(a, Fontfaces(root), CharPrs(root), issues, places)
    requires i < |CharPrs(root)| && k < |SCRIPTS|
    ensures HasRef(root, i) && ((i, k) in places <==> Dangles(root, a, i, k))
  {
    hide Fine, Matching, Ordered, NonNegativeInteger, DistinctIds, Reports;
    assert Numeral(a, FontRefs(CharPrs(root)[i])[0], k);
  }

  lemma {:induction false} PlaceExists(
    root: Option<Node>, a: Attributes, issues: seq<Issue>, places: seq<(nat, nat)>, t: nat)
    requires SoundChars(a, CharPrs(root)) && Match(a, Fontfaces(root), CharPrs(root), issues, places) && t < |places|
    ensures HasRef(root, places[t].0) && places[t].0 < |CharPrs(root)| && places[t].1 < |SCRIPTS|
    ensures |issues| == |places| && Reports(a, CharPrs(root), issues[t], places[t])
  {
    hide Fine, Matching, Ordered, NonNegativeInteger, DistinctIds, IssueAt;
    assert Reports(a, CharPrs(root), issues[t], places[t]);
  }

  lemma {:induction false} HitIsDangling(
    root: Option<Node>, a: Attributes, issues: seq<Issue>, places: seq<(nat, nat)>, key: nat, name: string)
    requires SoundChars(a, CharPrs(root)) && Match(a, Fontfaces(root), CharPrs(root), issues, places)
    ensures Hit(root, places, |places|, key, name) <==> IsDangling(root, a, key, name)
  {
    hide SoundChars, Match, Dangles, Ref, HasRef;
    if Hit(root, places, |places|, key, name) {
      var t :| 0 <= t < |places| && IsPlace(root, places[t], key, name);
      PlaceExists(root, a, issues, places, t);
      var (i, k) := places[t];
      assert (i, k) in places;
      PlaceDangles(root, a, issues, places, i, k);
    }
    if IsDangling(root, a, key, name) {
      var i: nat, k: nat :| HasRef(root, i) && k < |SCRIPTS| && Ref(root, i).key == key && SCRIPTS[k].0 == name
        && Dangles(root, a, i, k);
      assert i < |CharPrs(root)| by { HasRefMeans(root, i); }
      PlaceDangles(root, a, issues, places, i, k);
      var t :| 0 <= t < |places| && places[t] == (i, k);
      assert IsPlace(root, places[t], key, name);
    }
  }

  lemma HasRefMeans(root: Option<Node>, i: nat)
    requires HasRef(root, i)
    ensures i < |CharPrs(root)|
  {
  }

  lemma {:induction false} AppliedAll(root: Option<Node>, a: Attributes, b: Attributes, issues: seq<Issue>,
      places: seq<(nat, nat)>)
    requires SoundChars(a, CharPrs(root)) && Match(a, Fontfaces(root), CharPrs(root), issues, places)
    requires Applied(root, a, b, places, |places|)
    ensures RepairOf(root, a, b)
  {
    hide SoundChars, Match, Hit, IsDangling, Get;
    forall key, name ensures Hit(root, places, |places|, key, name) <==> IsDangling(root, a, key, name) {
      HitIsDangling(root, a, issues, places, key, name);
    }
  }

  method FindCharPr(a: Attributes, charPrs: Elements, id: string) returns (found: Option<Node>)
    ensures found.None? ==> forall i | 0 <= i < |charPrs| :: GetAttribute(a, charPrs[i], "id") != Some(id)
    ensures found.Some? ==> exists i :: 0 <= i < |charPrs| && charPrs[i] == found.value &&
                                        GetAttribute(a, charPrs[i], "id") == Some(id) &&
                                        forall j | 0 <= j < i :: GetAttribute(a, charPrs[j], "id") != Some(id)
  {
    for i := 0 to |charPrs|
      invariant forall j | 0 <= j < i :: GetAttribute(a, charPrs[j], "id") != Some(id)
    {
      if GetAttribute(a, charPrs[i], "id") == Some(id) {
        return Some(charPrs[i]);
      }
    }
    found := None;
  }

  /** The change that an issue leads to. */
  function ChangeFor(issue: Issue): Change {
    Change(TextOr(issue.charPrId), TextOr(issue.script), TextOr(issue.fontId))
  }

  function Unrepairable(issues: seq<Issue>): seq<Issue>
    ensures Unrepairable(issues) == [] <==> AllRepairable(issues)
  {
    if issues == [] then []
    else
      var k := |issues| - 1;
      assert issues == issues[..k] + [issues[k]];
      Unrepairable(issues[..k]) + if Repairable(issues[k]) then [] else [issues[k]]
  }

  /** Splits the issues; when all are repairable, `repairable` is all of them. */
  method SplitIssues(issues: seq<Issue>) returns (repairable: seq<Issue>, others: seq<Issue>)
    ensures others == Unrepairable(issues)
    ensures others == [] ==> repairable == issues
  {
    repairable, others := [], [];
    for k := 0 to |issues|
      invariant others == Unrepairable(issues[..k])
      invariant others == [] ==> repairable == issues[..k]
    {
      assert issues[..k + 1][..k] == issues[..k];
      if Repairable(issues[k]) {
        repairable := repairable + [issues[k]];
      } else {
        others := others + [issues[k]];
      }
    }
    assert issues[..|issues|] == issues;
  }

  /** The property that an issue names is found, and its attribute is the one that was reported. */
  lemma {:induction false} FoundAgain(
    root: Option<Node>, a: Attributes, b: Attributes, issues: seq<Issue>, places: seq<(nat, nat)>, t: nat,
      found: Option<Node>)
    requires IsHeader(root) && OwnKeys(root.value) && SoundChars(a, CharPrs(root))
    requires Match(a, Fontfaces(root), CharPrs(root), issues, places) && t < |places| && Applied(root, a, b, places, t)
    requires found.None? ==> forall i | 0 <= i < |CharPrs(root)| ::
             GetAttribute(b, CharPrs(root)[i], "id") != issues[t].charPrId
    requires found.Some? ==>
               exists i :: 0 <= i < |CharPrs(root)| && CharPrs(root)[i] == found.value &&
                           GetAttribute(b, CharPrs(root)[i], "id") == issues[t].charPrId
    ensures HasRef(root, places[t].0) && places[t].1 < |SCRIPTS|
    ensures found == Some(CharPrs(root)[places[t].0])
    ensures GetAttribute(b, Ref(root, places[t].0), SCRIPTS[places[t].1].0) == issues[t].fontId
    ensures issues[t].script == Some(SCRIPTS[places[t].1].0)
  {
    hide Match, OwnKeys, SameTable, Hit, Matching, Applied, SoundChars, NonNegativeInteger, Ordered;
    PlaceExists(root, a, issues, places, t);
    AppliedOutside(root, a, b, places, t);
    CharIdsStay(root, a, b);
    EveryCharHasRef(a, CharPrs(root));
    MatchOrdered(a, Fontfaces(root), CharPrs(root), issues, places);
    NotYetHit(root, places, t);
    AppliedAt(root, a, b, places, t, Ref(root, places[t].0).key, SCRIPTS[places[t].1].0);
    CharFoundAgain(a, b, CharPrs(root), places[t].0, found);
  }

  lemma {:induction false} EveryCharHasRef(a: Attributes, charPrs: Elements)
    requires SoundChars(a, charPrs)
    ensures forall i | 0 <= i < |charPrs| :: FontRefs(charPrs[i]) != []
  {
  }

  lemma {:induction false} AppliedAt(
    root: Option<Node>, a: Attributes, b: Attributes, places: seq<(nat, nat)>, t: nat, key: nat, name: string)
    requires t <= |places| && Applied(root, a, b, places, t) && !Hit(root, places, t, key, name)
    ensures Get(b, key, name) == Get(a, key, name)
  {
  }

  lemma {:induction false} CharFoundAgain(a: Attributes, b: Attributes, charPrs: Elements, i: nat, found: Option<Node>)
    requires SoundChars(a, charPrs) && i < |charPrs|
    requires forall j | 0 <= j < |charPrs| :: IdOf(b, charPrs[j]) == IdOf(a, charPrs[j])
    requires found.None? ==> forall j | 0 <= j < |charPrs| ::
             GetAttribute(b, charPrs[j], "id") != Some(IdOf(a, charPrs[i]))
    requires found.Some? ==>
               exists j :: 0 <= j < |charPrs| && charPrs[j] == found.value &&
                           GetAttribute(b, charPrs[j], "id") == Some(IdOf(a, charPrs[i]))
    ensures found == Some(charPrs[i])
  {
    hide Matching;
    assert IdOf(b, charPrs[i]) == IdOf(a, charPrs[i]);
    EmptyIsNoNumeral();
    if found.Some? {
      var j :| 0 <= j < |charPrs| && charPrs[j] == found.value
        && GetAttribute(b, charPrs[j], "id") == Some(IdOf(a, charPrs[i]));
      assert IdOf(a, charPrs[j]) == IdOf(a, charPrs[i]);
    }
  }

  lemma {:induction false} MatchOrdered(
    a: Attributes, fontfaces: Elements, charPrs: Elements, issues: seq<Issue>, places: seq<(nat, nat)>)
    requires forall i | 0 <= i < |charPrs| :: FontRefs(charPrs[i]) != []
    requires Match(a, fontfaces, charPrs, issues, places)
    ensures Ordered(places) && |issues| == |places|
  {
  }

  lemma {:induction false} NothingApplied(root: Option<Node>, a: Attributes, places: seq<(nat, nat)>)
    ensures Applied(root, a, a, places, 0)
  {
  }

  lemma {:induction false} ReportedId(a: Attributes, charPrs: Elements, issue: Issue, place: (nat, nat))
    requires forall i | 0 <= i < |charPrs| :: FontRefs(charPrs[i]) != []
    requires Reports(a, charPrs, issue, place)
    ensures issue.charPrId.Some? && issue.charPrId == Some(TextOr(issue.charPrId))
    ensures issue.script == Some(TextOr(issue.script))
  {
  }

  lemma {:induction false} RefIsFirst(root: Option<Node>, i: nat)
    requires HasRef(root, i)
    ensures i < |CharPrs(root)| && HeaderChildren(CharPrs(root)[i], "fontRef") != []
    ensures HeaderChildren(CharPrs(root)[i], "fontRef")[0] == Ref(root, i)
  {
  }

  lemma {:induction false} LoopStarts(root: Option<Node>, a: Attributes, issues: seq<Issue>)
    returns (places: seq<(nat, nat)>)
    requires Sound(root, a) && issues == Issues(root, a)
    ensures IsHeader(root) && SoundChars(a, CharPrs(root))
    ensures forall i | 0 <= i < |CharPrs(root)| :: FontRefs(CharPrs(root)[i]) != []
    ensures Match(a, Fontfaces(root), CharPrs(root), issues, places)
    ensures |issues| == |places| && Applied(root, a, a, places, 0)
  {
    hide Issues, Places, CharIssues, Match, Matching, Applied;
    places := Places(a, Fontfaces(root), CharPrs(root));
    RepairableMeans(root, a);
    PlacesMatch(a, Fontfaces(root), CharPrs(root));
    MatchOrdered(a, Fontfaces(root), CharPrs(root), issues, Places(a, Fontfaces(root), CharPrs(root)));
    NothingApplied(root, a, Places(a, Fontfaces(root), CharPrs(root)));
  }

  /** Looks one reported reference up again and sets it to "0". */
  method SetReference(
    doc: Document, charPrs: Elements, issue: Issue, ghost a: Attributes, ghost issues: seq<Issue>,
      ghost places: seq<(nat, nat)>,
    ghost t: nat)
    returns (lost: bool)
    requires IsHeader(doc.root) && OwnKeys(doc.root.value) && charPrs == CharPrs(doc.root) && SoundChars(a, charPrs)
    requires forall i | 0 <= i < |charPrs| :: FontRefs(charPrs[i]) != []
    requires Match(a, Fontfaces(doc.root), charPrs, issues, places)
    requires t < |issues| == |places| && issue == issues[t]
    requires Applied(doc.root, a, doc.attributes, places, t)
    modifies doc
    ensures !lost && Applied(doc.root, a, doc.attributes, places, t + 1)
  {
    hide *;
    PlaceExists(doc.root, a, issues, places, t);
    ReportedId(a, charPrs, issue, places[t]);
    var found := FindCharPr(doc.attributes, charPrs, TextOr(issue.charPrId));
    var fontRefs: Elements := [];
    if found.Some? {
      fontRefs := DirectHeaderChildren(found.value, "fontRef");
    }
    var script := TextOr(issue.script);
    lost := |fontRefs| == 0 || GetAttribute(doc.attributes, fontRefs[0], script) != issue.fontId;
    FoundAgain(doc.root, a, doc.attributes, issues, places, t, found);
    RefIsFirst(doc.root, places[t].0);
    if !lost {
      ghost var before := doc.attributes;
      doc.SetAttribute(fontRefs[0], script, "0");
      AppliedMore(doc.root, a, before, doc.attributes, places, t);
    }
  }

  /** Sets the reported references to "0" one by one, each after looking it up again. */
  method SetReferences(doc: Document, issues: seq<Issue>) returns (changed: Option<Issue>, changes: seq<Change>)
    requires Sound(doc.root, doc.attributes) && OwnKeys(doc.root.value)
    requires issues == Issues(doc.root, doc.attributes)
    modifies doc
    ensures changed.None? && RepairOf(doc.root, old(doc.attributes), doc.attributes)
    ensures |changes| == |issues| && forall t | 0 <= t < |issues| :: changes[t] == ChangeFor(issues[t])
  {
    hide *;
    ghost var root, a := doc.root, doc.attributes;
    ghost var places := LoopStarts(root, a, issues);
    var charPrs := HeaderCharacterProperties(doc.root);
    changes := [];
    for t := 0 to |issues|
      invariant |changes| == t && forall u | 0 <= u < t :: changes[u] == ChangeFor(issues[u])
      invariant Applied(root, a, doc.attributes, places, t)
    {
      var lost := SetReference(doc, charPrs, issues[t], a, issues, places, t);
      changed := Some(issues[t]);
      if lost {
        return;
      }
      changes := changes + [ChangeFor(issues[t])];
    }
    AppliedAll(root, a, doc.attributes, issues, places);
    changed := None;
  }

  method HeaderIds(a: Attributes, charPrs: Elements) returns (ids: set<string>)
    ensures ids == Ids(a, charPrs)
  {
    hide NonNegativeInteger, Ids;
    ids := {};
    NoIds(a, charPrs);
    for k := 0 to |charPrs|
      invariant ids == Ids(a, charPrs[..k])
    {
      IdsOfMore(a, charPrs, k);
      var id := GetAttribute(a, charPrs[k], "id");
      EmptyIsNoNumeral();
      if id.Some? && NonNegativeInteger(id.value) {
        ids := ids + {id.value};
      }
    }
    assert charPrs[..|charPrs|] == charPrs;
  }

  lemma EmptyIsNoNumeral()
    ensures !NonNegativeInteger("")
  {
  }

  /** Inspects the header and the references of the body. */
  method InspectHwpxFontReferences(root: Option<Node>, a: Attributes, sections: seq<Section>)
    returns (issues: seq<Issue>)
    ensures issues == Issues(root, a) + BodyIssues(Ids(a, CharPrs(root)), sections)
  {
    hide Ids, Issues, CharPrs;
    issues := InspectDocument(root, a);
    var charPrs := HeaderCharacterProperties(root);
    var ids := HeaderIds(a, charPrs);
    var ofBody := InspectCharacterShapeReferences(ids, sections);
    issues := issues + ofBody;
  }

  /**
   Complete and minimal: the call succeeds exactly when all header issues are repairable references and
   either there are none or the body's own references resolve. Then the new header has no issue, every
   dangling reference reads "0", nothing else differs, and each issue is one change.
   */
  method NormalizeGeneratedFontReferences(doc: Document, sections: seq<Section>) returns (outcome: Outcome)
    requires doc.root.Some? ==> OwnKeys(doc.root.value)
    modifies doc
    ensures var issues := Issues(doc.root, old(doc.attributes));
            var body := BodyIssues(Ids(old(doc.attributes), CharPrs(doc.root)), sections);
            && (outcome.Unsafe? <==> !AllRepairable(issues))
            && (outcome.Unchanged? <==> issues == [])
            && (outcome.Normalized? <==> AllRepairable(issues) && issues != [] && body == [])
            && (outcome.StillInvalid? <==> AllRepairable(issues) && issues != [] && body != [])
            && (outcome.Unsafe? ==> outcome.issues == Unrepairable(issues))
            && (outcome.StillInvalid? ==> outcome.issues == body)
            && (outcome.Normalized? ==> |outcome.changes| == |issues| &&
                                        forall t | 0 <= t < |issues| :: outcome.changes[t] == ChangeFor(issues[t]))
    ensures outcome.Unsafe? || outcome.Unchanged? ==> doc.attributes == old(doc.attributes)
    ensures outcome.Normalized? || outcome.StillInvalid? ==>
              RepairOf(doc.root, old(doc.attributes), doc.attributes) && Issues(doc.root, doc.attributes) == []
  {
    hide Issues, Unrepairable, AllRepairable, Sound, OwnKeys, RepairOf, CharPrs, BodyIssues, Ids, ChangeFor;
    ghost var a := doc.attributes;
    var issues := InspectDocument(doc.root, doc.attributes);
    var repairable, others := SplitIssues(issues);
    NothingRepairable();
    if |others| > 0 {
      return Unsafe(others);
    }
    if |repairable| == 0 {
      return Unchanged;
    }
    RepairableMeans(doc.root, a);
    SoundHeader(doc.root, a);
    var changed, changes := SetReferences(doc, repairable);
    match changed {
      case Some(issue) => return ChangedMeanwhile(issue);
      case None =>
    }
    RepairIsComplete(doc.root, a, doc.attributes);
    SameCharIds(doc.root, a, doc.attributes);
    var remaining := InspectHwpxFontReferences(doc.root, doc.attributes, sections);
    if |remaining| > 0 {
      return StillInvalid(remaining);
    }
    outcome := Normalized(changes);
  }

  lemma {:induction false} SameCharIds(root: Option<Node>, a: Attributes, b: Attributes)
    requires IsHeader(root) && OwnKeys(root.value) && RepairOf(root, a, b)
    ensures Ids(b, CharPrs(root)) == Ids(a, CharPrs(root))
  {
    hide RepairOf, OwnKeys, SameTable, Ids;
    RepairTouchesRefs(root, a, b);
    CharIdsStay(root, a, b);
    forall id ensures id in Ids(a, CharPrs(root)) <==> id in Ids(b, CharPrs(root)) {
      InIds(a, CharPrs(root), id);
      InIds(b, CharPrs(root), id);
    }
  }

  /** The body part of an inspection is empty exactly when every reference of the body names a defined property. */
  lemma {:induction false} BodyMeans(root: Option<Node>, a: Attributes, sections: seq<Section>)
    ensures BodyIssues(Ids(a, CharPrs(root)), sections) == [] <==> BodyResolves(Ids(a, CharPrs(root)), sections)
  {
    BodyIssuesMean(Ids(a, CharPrs(root)), sections);
  }
}
