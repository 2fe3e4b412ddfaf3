/**
 The font table of a document header and the references to it: what an inspection reports, and the
 repair that points dangling references at font "0". The header is a tree of nodes whose shape is fixed;
 only attributes are ever set.
 */
module FontIntegrity {
  import opened Basics
  import opened Texts

  const HEADER_PATH: string := "Contents/header.xml"

  /** The attribute of a `fontRef` for each script, and the language of the font group it refers to. */
  const SCRIPTS: seq<(string, string)> := [
    ("hangul", "HANGUL"), ("latin", "LATIN"), ("hanja", "HANJA"), ("japanese", "JAPANESE"),
    ("other", "OTHER"), ("symbol", "SYMBOL"), ("user", "USER")]

  /** `inHead` tells whether an element is in the header namespace; other nodes are text, comments and so on. */
  datatype Node = Element(key: nat, local: string, inHead: bool, children: seq<Node>) | Other

  type Attributes = map<nat, map<string, string>>

  datatype Code =
    | HeaderNamespaceInvalid
    | FontfaceContainerMissing
    | FontfaceCountMismatch
    | FontfaceMissing
    | FontfaceDuplicate
    | FontCountMismatch
    | FontIdInvalid
    | FontIdDuplicate
    | FontIdZeroMissing
    | FontFaceNameMissing
    | CharPrIdInvalid
    | CharPrIdDuplicate
    | CharPrReferenceInvalid
    | FontRefMissing
    | FontRefDuplicate
    | FontRefAttributeMissing
    | FontRefInvalid

  datatype Issue = Issue(
    code: Code, path: string, charPrId: Option<string>, script: Option<string>, fontId: Option<string>)

  // ---------------------------------------------------------------- texts

  /** What `trim` leaves empty. */
  predicate Blank(s: string) {
    forall c | c in s :: IsSpace(c)
  }

  predicate IsDigit(c: char) {
    '0' <= c <= '9'
  }

  /** The decimal numerals without leading zeros. */
  predicate NonNegativeInteger(s: string) {
    s == "0" || (s != "" && '1' <= s[0] <= '9' && forall i | 0 <= i < |s| :: IsDigit(s[i]))
  }

  function Decimal(n: nat): string {
    var digit := [('0' as int + n % 10) as char];
    if n < 10 then digit else Decimal(n / 10) + digit
  }

  // ---------------------------------------------------------------- reading the tree

  function Get(a: Attributes, key: nat, name: string): Option<string> {
    if key in a && name in a[key] then Some(a[key][name]) else None
  }

  function GetAttribute(a: Attributes, n: Node, name: string): Option<string>
    requires n.Element?
  {
    Get(a, n.key, name)
  }

  function TextOr(o: Option<string>): string {
    if o.Some? then o.value else ""
  }

  predicate IsHeaderChild(n: Node, local: string) {
    n.Element? && n.local == local && n.inHead
  }

  type Elements = s: seq<Node> | forall i | 0 <= i < |s| :: s[i].Element?

  function Matching(nodes: seq<Node>, local: string): Elements {
    if nodes == [] then []
    else
      var last := nodes[|nodes| - 1];
      Matching(nodes[..|nodes| - 1], local) + if IsHeaderChild(last, local) then [last] else []
  }

  function HeaderChildren(parent: Node, local: string): Elements
    requires parent.Element?
  {
    Matching(parent.children, local)
  }

  predicate IsHeader(root: Option<Node>) {
    root.Some? && root.value.Element? && root.value.local == "head" && root.value.inHead
  }

  function RefList(root: Option<Node>): Option<Node>
    ensures RefList(root).Some? ==> RefList(root).value.Element?
  {
    if !IsHeader(root) || HeaderChildren(root.value, "refList") == [] then None
    else Some(HeaderChildren(root.value, "refList")[0])
  }

  function Containers(root: Option<Node>): Elements {
    if RefList(root).None? then [] else HeaderChildren(RefList(root).value, "fontfaces")
  }

  function Fontfaces(root: Option<Node>): Elements {
    if Containers(root) == [] then [] else HeaderChildren(Containers(root)[0], "fontface")
  }

  function CharPrs(root: Option<Node>): Elements {
    if RefList(root).None? || HeaderChildren(RefList(root).value, "charProperties") == [] then []
    else HeaderChildren(HeaderChildren(RefList(root).value, "charProperties")[0], "charPr")
  }

  // ---------------------------------------------------------------- what an inspection reports

  function HeaderIssue(code: Code): Issue {
    Issue(code, HEADER_PATH, None, None, None)
  }

  function FontIssue(code: Code, id: string): Issue {
    Issue(code, HEADER_PATH, None, None, Some(id))
  }

  function CharIssue(code: Code, id: string): Issue {
    Issue(code, HEADER_PATH, Some(id), None, None)
  }

  function IdOf(a: Attributes, n: Node): string
    requires n.Element?
  {
    TextOr(GetAttribute(a, n, "id"))
  }

  /** The well-formed identifiers among `nodes`. */
  function Ids(a: Attributes, nodes: Elements): set<string> {
    set i | 0 <= i < |nodes| && NonNegativeInteger(IdOf(a, nodes[i])) :: IdOf(a, nodes[i])
  }

  function Reported(when: bool, issue: Issue): seq<Issue> {
    if when then [issue] else []
  }

  function OneFont(a: Attributes, font: Node, ids: set<string>): seq<Issue>
    requires font.Element?
  {
    var id := IdOf(a, font);
    var face := GetAttribute(a, font, "face");
    (if !NonNegativeInteger(id) then [FontIssue(FontIdInvalid, id)]
     else Reported(id in ids, FontIssue(FontIdDuplicate, id)))
    + Reported(face.None? || Blank(face.value), FontIssue(FontFaceNameMissing, id))
  }

  function FontIssues(a: Attributes, fonts: Elements): seq<Issue> {
    if fonts == [] then []
    else
      var k := |fonts| - 1;
      FontIssues(a, fonts[..k]) + OneFont(a, fonts[k], Ids(a, fonts[..k]))
  }

  function Group(a: Attributes, fontfaces: Elements, language: string): Elements {
    if fontfaces == [] then []
    else
      var k := |fontfaces| - 1;
      Group(a, fontfaces[..k], language)
      + if GetAttribute(a, fontfaces[k], "lang") == Some(language) then [fontfaces[k]] else []
  }

  function Fonts(a: Attributes, fontfaces: Elements, language: string): Elements {
    var group := Group(a, fontfaces, language);
    if group == [] then [] else HeaderChildren(group[0], "font")
  }

  function GroupIssues(a: Attributes, fontfaces: Elements, language: string): seq<Issue> {
    var group := Group(a, fontfaces, language);
    if group == [] then [HeaderIssue(FontfaceMissing)]
    else
      var fonts := HeaderChildren(group[0], "font");
      Reported(|group| > 1, HeaderIssue(FontfaceDuplicate))
      + Reported(GetAttribute(a, group[0], "fontCnt") != Some(Decimal(|fonts|)), HeaderIssue(FontCountMismatch))
      + FontIssues(a, fonts)
      + Reported("0" !in Ids(a, fonts), HeaderIssue(FontIdZeroMissing))
  }

  function TableIssues(a: Attributes, fontfaces: Elements, languages: nat): seq<Issue>
    requires languages <= |SCRIPTS|
  {
    if languages == 0 then []
    else TableIssues(a, fontfaces, languages - 1) + GroupIssues(a, fontfaces, SCRIPTS[languages - 1].1)
  }

  /** A reference whose font group exists must name one of its fonts; any reference must be a numeral. */
  predicate Dangling(a: Attributes, fontfaces: Elements, language: string, fontId: string) {
    !NonNegativeInteger(fontId) ||
    (Group(a, fontfaces, language) != [] && fontId !in Ids(a, Fonts(a, fontfaces, language)))
  }

  function OneRef(a: Attributes, fontfaces: Elements, id: string, fontRef: Node, script: string,
      language: string): seq<Issue>
    requires fontRef.Element?
  {
    match GetAttribute(a, fontRef, script)
    case None => [Issue(FontRefAttributeMissing, HEADER_PATH, Some(id), Some(script), None)]
    case Some(fontId) =>
      Reported(Dangling(a, fontfaces, language, fontId),
               Issue(FontRefInvalid, HEADER_PATH, Some(id), Some(script), Some(fontId)))
  }

  function RefIssues(a: Attributes, fontfaces: Elements, id: string, fontRef: Node, scripts: nat): seq<Issue>
    requires fontRef.Element? && scripts <= |SCRIPTS|
  {
    if scripts == 0 then []
    else
      var (script, language) := SCRIPTS[scripts - 1];
      RefIssues(a, fontfaces, id, fontRef, scripts - 1) + OneRef(a, fontfaces, id, fontRef, script, language)
  }

  function OneChar(a: Attributes, fontfaces: Elements, charPr: Node, seen: set<string>): seq<Issue>
    requires charPr.Element?
  {
    var id := IdOf(a, charPr);
    var fontRefs := HeaderChildren(charPr, "fontRef");
    (if !NonNegativeInteger(id) then [CharIssue(CharPrIdInvalid, id)]
     else Reported(id in seen, CharIssue(CharPrIdDuplicate, id)))
    + if fontRefs == [] then [CharIssue(FontRefMissing, id)]
      else
        Reported(|fontRefs| > 1, CharIssue(FontRefDuplicate, id))
        + RefIssues(a, fontfaces, id, fontRefs[0], |SCRIPTS|)
  }

  function CharIssues(a: Attributes, fontfaces: Elements, charPrs: Elements): seq<Issue> {
    if charPrs == [] then []
    else
      var k := |charPrs| - 1;
      CharIssues(a, fontfaces, charPrs[..k]) + OneChar(a, fontfaces, charPrs[k], Ids(a, charPrs[..k]))
  }

  function Issues(root: Option<Node>, a: Attributes): seq<Issue> {
    if !IsHeader(root) then [HeaderIssue(HeaderNamespaceInvalid)]
    else if Containers(root) == [] then [HeaderIssue(FontfaceContainerMissing)]
    else
      Reported(|Containers(root)| != 1, HeaderIssue(FontfaceCountMismatch))
      + Reported(GetAttribute(a, Containers(root)[0], "itemCnt") != Some(Decimal(|Fontfaces(root)|)),
                 HeaderIssue(FontfaceCountMismatch))
      + TableIssues(a, Fontfaces(root), |SCRIPTS|)
      + CharIssues(a, Fontfaces(root), CharPrs(root))
  }

  predicate Repairable(issue: Issue) {
    && issue.code == FontRefInvalid
    && issue.charPrId.Some? && NonNegativeInteger(issue.charPrId.value)
    && issue.script.Some?
    && issue.fontId.Some? && NonNegativeInteger(issue.fontId.value)
  }

  // ---------------------------------------------------------------- the loops

  method DirectHeaderChildren(parent: Node, local: string) returns (result: Elements)
    requires parent.Element?
    ensures result == HeaderChildren(parent, local)
  {
    result := [];
    for i := 0 to |parent.children|
      invariant result == Matching(parent.children[..i], local)
    {
      assert parent.children[..i + 1][..i] == parent.children[..i];
      if IsHeaderChild(parent.children[i], local) {
        result := result + [parent.children[i]];
      }
    }
    assert parent.children[..|parent.children|] == parent.children;
  }

  lemma {:induction false} IdsOfMore(a: Attributes, nodes: Elements, k: nat)
    requires k < |nodes|
    ensures Ids(a, nodes[..k + 1]) ==
            Ids(a, nodes[..k]) + if NonNegativeInteger(IdOf(a, nodes[k])) then {IdOf(a, nodes[k])} else {}
  {
    var more := nodes[..k + 1];
    forall id | id in Ids(a, nodes[..k]) ensures id in Ids(a, more) {
      var i :| 0 <= i < k && IdOf(a, nodes[..k][i]) == id && NonNegativeInteger(id);
      assert IdOf(a, more[i]) == id;
    }
    assert more[k] == nodes[k];
    forall id | id in Ids(a, more) && !(NonNegativeInteger(IdOf(a, nodes[k])) && id == IdOf(a, nodes[k]))
      ensures id in Ids(a, nodes[..k])
    {
      var i :| 0 <= i < k + 1 && IdOf(a, more[i]) == id && NonNegativeInteger(id);
      assert IdOf(a, nodes[..k][i]) == id;
    }
  }

  lemma {:induction false} FontIssuesTurn(a: Attributes, fonts: Elements, k: nat)
    requires k < |fonts|
    ensures FontIssues(a, fonts[..k + 1]) == FontIssues(a, fonts[..k]) + OneFont(a, fonts[k], Ids(a, fonts[..k]))
  {
    hide OneFont, Ids;
    assert fonts[..k + 1][..k] == fonts[..k];
  }

  lemma {:induction false} NoFontIssues(a: Attributes, fonts: Elements)
    ensures FontIssues(a, fonts[..0]) == []
  {
  }

  method InspectFonts(a: Attributes, fonts: Elements) returns (issues: seq<Issue>, ids: set<string>)
    ensures issues == FontIssues(a, fonts) && ids == Ids(a, fonts)
  {
    hide Ids, FontIssues, NonNegativeInteger, Blank, GetAttribute;
    issues, ids := [], {};
    NoIds(a, fonts);
    NoFontIssues(a, fonts);
    for k := 0 to |fonts|
      invariant issues == FontIssues(a, fonts[..k]) && ids == Ids(a, fonts[..k])
    {
      FontIssuesTurn(a, fonts, k);
      ghost var before := issues;
      var id := TextOr(GetAttribute(a, fonts[k], "id"));
      if !NonNegativeInteger(id) {
        issues := issues + [FontIssue(FontIdInvalid, id)];
      } else if id in ids {
        issues := issues + [FontIssue(FontIdDuplicate, id)];
      } else {
        ids := ids + {id};
      }
      var face := GetAttribute(a, fonts[k], "face");
      if face.None? || Blank(face.value) {
        issues := issues + [FontIssue(FontFaceNameMissing, id)];
      }
      IdsOfMore(a, fonts, k);
      assert issues == before + OneFont(a, fonts[k], Ids(a, fonts[..k]));
    }
    assert fonts[..|fonts|] == fonts;
  }

  lemma {:induction false} NoIds(a: Attributes, nodes: Elements)
    ensures Ids(a, nodes[..0]) == {}
  {
  }

  method MatchingFontfaces(a: Attributes, fontfaces: Elements, language: string) returns (group: Elements)
    ensures group == Group(a, fontfaces, language)
  {
    group := [];
    for k := 0 to |fontfaces|
      invariant group == Group(a, fontfaces[..k], language)
    {
      assert fontfaces[..k + 1][..k] == fontfaces[..k];
      if GetAttribute(a, fontfaces[k], "lang") == Some(language) {
        group := group + [fontfaces[k]];
      }
    }
    assert fontfaces[..|fontfaces|] == fontfaces;
  }

  /** `table` holds the identifiers of the first font group of each of the first `languages` languages. */
  ghost predicate Tabled(a: Attributes, fontfaces: Elements, table: map<string, set<string>>, languages: nat)
    requires languages <= |SCRIPTS|
  {
    forall k | 0 <= k < languages ::
      && (SCRIPTS[k].1 in table <==> Group(a, fontfaces, SCRIPTS[k].1) != [])
      && (SCRIPTS[k].1 in table ==> table[SCRIPTS[k].1] == Ids(a, Fonts(a, fontfaces, SCRIPTS[k].1)))
  }

  lemma {:induction false} ScriptsDiffer(j: nat, k: nat)
    requires j < k < |SCRIPTS|
    ensures SCRIPTS[j].0 != SCRIPTS[k].0 && SCRIPTS[j].1 != SCRIPTS[k].1
  {
    var x, y, u, v := SCRIPTS[j].0, SCRIPTS[k].0, SCRIPTS[j].1, SCRIPTS[k].1;
    assert |x| != |y| || x[0] != y[0] || x[1] != y[1] || x[2] != y[2] || x[3] != y[3];
    assert |u| != |v| || u[0] != v[0] || u[1] != v[1] || u[2] != v[2] || u[3] != v[3];
  }

  method InspectGroup(a: Attributes, fontfaces: Elements, language: string)
    returns (issues: seq<Issue>, ids: Option<set<string>>)
    ensures issues == GroupIssues(a, fontfaces, language)
    ensures ids == if Group(a, fontfaces, language) == [] then None else Some(Ids(a, Fonts(a, fontfaces, language)))
  {
    hide Group, Ids, FontIssues, Matching, Decimal;
    var group := MatchingFontfaces(a, fontfaces, language);
    if |group| == 0 {
      return [HeaderIssue(FontfaceMissing)], None;
    }
    issues := [];
    if |group| > 1 {
      issues := issues + [HeaderIssue(FontfaceDuplicate)];
    }
    var fonts := DirectHeaderChildren(group[0], "font");
    if GetAttribute(a, group[0], "fontCnt") != Some(Decimal(|fonts|)) {
      issues := issues + [HeaderIssue(FontCountMismatch)];
    }
    var ofFonts, found := InspectFonts(a, fonts);
    issues := issues + ofFonts;
    if "0" !in found {
      issues := issues + [HeaderIssue(FontIdZeroMissing)];
    }
    ids := Some(found);
  }

  lemma {:induction false} TableOfMore(
    a: Attributes, fontfaces: Elements, table: map<string, set<string>>, k: nat, ids: Option<set<string>>)
    requires k < |SCRIPTS| && Tabled(a, fontfaces, table, k)
    requires forall j | k <= j < |SCRIPTS| :: SCRIPTS[j].1 !in table
    requires ids == if Group(a, fontfaces, SCRIPTS[k].1) == [] then None
             else Some(Ids(a, Fonts(a, fontfaces, SCRIPTS[k].1)))
    ensures var more := if ids.Some? then table[SCRIPTS[k].1 := ids.value] else table;
            Tabled(a, fontfaces, more, k + 1) && forall j | k + 1 <= j < |SCRIPTS| :: SCRIPTS[j].1 !in more
  {
    hide Group, Ids, Fonts;
    forall j | 0 <= j < |SCRIPTS| && j != k ensures SCRIPTS[j].1 != SCRIPTS[k].1 {
      if j < k { ScriptsDiffer(j, k); } else { ScriptsDiffer(k, j); }
    }
  }

  method InspectTable(a: Attributes, fontfaces: Elements) returns (issues: seq<Issue>, table: map<string, set<string>>)
    ensures issues == TableIssues(a, fontfaces, |SCRIPTS|)
    ensures Tabled(a, fontfaces, table, |SCRIPTS|)
  {
    hide Group, Ids, GroupIssues, Fonts, Tabled;
    issues, table := [], map[];
    assert Tabled(a, fontfaces, table, 0) by { NothingTabled(a, fontfaces); }
    for k := 0 to |SCRIPTS|
      invariant issues == TableIssues(a, fontfaces, k)
      invariant Tabled(a, fontfaces, table, k)
      invariant forall j | k <= j < |SCRIPTS| :: SCRIPTS[j].1 !in table
    {
      var found, ids := InspectGroup(a, fontfaces, SCRIPTS[k].1);
      TableOfMore(a, fontfaces, table, k, ids);
      issues := issues + found;
      if ids.Some? {
        table := table[SCRIPTS[k].1 := ids.value];
      }
    }
  }

  lemma {:induction false} NothingTabled(a: Attributes, fontfaces: Elements)
    ensures Tabled(a, fontfaces, map[], 0)
  {
  }

  method InspectRefs(a: Attributes, ghost fontfaces: Elements, table: map<string, set<string>>, id: string,
      fontRef: Node)
    returns (issues: seq<Issue>)
    requires fontRef.Element? && Tabled(a, fontfaces, table, |SCRIPTS|)
    ensures issues == RefIssues(a, fontfaces, id, fontRef, |SCRIPTS|)
  {
    hide NonNegativeInteger, Group, Ids;
    issues := [];
    for k := 0 to |SCRIPTS|
      invariant issues == RefIssues(a, fontfaces, id, fontRef, k)
    {
      var (script, language) := SCRIPTS[k];
      var fontId := GetAttribute(a, fontRef, script);
      if fontId.None? {
        issues := issues + [Issue(FontRefAttributeMissing, HEADER_PATH, Some(id), Some(script), None)];
        continue;
      }
      if !NonNegativeInteger(fontId.value) || (language in table && fontId.value !in table[language]) {
        issues := issues + [Issue(FontRefInvalid, HEADER_PATH, Some(id), Some(script), fontId)];
      }
    }
  }

  method InspectChar(
    a: Attributes, ghost fontfaces: Elements, table: map<string, set<string>>, charPr: Node, seen: set<string>)
    returns (issues: seq<Issue>, id: string)
    requires charPr.Element? && Tabled(a, fontfaces, table, |SCRIPTS|)
    ensures issues == OneChar(a, fontfaces, charPr, seen) && id == IdOf(a, charPr)
  {
    hide RefIssues, Matching, NonNegativeInteger, Tabled;
    issues := [];
    id := TextOr(GetAttribute(a, charPr, "id"));
    if !NonNegativeInteger(id) {
      issues := [CharIssue(CharPrIdInvalid, id)];
    } else if id in seen {
      issues := [CharIssue(CharPrIdDuplicate, id)];
    }
    var fontRefs := DirectHeaderChildren(charPr, "fontRef");
    if |fontRefs| == 0 {
      issues := issues + [CharIssue(FontRefMissing, id)];
      return;
    }
    var found: seq<Issue> := [];
    if |fontRefs| > 1 {
      found := [CharIssue(FontRefDuplicate, id)];
    }
    var ofRefs := InspectRefs(a, fontfaces, table, id, fontRefs[0]);
    issues := issues + (found + ofRefs);
  }

  method InspectChars(a: Attributes, ghost fontfaces: Elements, table: map<string, set<string>>, charPrs: Elements)
    returns (issues: seq<Issue>)
    requires Tabled(a, fontfaces, table, |SCRIPTS|)
    ensures issues == CharIssues(a, fontfaces, charPrs)
  {
    hide Ids, NonNegativeInteger, OneChar, Tabled;
    issues := [];
    var seen := {};
    NoIds(a, charPrs);
    for k := 0 to |charPrs|
      invariant issues == CharIssues(a, fontfaces, charPrs[..k]) && seen == Ids(a, charPrs[..k])
    {
      assert charPrs[..k + 1][..k] == charPrs[..k];
      IdsOfMore(a, charPrs, k);
      var found, id := InspectChar(a, fontfaces, table, charPrs[k], seen);
      issues := issues + found;
      if NonNegativeInteger(id) {
        seen := seen + {id};
      }
    }
    assert charPrs[..|charPrs|] == charPrs;
  }

  method HeaderCharacterProperties(root: Option<Node>) returns (charPrs: Elements)
    ensures charPrs == CharPrs(root)
  {
    if !IsHeader(root) {
      return [];
    }
    var refLists := DirectHeaderChildren(root.value, "refList");
    if |refLists| == 0 {
      return [];
    }
    var containers := DirectHeaderChildren(refLists[0], "charProperties");
    if |containers| == 0 {
      return [];
    }
    charPrs := DirectHeaderChildren(containers[0], "charPr");
  }

  method InspectDocument(root: Option<Node>, a: Attributes) returns (issues: seq<Issue>)
    ensures issues == Issues(root, a)
  {
    hide Matching, TableIssues, CharIssues, Tabled, Decimal;
    if !IsHeader(root) {
      return [HeaderIssue(HeaderNamespaceInvalid)];
    }
    var refLists := DirectHeaderChildren(root.value, "refList");
    var containers: Elements := [];
    if |refLists| > 0 {
      containers := DirectHeaderChildren(refLists[0], "fontfaces");
    }
    if |containers| == 0 {
      return [HeaderIssue(FontfaceContainerMissing)];
    }
    issues := [];
    if |containers| != 1 {
      issues := issues + [HeaderIssue(FontfaceCountMismatch)];
    }
    var fontfaces := DirectHeaderChildren(containers[0], "fontface");
    if GetAttribute(a, containers[0], "itemCnt") != Some(Decimal(|fontfaces|)) {
      issues := issues + [HeaderIssue(FontfaceCountMismatch)];
    }
    var ofTable, table := InspectTable(a, fontfaces);
    issues := issues + ofTable;
    var charPrs := HeaderCharacterProperties(root);
    var ofChars := InspectChars(a, fontfaces, table, charPrs);
    issues := issues + ofChars;
  }
}
