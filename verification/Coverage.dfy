/**
 * Which content a verified signature covers (src/crypto/verify.rs): the duplicate-ID walk,
 * reference targets and the content handed on for extraction.
 */
module Coverage {
  import opened Prelude
  import opened XmlDom
  import opened XmlSpans
  import opened Preflight

  function Attr(n: Node, name: string): Option<string> {
    AttrIn(n.attrs, name)
  }

  function AttrIn(attrs: seq<(string, string)>, name: string): (r: Option<string>)
    ensures r.Some? ==> (name, r.value) in attrs
  {
    if attrs == [] then None else if attrs[0].0 == name then Some(attrs[0].1) else AttrIn(attrs[1..], name)
  }

  // ----- identifiers

  /** The part of a name after its last colon. */
  function LastPart(name: string): string {
    if name == "" then ""
    else if ':' in name[1..] then LastPart(name[1..])
    else if name[0] == ':' then name[1..]
    else name
  }

  predicate IdName(name: string) {
    LastPart(name) == "ID" || LastPart(name) == "AssertionID"
  }

  function OwnId(attr: (string, string)): seq<string> {
    if IdName(attr.0) && attr.1 != "" then [attr.1] else []
  }

  function IdsAmong(attrs: seq<(string, string)>): seq<string> {
    if attrs == [] then [] else OwnId(attrs[0]) + IdsAmong(attrs[1..])
  }

  /** The nodes of a tree, parents before children. */
  function AllNodes(n: Node): seq<Node> {
    [n] + AllOf(n.children)
  }

  function AllOf(nodes: seq<Node>): seq<Node> {
    if nodes == [] then [] else AllNodes(nodes[0]) + AllOf(nodes[1..])
  }

  /** All identifier values in a tree, in the order the walk meets them. */
  function Ids(nodes: seq<Node>): seq<string> {
    if nodes == [] then [] else IdsAmong(nodes[0].attrs) + Ids(nodes[1..])
  }

  function TreeIds(n: Node): seq<string> {
    Ids(AllNodes(n))
  }

  ghost predicate Distinct(ids: seq<string>) {
    forall i, j :: 0 <= i < j < |ids| ==> ids[i] != ids[j]
  }

  /** None of the values has been seen, and none repeats. */
  ghost predicate New(ids: seq<string>, seen: set<string>) {
    Distinct(ids) && forall id :: id in ids ==> id !in seen
  }

  function Elems(ids: seq<string>): set<string> {
    set id | id in ids
  }

  lemma NewSplits(a: seq<string>, b: seq<string>, seen: set<string>)
    requires New(a + b, seen)
    ensures New(a, seen) && New(b, seen + Elems(a))
  {
    var all := a + b;
    assert forall i :: 0 <= i < |a| ==> all[i] == a[i];
    forall id | id in b
      ensures id !in seen + Elems(a)
    {
      var j :| 0 <= j < |b| && b[j] == id;
      assert all[|a| + j] == id;
    }
    forall i, j | 0 <= i < j < |b|
      ensures b[i] != b[j]
    {
      assert all[|a| + i] != all[|a| + j];
    }
  }

  lemma NewJoins(a: seq<string>, b: seq<string>, seen: set<string>)
    requires New(a, seen) && New(b, seen + Elems(a))
    ensures New(a + b, seen)
  {
    var all := a + b;
    forall i, j | 0 <= i < j < |all|
      ensures all[i] != all[j]
    {
      if i < |a| <= j {
        assert all[i] in Elems(a) && b[j - |a|] in b;
      }
    }
  }

  lemma NewConcat(a: seq<string>, b: seq<string>, seen: set<string>)
    ensures New(a + b, seen) <==> New(a, seen) && New(b, seen + Elems(a))
    ensures Elems(a + b) == Elems(a) + Elems(b)
  {
    if New(a + b, seen) {
      NewSplits(a, b, seen);
    } else if New(a, seen) && New(b, seen + Elems(a)) {
      NewJoins(a, b, seen);
    }
  }

  lemma {:induction false} IdsConcat(a: seq<Node>, b: seq<Node>)
    ensures Ids(a + b) == Ids(a) + Ids(b)
  {
    hide IdsAmong;
    if a == [] {
      NothingBefore(b);
      NothingBefore(Ids(b));
    } else {
      ConsConcat(a, b);
      IdsConcat(a[1..], b);
      Associate(IdsAmong(a[0].attrs), Ids(a[1..]), Ids(b));
    }
  }

  lemma TreeIdsAre(n: Node)
    ensures TreeIds(n) == IdsAmong(n.attrs) + Ids(AllOf(n.children))
  {
    IdsConcat([n], AllOf(n.children));
    assert [n][1..] == [];
  }

  /** Recording one more piece of a longer list: it must be new, or the whole list is not. */
  lemma OneMore(before: seq<string>, one: seq<string>, rest: seq<string>, seenBefore: set<string>)
    requires New(before, seenBefore)
    ensures New(before + one, seenBefore) <==> New(one, seenBefore + Elems(before))
    ensures Elems(before + one) == Elems(before) + Elems(one)
    ensures New(before + one + rest, seenBefore) ==> New(before + one, seenBefore)
  {
    hide New, Elems;
    NewConcat(before, one, seenBefore);
    NewConcat(before + one, rest, seenBefore);
  }

  lemma NothingIsNew(seen: set<string>)
    ensures New([], seen) && Elems([]) == {} && IdsAmong([]) == [] && Ids(AllOf([])) == []
  {
  }

  lemma NewSingle(value: string, seen: set<string>)
    ensures New([value], seen) <==> value !in seen
    ensures Elems([value]) == {value}
  {
    assert [value][0] in [value];
    assert Elems([]) == {};
  }

  lemma IdsOfSingle(a: (string, string))
    ensures IdsAmong([a]) == OwnId(a)
  {
    assert IdsAmong([a][1..]) == [];
  }

  lemma IdsOfPrefix(attrs: seq<(string, string)>, i: nat)
    requires i < |attrs|
    ensures IdsAmong(attrs[..i + 1]) == IdsAmong(attrs[..i]) + OwnId(attrs[i])
    ensures IdsAmong(attrs) == IdsAmong(attrs[..i]) + OwnId(attrs[i]) + IdsAmong(attrs[i + 1..])
  {
    hide OwnId, IdsAmong;
    IdsOfSingle(attrs[i]);
    TakeOneMore(attrs, i);
    IdsAmongConcat(attrs[..i], [attrs[i]]);
    SplitAt(attrs, i + 1);
    IdsAmongConcat(attrs[..i + 1], attrs[i + 1..]);
  }

  /** The attribute loop of the walk. */
  method RecordOwnIds(attrs: seq<(string, string)>, seenBefore: set<string>)
      returns (duplicate: Option<string>, seen: set<string>)
    ensures duplicate.None? <==> New(IdsAmong(attrs), seenBefore)
    ensures duplicate.None? ==> seen == seenBefore + Elems(IdsAmong(attrs))
  {
    hide New, Elems, IdsAmong, IdName;
    NothingIsNew(seenBefore);
    seen := seenBefore;
    for i := 0 to |attrs|
      invariant New(IdsAmong(attrs[..i]), seenBefore)
      invariant seen == seenBefore + Elems(IdsAmong(attrs[..i]))
    {
      var (name, value) := attrs[i];
      IdsOfPrefix(attrs, i);
      OneMore(IdsAmong(attrs[..i]), OwnId(attrs[i]), IdsAmong(attrs[i + 1..]), seenBefore);
      NewSingle(value, seen);
      NothingAfter(IdsAmong(attrs[..i]));
      if IdName(name) && value != "" {
        if value in seen {
          return Some(value), seen;
        }
        seen := seen + {value};
      }
    }
    assert attrs[..|attrs|] == attrs;
    duplicate := None;
  }

  lemma IdsOfTree(n: Node)
    ensures Ids(AllOf([n])) == TreeIds(n)
  {
    hide Ids, AllNodes;
    assert AllOf([n][1..]) == [];
    assert AllOf([n]) == AllNodes(n);
  }

  lemma IdsOfChildPrefix(nodes: seq<Node>, i: nat)
    requires i < |nodes|
    ensures Ids(AllOf(nodes[..i + 1])) == Ids(AllOf(nodes[..i])) + TreeIds(nodes[i])
    ensures Ids(AllOf(nodes)) == Ids(AllOf(nodes[..i])) + TreeIds(nodes[i]) + Ids(AllOf(nodes[i + 1..]))
  {
    hide Ids, AllOf, TreeIds;
    IdsOfTree(nodes[i]);
    TakeOneMore(nodes, i);
    IdsOfForests(nodes[..i], [nodes[i]]);
    SplitAt(nodes, i + 1);
    IdsOfForests(nodes[..i + 1], nodes[i + 1..]);
  }

  lemma IdsOfForests(a: seq<Node>, b: seq<Node>)
    ensures Ids(AllOf(a + b)) == Ids(AllOf(a)) + Ids(AllOf(b))
  {
    hide Ids, AllOf;
    AllOfConcat(a, b);
    IdsConcat(AllOf(a), AllOf(b));
  }

  /**
   * The walk reports a duplicate exactly when an identifier repeats in the tree or was seen
   * before; otherwise it has recorded exactly the tree's identifiers.
   */
  method DuplicateSamlId(node: Node, seenBefore: set<string>) returns (duplicate: Option<string>, seen: set<string>)
    ensures duplicate.None? <==> New(TreeIds(node), seenBefore)
    ensures duplicate.None? ==> seen == seenBefore + Elems(TreeIds(node))
    decreases node
  {
    hide New, Elems, Ids, AllOf, IdsAmong, TreeIds;
    NothingIsNew(seenBefore);
    TreeIdsAre(node);
    NewConcat(IdsAmong(node.attrs), Ids(AllOf(node.children)), seenBefore);
    duplicate, seen := RecordOwnIds(node.attrs, seenBefore);
    if duplicate.Some? {
      return;
    }
    ghost var afterOwn := seen;
    NothingIsNew(afterOwn);
    for i := 0 to |node.children|
      invariant New(Ids(AllOf(node.children[..i])), afterOwn)
      invariant seen == afterOwn + Elems(Ids(AllOf(node.children[..i])))
    {
      IdsOfChildPrefix(node.children, i);
      OneMore(Ids(AllOf(node.children[..i])), TreeIds(node.children[i]), Ids(AllOf(node.children[i + 1..])), afterOwn);
      duplicate, seen := DuplicateSamlId(node.children[i], seen);
      if duplicate.Some? {
        return;
      }
    }
    assert node.children[..|node.children|] == node.children;
    duplicate := None;
  }

  lemma {:induction false} IdsAmongConcat(a: seq<(string, string)>, b: seq<(string, string)>)
    ensures IdsAmong(a + b) == IdsAmong(a) + IdsAmong(b)
  {
    if a == [] {
      NothingBefore(b);
      NothingBefore(IdsAmong(b));
    } else {
      ConsConcat(a, b);
      IdsAmongConcat(a[1..], b);
      Associate(OwnId(a[0]), IdsAmong(a[1..]), IdsAmong(b));
    }
  }

  lemma {:induction false} AllOfConcat(a: seq<Node>, b: seq<Node>)
    ensures AllOf(a + b) == AllOf(a) + AllOf(b)
  {
    hide AllNodes;
    if a == [] {
      NothingBefore(b);
      NothingBefore(AllOf(b));
    } else {
      ConsConcat(a, b);
      AllOfConcat(a[1..], b);
      Associate(AllNodes(a[0]), AllOf(a[1..]), AllOf(b));
    }
  }

  // ----- distinct identifiers name nodes

  lemma {:induction false} IdMembers(attrs: seq<(string, string)>, name: string, value: string)
    requires (name, value) in attrs && IdName(name) && value != ""
    ensures value in IdsAmong(attrs)
  {
    if attrs[0] != (name, value) {
      IdMembers(attrs[1..], name, value);
    }
  }

  lemma {:induction false} IdsOfMember(nodes: seq<Node>, i: nat, id: string)
    requires i < |nodes| && id in IdsAmong(nodes[i].attrs)
    ensures id in Ids(nodes)
  {
    if i > 0 {
      IdsOfMember(nodes[1..], i - 1, id);
    }
  }

  /** With pairwise distinct identifiers, two places of a node list cannot share one. */
  lemma {:induction false} DistinctIdsNameOnePlace(nodes: seq<Node>, i: nat, j: nat, id: string)
    requires Distinct(Ids(nodes)) && i <= j < |nodes|
    requires id in IdsAmong(nodes[i].attrs) && id in IdsAmong(nodes[j].attrs)
    ensures i == j
    decreases |nodes|
  {
    NewConcat(IdsAmong(nodes[0].attrs), Ids(nodes[1..]), {});
    if i == 0 {
      if j > 0 {
        IdsOfMember(nodes[1..], j - 1, id);
      }
    } else {
      DistinctIdsNameOnePlace(nodes[1..], i - 1, j - 1, id);
    }
  }

  // ----- what is covered

  function NodeSamlId(n: Node): Option<string> {
    if Attr(n, "ID").Some? then Attr(n, "ID") else Attr(n, "AssertionID")
  }

  predicate TargetMatches(targets: seq<Target>, n: Node) {
    WholeDocument in targets || IdTargetMatches(targets, n)
  }

  predicate IdTargetMatches(targets: seq<Target>, n: Node) {
    NodeSamlId(n).Some? && Id(NodeSamlId(n).value) in targets
  }

  predicate Contains(s: string, part: string) {
    part <= s || (s != "" && Contains(s[1..], part))
  }

  const CONSUMED_ROOTS: set<string> := {"AuthnRequest", "LogoutRequest", "LogoutResponse"}

  function RootContent(root: Node, xml: string, targets: seq<Target>): Result<Option<string>, SamlError>
    requires SpanIn(xml, root)
  {
    if TargetMatches(targets, root) then Ok(Some(Cut(xml, root))) else Err(SignedReferenceMismatch)
  }

  /** `verified_content`: the lone Assertion, a consumed root, or a Response with encrypted assertions. */
  function VerifiedContent(root: Node, xml: string, targets: seq<Target>): Result<Option<string>, SamlError>
    requires SpansIn(xml, [root])
  {
    assert root in [root];
    if root.localName == "Assertion" then RootContent(root, xml, targets)
    else
      var assertions := ChildrenNamed(root, "Assertion");
      if Contains(root.localName, "Response") && |assertions| > 1 then Err(PotentialWrappingAttack)
      else if Contains(root.localName, "Response") && |assertions| == 1 then
        NamedIff(root.children, "Assertion", assertions[0]);
        if IdTargetMatches(targets, assertions[0]) || TargetMatches(targets, root) then
            Ok(Some(Cut(xml, assertions[0])))
        else Err(SignedReferenceMismatch)
      else if Contains(root.localName, "Response") && ChildrenNamed(root, "EncryptedAssertion") != [] then
        RootContent(root, xml, targets)
      else if root.localName == "EntityDescriptor" then RootContent(root, xml, targets)
      else if root.localName in CONSUMED_ROOTS then RootContent(root, xml, targets)
      else Ok(None)
  }

  predicate AssertionDirectlyCovered(root: Node, targets: seq<Target>) {
    if root.localName == "Assertion" then TargetMatches(targets, root)
    else
      && Contains(root.localName, "Response")
      && |ChildrenNamed(root, "Assertion")| == 1
      && IdTargetMatches(targets, ChildrenNamed(root, "Assertion")[0])
  }

  predicate ResponseCovered(root: Node, targets: seq<Target>) {
    Contains(root.localName, "Response") && TargetMatches(targets, root)
  }

  /** `n` carries the identifier, and stands at the only place of the tree that does. */
  ghost predicate OnlyNodeNamed(root: Node, n: Node, id: string) {
    var nodes := AllNodes(root);
    && NodeSamlId(n) == Some(id)
    && exists i :: && 0 <= i < |nodes| && nodes[i] == n
                   && forall j :: 0 <= j < |nodes| && id in IdsAmong(nodes[j].attrs) ==> j == i
  }

  /** A verified reference names this node and no other. */
  ghost predicate Named(root: Node, n: Node, targets: seq<Target>) {
    exists id :: Id(id) in targets && OnlyNodeNamed(root, n, id)
  }

  ghost predicate UsableTargets(targets: seq<Target>) {
    forall t :: t in targets && t.Id? ==> t.id != ""
  }

  lemma {:induction false} ChildrenAreInTree(nodes: seq<Node>, c: Node)
    requires c in nodes
    ensures c in AllOf(nodes)
  {
    if nodes[0] != c {
      ChildrenAreInTree(nodes[1..], c);
    }
  }

  lemma MatchedNodeIsNamed(root: Node, n: Node, targets: seq<Target>)
    requires Distinct(TreeIds(root)) && n in AllNodes(root) && UsableTargets(targets) && IdTargetMatches(targets, n)
    ensures Named(root, n, targets)
  {
    var id := NodeSamlId(n).value;
    assert Id(id) in targets;
    OwnIdIsListed(n);
    var nodes := AllNodes(root);
    var i :| 0 <= i < |nodes| && nodes[i] == n;
    forall j | 0 <= j < |nodes| && id in IdsAmong(nodes[j].attrs)
      ensures j == i
    {
      if i <= j {
        DistinctIdsNameOnePlace(nodes, i, j, id);
      } else {
        DistinctIdsNameOnePlace(nodes, j, i, id);
      }
    }
    assert OnlyNodeNamed(root, n, id);
  }

  lemma OwnIdIsListed(n: Node)
    requires NodeSamlId(n).Some? && NodeSamlId(n).value != ""
    ensures NodeSamlId(n).value in IdsAmong(n.attrs)
  {
    assert "AssertionID"[0] == 'A' && "ID"[0] == 'I';
    assert LastPart("ID") == "ID" && LastPart("AssertionID") == "AssertionID" by {
      assert ':' !in "ID"[1..] && ':' !in "AssertionID"[1..];
    }
    if Attr(n, "ID").Some? {
      IdMembers(n.attrs, "ID", NodeSamlId(n).value);
    } else {
      IdMembers(n.attrs, "AssertionID", NodeSamlId(n).value);
    }
  }

  /** The content is the source of a node that a reference alone names, or lies in a covered root. */
  ghost predicate CoveredContent(root: Node, xml: string, targets: seq<Target>, content: string)
    requires SpansIn(xml, [root])
  {
    && root in [root]
    && exists n :: && (n == root || n in root.children) && content == Cut(xml, n)
                   && (Named(root, n, targets) || WholeDocument in targets || Named(root, root, targets))
  }

  /**
   * Whenever identifiers are pairwise distinct and verification hands on content, that
   * content is the source text of the only node a verified reference names, or of a node
   * inside a root or document that a verified reference covers.
   */
  lemma VerifiedContentIsCovered(root: Node, xml: string, targets: seq<Target>)
    requires SpansIn(xml, [root]) && Distinct(TreeIds(root)) && UsableTargets(targets)
    requires VerifiedContent(root, xml, targets).Ok? && VerifiedContent(root, xml, targets).value.Some?
    ensures CoveredContent(root, xml, targets, VerifiedContent(root, xml, targets).value.value)
  {
    assert root in [root];
    assert root in AllNodes(root);
    if IdTargetMatches(targets, root) {
      MatchedNodeIsNamed(root, root, targets);
    }
    var assertions := ChildrenNamed(root, "Assertion");
    if root.localName != "Assertion" && Contains(root.localName, "Response") && |assertions| == 1 {
      var a := assertions[0];
      NamedIff(root.children, "Assertion", a);
      ChildrenAreInTree(root.children, a);
      if IdTargetMatches(targets, a) {
        MatchedNodeIsNamed(root, a, targets);
      }
    }
  }

  /** Coverage reads targets as a set: order and repetition do not matter. */
  lemma CoverageReadsTargetsAsASet(root: Node, xml: string, a: seq<Target>, b: seq<Target>)
    requires SpansIn(xml, [root]) && forall t :: t in a <==> t in b
    ensures VerifiedContent(root, xml, a) == VerifiedContent(root, xml, b)
    ensures AssertionDirectlyCovered(root, a) == AssertionDirectlyCovered(root, b)
    ensures ResponseCovered(root, a) == ResponseCovered(root, b)
  {
  }
}
