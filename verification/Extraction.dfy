/**
 * Field extraction over the DOM (src/xml/extract.rs) and the value lists it fills
 * (src/util.rs). The key spelling of multi-attribute fields is a parameter.
 */
module Extraction {
  import opened Prelude
  import opened XmlDom
  import opened XmlSpans
  import opened Coverage

  type Path = seq<string>

  // ----- selecting nodes

  predicate SegmentMatches(localName: string, segment: string) {
    if segment != "" && segment[0] == '~' then Contains(localName, segment[1..]) else localName == segment
  }

  function Matching(nodes: seq<Node>, segment: string): seq<Node> {
    if nodes == [] then []
    else (if SegmentMatches(nodes[0].localName, segment) then [nodes[0]] else []) + Matching(nodes[1..], segment)
  }

  function AllChildren(nodes: seq<Node>): seq<Node> {
    if nodes == [] then [] else nodes[0].children + AllChildren(nodes[1..])
  }

  /** The nodes below `nodes` whose chain of names matches, depth first. */
  function Below(nodes: seq<Node>, path: Path): seq<Node>
    decreases |path|, |nodes|
  {
    if path == [] then nodes
    else if nodes == [] then []
    else Below(Matching(nodes[0].children, path[0]), path[1..]) + Below(nodes[1..], path)
  }

  /** `select_path`: the first segment names the root itself. */
  function Select(root: Node, path: Path): seq<Node> {
    if path == [] || !SegmentMatches(root.localName, path[0]) then [] else Below([root], path[1..])
  }

  lemma {:induction false} MatchingConcat(a: seq<Node>, b: seq<Node>, segment: string)
    ensures Matching(a + b, segment) == Matching(a, segment) + Matching(b, segment)
  {
    if a == [] {
      NothingBefore(b);
      NothingBefore(Matching(b, segment));
    } else {
      ConsConcat(a, b);
      MatchingConcat(a[1..], b, segment);
      var head := if SegmentMatches(a[0].localName, segment) then [a[0]] else [];
      Associate(head, Matching(a[1..], segment), Matching(b, segment));
    }
  }

  lemma {:induction false} BelowConcat(a: seq<Node>, b: seq<Node>, path: Path)
    ensures Below(a + b, path) == Below(a, path) + Below(b, path)
    decreases |a|
  {
    hide Matching;
    if a == [] {
      NothingBefore(b);
      NothingBefore(Below(b, path));
    } else if path != [] {
      ConsConcat(a, b);
      BelowConcat(a[1..], b, path);
      Associate(Below(Matching(a[0].children, path[0]), path[1..]), Below(a[1..], path), Below(b, path));
    }
  }

  /** One level of the loop is one step of the depth-first search. */
  lemma {:induction false} OneLevelDown(nodes: seq<Node>, path: Path)
    requires path != []
    ensures Below(nodes, path) == Below(Matching(AllChildren(nodes), path[0]), path[1..])
    decreases |nodes|
  {
    if nodes == [] {
      assert Matching(AllChildren([]), path[0]) == [];
      NothingBelow(path[1..]);
    } else {
      OneLevelDown(nodes[1..], path);
      MatchingConcat(nodes[0].children, AllChildren(nodes[1..]), path[0]);
      BelowConcat(Matching(nodes[0].children, path[0]), Matching(AllChildren(nodes[1..]), path[0]), path[1..]);
    }
  }

  lemma NothingBelow(path: Path)
    ensures Below([], path) == []
  {
  }

  /** The loop of `select_path` and of `descend`: level by level. */
  method Descend(nodes: seq<Node>, path: Path) returns (current: seq<Node>)
    ensures current == Below(nodes, path)
  {
    current := nodes;
    for i := 0 to |path|
      invariant Below(nodes, path) == Below(current, path[i..])
    {
      OneLevelDown(current, path[i..]);
      assert path[i..][0] == path[i] && path[i..][1..] == path[i + 1..];
      current := Matching(AllChildren(current), path[i]);
    }
  }

  method SelectPath(root: Node, path: Path) returns (selected: seq<Node>)
    ensures selected == Select(root, path)
  {
    if path == [] || !SegmentMatches(root.localName, path[0]) {
      return [];
    }
    selected := Descend([root], path[1..]);
  }

  // ----- exactly the matching nodes, once, in document order

  /** From `from` to `n`, each node a child of the one before that matches its segment. */
  predicate Chain(chain: seq<Node>, from: Node, path: Path, n: Node) {
    && |chain| == |path| + 1 && chain[0] == from && chain[|path|] == n
    && forall i :: 0 <= i < |path| ==>
        chain[i + 1] in chain[i].children && SegmentMatches(chain[i + 1].localName, path[i])
  }

  /** A chain of matching names leads from one node down to another. */
  ghost predicate LeadsTo(from: Node, path: Path, n: Node) {
    exists chain: seq<Node> :: Chain(chain, from, path, n)
  }

  lemma {:induction false} MatchingMembers(nodes: seq<Node>, segment: string, n: Node)
    ensures n in Matching(nodes, segment) <==> n in nodes && SegmentMatches(n.localName, segment)
  {
    if nodes != [] {
      MatchingMembers(nodes[1..], segment, n);
      assert nodes == [nodes[0]] + nodes[1..];
    }
  }

  lemma ChainGrows(from: Node, next: Node, path: Path, n: Node)
    requires path != [] && next in from.children && SegmentMatches(next.localName, path[0])
    requires LeadsTo(next, path[1..], n)
    ensures LeadsTo(from, path, n)
  {
    hide SegmentMatches;
    var chain: seq<Node> :| Chain(chain, next, path[1..], n);
    var longer := [from] + chain;
    forall i | 0 <= i < |path|
      ensures longer[i + 1] in longer[i].children && SegmentMatches(longer[i + 1].localName, path[i])
    {
      assert longer[i + 1] == chain[i];
      if i > 0 {
        assert longer[i] == chain[i - 1] && path[i] == path[1..][i - 1];
      }
    }
    assert Chain(longer, from, path, n);
  }

  lemma ChainShrinks(from: Node, path: Path, n: Node) returns (next: Node)
    requires path != [] && LeadsTo(from, path, n)
    ensures next in from.children && SegmentMatches(next.localName, path[0]) && LeadsTo(next, path[1..], n)
  {
    hide SegmentMatches;
    var chain: seq<Node> :| Chain(chain, from, path, n);
    var rest := chain[1..];
    next := rest[0];
    forall i | 0 <= i < |path[1..]|
      ensures rest[i + 1] in rest[i].children && SegmentMatches(rest[i + 1].localName, path[1..][i])
    {
      assert rest[i + 1] == chain[i + 2] && rest[i] == chain[i + 1] && path[1..][i] == path[i + 1];
    }
    assert Chain(rest, next, path[1..], n);
  }

  lemma NodeLeadsToItself(n: Node, m: Node)
    ensures LeadsTo(n, [], m) <==> n == m
  {
    if n == m {
      assert Chain([n], n, [], m);
    }
  }

  lemma {:induction false} BelowMembers(nodes: seq<Node>, path: Path, n: Node)
    ensures n in Below(nodes, path) <==> exists from :: from in nodes && LeadsTo(from, path, n)
    decreases |path|, |nodes|
  {
    hide LeadsTo, Matching;
    if path == [] {
      forall from | from in nodes
        ensures LeadsTo(from, path, n) <==> from == n
      {
        NodeLeadsToItself(from, n);
      }
    } else if nodes != [] {
      assert forall from :: from in nodes <==> from == nodes[0] || from in nodes[1..];
      BelowMembers(nodes[1..], path, n);
      var next := Matching(nodes[0].children, path[0]);
      BelowMembers(next, path[1..], n);
      if n in Below(next, path[1..]) {
        var m :| m in next && LeadsTo(m, path[1..], n);
        MatchingMembers(nodes[0].children, path[0], m);
        ChainGrows(nodes[0], m, path, n);
      }
      if LeadsTo(nodes[0], path, n) {
        var m := ChainShrinks(nodes[0], path, n);
        MatchingMembers(nodes[0].children, path[0], m);
      }
    }
  }

  /** Selection finds exactly the nodes whose chain of names from the root matches the path. */
  lemma SelectionIsExact(root: Node, path: Path, n: Node)
    ensures n in Select(root, path) <==>
            path != [] && SegmentMatches(root.localName, path[0]) && LeadsTo(root, path[1..], n)
  {
    hide LeadsTo;
    if path != [] {
      BelowMembers([root], path[1..], n);
    }
  }

  lemma OrderedJoin(a: seq<Node>, b: seq<Node>, from: nat, mid: nat, to: nat)
    requires Ordered(a) && Ordered(b) && Inside(a, from, mid) && Inside(b, mid, to) && from <= mid <= to
    ensures Ordered(a + b) && Inside(a + b, from, to)
  {
    var nodes := a + b;
    forall i, j | 0 <= i < j < |nodes|
      ensures nodes[i].end <= nodes[j].start
    {
      assert i < |a| ==> nodes[i] == a[i] && nodes[i] in a;
      assert j >= |a| ==> nodes[j] == b[j - |a|] && nodes[j] in b;
      assert j < |a| ==> nodes[j] == a[j];
      assert i >= |a| ==> nodes[i] == b[i - |a|];
    }
  }

  lemma OrderedTail(nodes: seq<Node>, from: nat, to: nat)
    requires nodes != [] && Ordered(nodes) && Inside(nodes, from, to)
    ensures Ordered(nodes[1..]) && Inside(nodes[1..], nodes[0].end, to) && WellNested(nodes[0])
    ensures from <= nodes[0].start < nodes[0].end <= to
  {
    var rest := nodes[1..];
    assert nodes[0] in nodes;
    forall n | n in rest
      ensures nodes[0].end <= n.start && n.end <= to && WellNested(n)
    {
      var i :| 0 <= i < |rest| && rest[i] == n;
      assert nodes[i + 1] == n && n in nodes;
    }
    forall i, j | 0 <= i < j < |rest|
      ensures rest[i].end <= rest[j].start
    {
      assert rest[i] == nodes[i + 1] && rest[j] == nodes[j + 1];
    }
  }

  lemma {:induction false} MatchingKeepsOrder(nodes: seq<Node>, segment: string, from: nat, to: nat)
    requires Ordered(nodes) && Inside(nodes, from, to) && from <= to
    ensures Ordered(Matching(nodes, segment)) && Inside(Matching(nodes, segment), from, to)
    decreases |nodes|
  {
    hide WellNested;
    if nodes != [] {
      var n := nodes[0];
      OrderedTail(nodes, from, to);
      MatchingKeepsOrder(nodes[1..], segment, n.end, to);
      var first := if SegmentMatches(n.localName, segment) then [n] else [];
      OrderedJoin(first, Matching(nodes[1..], segment), from, n.end, to);
    }
  }

  lemma {:induction false} BelowKeepsOrder(nodes: seq<Node>, path: Path, from: nat, to: nat)
    requires Ordered(nodes) && Inside(nodes, from, to) && from <= to
    ensures Ordered(Below(nodes, path)) && Inside(Below(nodes, path), from, to)
    decreases |path|, |nodes|
  {
    hide Matching;
    if path != [] && nodes != [] {
      var n := nodes[0];
      OrderedTail(nodes, from, to);
      BelowKeepsOrder(nodes[1..], path, n.end, to);
      ChildrenInside(n, from);
      MatchingKeepsOrder(n.children, path[0], from, n.end);
      BelowKeepsOrder(Matching(n.children, path[0]), path[1..], from, n.end);
      OrderedJoin(Below(Matching(n.children, path[0]), path[1..]), Below(nodes[1..], path), from, n.end, to);
    }
  }

  lemma ChildrenInside(n: Node, from: nat)
    requires WellNested(n) && from <= n.start
    ensures Ordered(n.children) && Inside(n.children, from, n.end)
  {
  }

  /** Selected nodes come once each and in document order: their spans are disjoint and increasing. */
  lemma SelectionIsInDocumentOrder(root: Node, path: Path)
    requires WellNested(root)
    ensures Ordered(Select(root, path)) && Inside(Select(root, path), root.start, root.end)
    ensures forall i, j :: 0 <= i < j < |Select(root, path)| ==>
        Select(root, path)[i].start < Select(root, path)[j].start
  {
    if path != [] && SegmentMatches(root.localName, path[0]) {
      BelowKeepsOrder([root], path[1..], root.start, root.end);
      var selected := Select(root, path);
      forall i, j | 0 <= i < j < |selected|
        ensures selected[i].start < selected[j].start
      {
        assert selected[i] in selected && WellNested(selected[i]);
      }
    }
  }
}
