/** Splicing text at recorded spans is surgery on the tree: signature placement (src/crypto/sign.rs). */
module XmlSplice {
  import opened Prelude
  import opened XmlEvents
  import opened XmlDom
  import opened XmlSpans

  // ----- finding nodes by name

  function FirstNode(nodes: seq<Node>, name: string): (r: Option<Node>)
    ensures r.Some? ==> r.value in nodes && r.value.localName == name
  {
    if nodes == [] then None
    else if nodes[0].localName == name then Some(nodes[0])
    else FirstNode(nodes[1..], name)
  }

  ghost predicate FirstNamedAt(nodes: seq<Node>, name: string, c: Node, i: int) {
    0 <= i < |nodes| && nodes[i] == c && c.localName == name && forall j :: 0 <= j < i ==> nodes[j].localName != name
  }

  ghost predicate FirstChild(n: Node, name: string, c: Node) {
    exists i :: FirstNamedAt(n.children, name, c, i)
  }

  lemma FirstNamedAtShifts(nodes: seq<Node>, name: string, c: Node, i: int)
    requires nodes != [] && nodes[0].localName != name
    ensures FirstNamedAt(nodes, name, c, i + 1) <==> FirstNamedAt(nodes[1..], name, c, i)
  {
    var rest := nodes[1..];
    if FirstNamedAt(nodes, name, c, i + 1) && 0 <= i < |rest| {
      assert forall j :: 0 <= j < i ==> rest[j] == nodes[j + 1];
    }
    if FirstNamedAt(rest, name, c, i) {
      assert nodes[i + 1] == rest[i];
      assert forall j :: 0 < j < i + 1 ==> nodes[j] == rest[j - 1];
    }
  }

  lemma {:induction false} FirstNodeIsFirst(nodes: seq<Node>, name: string, c: Node)
    ensures FirstNode(nodes, name) == Some(c) <==> exists i :: FirstNamedAt(nodes, name, c, i)
  {
    if nodes != [] {
      if nodes[0].localName == name {
        assert FirstNode(nodes, name) == Some(c) ==> FirstNamedAt(nodes, name, c, 0);
      } else {
        hide FirstNamedAt;
        FirstNodeIsFirst(nodes[1..], name, c);
        if i :| FirstNamedAt(nodes, name, c, i) {
          FirstNamedAtShifts(nodes, name, c, i - 1);
        }
        if i :| FirstNamedAt(nodes[1..], name, c, i) {
          FirstNamedAtShifts(nodes, name, c, i);
        }
      }
    }
  }

  lemma FirstNodeIsFirstChild(n: Node, name: string, c: Node)
    ensures FirstNode(n.children, name) == Some(c) <==> FirstChild(n, name, c)
  {
    FirstNodeIsFirst(n.children, name, c);
  }

  function ElementName(item: Item): Option<string> {
    match item
    case Element(open, _, _) => if open.event.StartTag? then Some(open.event.tag.localName) else None
    case Leaf(token) => if token.event.EmptyTag? then Some(token.event.tag.localName) else None
  }

  /** Index of the first element with a name. */
  function FirstNamed(items: seq<Item>, name: string): (r: Option<nat>)
    ensures r.Some? ==> r.value < |items| && ElementName(items[r.value]) == Some(name)
  {
    if items == [] then None
    else if ElementName(items[0]) == Some(name) then Some(0)
    else match FirstNamed(items[1..], name) case None => None case Some(k) => Some(k + 1)
  }

  /** The chain of first children with the given names; the first name is looked up among `nodes`. */
  function Resolve(nodes: seq<Node>, names: seq<string>): Option<Node>
    decreases |names|
  {
    if names == [] then None
    else
      match FirstNode(nodes, names[0])
      case None => None
      case Some(n) => if |names| == 1 then Some(n) else Resolve(n.children, names[1..])
  }

  /** `resolve_path`: the first name must be the root's own. */
  method ResolvePath(root: Node, names: seq<string>) returns (r: Option<Node>)
    ensures r == Resolve([root], names)
  {
    if names == [] {
      return None;
    }
    FirstNodeConcat([root], [], names[0]);
    assert [root] + [] == [root];
    if root.localName != names[0] {
      return None;
    }
    var current := root;
    for i := 1 to |names|
      invariant Resolve([root], names) == if i == |names| then Some(current) else Resolve(current.children, names[i..])
    {
      assert names[i..][0] == names[i] && names[i..][1..] == names[i + 1..];
      var next := FirstNode(current.children, names[i]);
      if next.None? {
        return None;
      }
      current := next.value;
    }
    r := Some(current);
  }

  lemma FirstNodeConcat(a: seq<Node>, b: seq<Node>, name: string)
    requires |a| <= 1
    ensures FirstNode(a + b, name) == if a != [] && a[0].localName == name then Some(a[0]) else FirstNode(b, name)
  {
    if a == [] {
      assert a + b == b;
    } else {
      assert (a + b)[1..] == b;
    }
  }

  lemma BuildItemName(item: Item, offset: nat)
    ensures |BuildItem(item, offset)| == if ElementName(item).Some? then 1 else 0
    ensures ElementName(item).Some? ==> BuildItem(item, offset)[0].localName == ElementName(item).value
  {
  }

  ghost predicate BuiltAt(item: Item, at: nat, n: Node) {
    |BuildItem(item, at)| == 1 && BuildItem(item, at)[0] == n
  }

  lemma WidthBefore(items: seq<Item>, j: nat)
    requires items != [] && j < |items[1..]|
    ensures |SourceOf(items[..j + 1])| == Width(items[0]) + |SourceOf(items[1..][..j])|
  {
    assert items[..j + 1] == [items[0]] + items[1..][..j];
    SourceOfCons(items[0], items[1..][..j]);
  }

  lemma FirstNodeSkips(items: seq<Item>, offset: nat, name: string)
    requires items != []
    ensures FirstNode(Build(items, offset), name)
         == if ElementName(items[0]) == Some(name) then Some(BuildItem(items[0], offset)[0])
            else FirstNode(Build(items[1..], offset + Width(items[0])), name)
  {
    hide ElementName, Width;
    BuildItemName(items[0], offset);
    FirstNodeConcat(BuildItem(items[0], offset), Build(items[1..], offset + Width(items[0])), name);
  }

  /** The first node of a name is built from the first item of that name, at its own offset. */
  lemma {:induction false} FirstNodeIsFirstNamed(items: seq<Item>, offset: nat, name: string)
    ensures FirstNode(Build(items, offset), name).Some? <==> FirstNamed(items, name).Some?
    ensures FirstNamed(items, name).Some? ==>
              var k := FirstNamed(items, name).value;
              BuiltAt(items[k], offset + |SourceOf(items[..k])|, FirstNode(Build(items, offset), name).value)
    decreases items
  {
    hide BuildItem, Width, ElementName, FlattenItem;
    if items != [] {
      FirstNodeSkips(items, offset, name);
      BuildItemName(items[0], offset);
      if ElementName(items[0]) == Some(name) {
        assert items[..0] == [];
      } else {
        FirstNodeIsFirstNamed(items[1..], offset + Width(items[0]), name);
        if FirstNamed(items[1..], name).Some? {
          WidthBefore(items, FirstNamed(items[1..], name).value);
        }
      }
    }
  }

  // ----- inserting next to an element

  datatype SignatureAction = After | Before

  /** `insert_position` for the two actions that do not search the source text. */
  function InsertPosition(n: Node, action: SignatureAction): nat {
    match action
    case After => n.end
    case Before => n.start
  }

  function Splice(source: string, position: nat, text: string): string
    requires position <= |source|
  {
    source[..position] + text + source[position..]
  }

  /** The tree with `inserted` as next (or previous) sibling of the element that `names` leads to. */
  function InsertSibling(
      items: seq<Item>, names: seq<string>, inserted: Item, action: SignatureAction): Option<seq<Item>>
    decreases |names|
  {
    if names == [] then None
    else
      match FirstNamed(items, names[0])
      case None => None
      case Some(k) =>
        if |names| == 1 then
          match action
          case After => Some(items[..k + 1] + [inserted] + items[k + 1..])
          case Before => Some(items[..k] + [inserted] + items[k..])
        else
          match items[k]
          case Leaf(_) => None
          case Element(open, body, close) =>
            match InsertSibling(body, names[1..], inserted, action)
            case None => None
            case Some(grown) => Some(items[..k] + [Element(open, grown, close)] + items[k + 1..])
  }

  lemma SourceAround(items: seq<Item>, k: nat)
    requires k < |items|
    ensures SourceOf(items) == SourceOf(items[..k]) + Source(FlattenItem(items[k])) + SourceOf(items[k + 1..])
    ensures SourceOf(items[..k + 1]) == SourceOf(items[..k]) + Source(FlattenItem(items[k]))
    ensures SourceOf(items[k..]) == Source(FlattenItem(items[k])) + SourceOf(items[k + 1..])
  {
    assert items[..k + 1] == items[..k] + [items[k]];
    assert items == items[..k + 1] + items[k + 1..];
    assert items[k..] == [items[k]] + items[k + 1..];
    SourceOfConcat(items[..k], [items[k]]);
    SourceOfConcat(items[..k + 1], items[k + 1..]);
    SourceOfCons(items[k], items[k + 1..]);
    SourceOfCons(items[k], []);
    assert [items[k]] + [] == [items[k]];
  }

  lemma SourceOfThree(a: seq<Item>, x: Item, b: seq<Item>)
    ensures SourceOf(a + [x] + b) == SourceOf(a) + Source(FlattenItem(x)) + SourceOf(b)
  {
    assert a + [x] + b == a + ([x] + b);
    SourceOfConcat(a, [x] + b);
    SourceOfCons(x, b);
  }

  /** Splicing inside one part of a text splices the whole text. */
  lemma SpliceInside(before: string, part: string, after: string, at: nat, text: string)
    requires at <= |part|
    ensures Splice(before + part + after, |before| + at, text) == before + Splice(part, at, text) + after
  {
    var whole := before + part + after;
    assert whole[..|before| + at] == before + part[..at];
    assert whole[|before| + at..] == part[at..] + after;
  }

  /** Inserting `text` at node `n` of a source that begins at `offset` gives the source of `grown`. */
  ghost predicate Surgery(
    source: string, offset: nat, n: Option<Node>, grown: Option<seq<Item>>, text: string, action: SignatureAction)
  {
    && (n.Some? <==> grown.Some?)
    && (n.Some? ==>
          var position := InsertPosition(n.value, action);
          && offset <= position <= offset + |source|
          && SourceOf(grown.value) == Splice(source, position - offset, text))
  }

  ghost predicate SpliceIsSurgery(
      items: seq<Item>, offset: nat, names: seq<string>, inserted: Item, action: SignatureAction)
  {
    Surgery(SourceOf(items), offset, Resolve(Build(items, offset), names),
            InsertSibling(items, names, inserted, action),
            Source(FlattenItem(inserted)), action)
  }

  /**
   * Inserting text at the end (or start) of the node that a name path leads to gives exactly
   * the source of the tree with one new sibling there.
   */
  lemma {:induction false} InsertionIsSurgery(
      items: seq<Item>, offset: nat, names: seq<string>, inserted: Item, action: SignatureAction)
    requires Tagged(items)
    ensures SpliceIsSurgery(items, offset, names, inserted, action)
    decreases |names|
  {
    hide SourceOf, Build, FlattenItem, Source, Splice, FirstNamed, FirstNode;
    if names != [] {
      FirstNodeIsFirstNamed(items, offset, names[0]);
      if FirstNamed(items, names[0]).Some? {
        if |names| == 1 {
          SiblingSurgery(items, offset, names, inserted, action, FirstNamed(items, names[0]).value);
        } else {
          var k := FirstNamed(items, names[0]).value;
          if items[k].Element? {
            var inside := offset + |SourceOf(items[..k])| + |items[k].open.source|;
            assert TaggedItem(items[k]);
            InsertionIsSurgery(items[k].body, inside, names[1..], inserted, action);
            hide Surgery, Resolve, InsertSibling, Regrown;
            ResolveInside(items, offset, names, k);
            InsertSiblingInside(items, names, inserted, action, k);
            SurgeryAround(items, k, offset, inside, Resolve(Build(items, offset), names),
                          InsertSibling(items[k].body, names[1..], inserted, action),
                          InsertSibling(items, names, inserted, action),
                          Source(FlattenItem(inserted)), action);
          } else {
            LeafSurgery(items, offset, names, inserted, action, k);
          }
        }
      }
    }
  }

  /** Position and content of the first node of a name. */
  lemma FirstNodeSpan(items: seq<Item>, offset: nat, name: string, k: nat)
    requires Tagged(items) && FirstNamed(items, name) == Some(k)
    ensures FirstNode(Build(items, offset), name).Some?
    ensures var n := FirstNode(Build(items, offset), name).value;
            && BuiltAt(items[k], n.start, n)
            && n.start == offset + |SourceOf(items[..k])| && n.end == n.start + Width(items[k])
            && (items[k].Element? ==>
                  n.children == Build(items[k].body, offset + |SourceOf(items[..k])| + |items[k].open.source|))
            && (items[k].Leaf? ==> n.children == [])
  {
    hide SourceOf, Build, FirstNode, FirstNamed, Width;
    FirstNodeIsFirstNamed(items, offset, name);
    assert TaggedItem(items[k]);
    SpanEnds(items[k], offset + |SourceOf(items[..k])|);
  }

  lemma SourceSplitsAt(items: seq<Item>, k: nat, inserted: Item)
    requires k <= |items|
    ensures |SourceOf(items[..k])| <= |SourceOf(items)|
    ensures SourceOf(items[..k] + [inserted] + items[k..])
         == Splice(SourceOf(items), |SourceOf(items[..k])|, Source(FlattenItem(inserted)))
  {
    assert items == items[..k] + items[k..];
    SourceOfConcat(items[..k], items[k..]);
    SourceOfThree(items[..k], inserted, items[k..]);
    var before, after := SourceOf(items[..k]), SourceOf(items[k..]);
    assert (before + after)[..|before|] == before && (before + after)[|before|..] == after;
  }

  lemma SiblingSurgery(
      items: seq<Item>, offset: nat, names: seq<string>, inserted: Item, action: SignatureAction, k: nat)
    requires Tagged(items) && |names| == 1 && FirstNamed(items, names[0]) == Some(k)
    ensures SpliceIsSurgery(items, offset, names, inserted, action)
  {
    hide FirstNode, Build, FirstNamed, FlattenItem, Source, Flatten, SourceOf, Splice, BuiltAt;
    FirstNodeSpan(items, offset, names[0], k);
    var n := FirstNode(Build(items, offset), names[0]);
    var at := if action.After? then k + 1 else k;
    SourceAround(items, k);
    SourceSplitsAt(items, at, inserted);
    assert InsertPosition(n.value, action) - offset == |SourceOf(items[..at])|;
    assert Surgery(SourceOf(items), offset, n, Some(items[..at] + [inserted] + items[at..]),
                   Source(FlattenItem(inserted)), action);
    assert InsertSibling(items, names, inserted, action) == Some(items[..at] + [inserted] + items[at..]);
  }

  lemma SpanEnds(item: Item, offset: nat)
    requires TaggedItem(item) && IsElement(item)
    ensures BuildItem(item, offset)[0].start == offset && BuildItem(item, offset)[0].end == offset + Width(item)
  {
    if item.Leaf? {
      assert FlattenItem(item) == [item.token] && Source([item.token]) == item.token.source + Source([]);
    }
  }

  /** Splicing in an element's body, seen from outside the element. */
  lemma BodySplice(e: Item, grown: seq<Item>, at: nat, text: string)
    requires e.Element? && at <= |SourceOf(e.body)| && SourceOf(grown) == Splice(SourceOf(e.body), at, text)
    ensures |e.open.source| + at <= Width(e)
    ensures Source(FlattenItem(Element(e.open, grown, e.close)))
         == Splice(Source(FlattenItem(e)), |e.open.source| + at, text)
  {
    SourceOfElement(e);
    SourceOfElement(Element(e.open, grown, e.close));
    SpliceInside(e.open.source, SourceOf(e.body), e.close.source, at, text);
  }

  /** Replacing one item, seen from the whole forest. */
  lemma ItemSplice(items: seq<Item>, k: nat, x: Item, at: nat, text: string)
    requires k < |items| && at <= Width(items[k])
    requires Source(FlattenItem(x)) == Splice(Source(FlattenItem(items[k])), at, text)
    ensures |SourceOf(items[..k])| + at <= |SourceOf(items)|
    ensures SourceOf(items[..k] + [x] + items[k + 1..]) == Splice(SourceOf(items), |SourceOf(items[..k])| + at, text)
  {
    SourceAround(items, k);
    SourceOfThree(items[..k], x, items[k + 1..]);
    SpliceInside(SourceOf(items[..k]), Source(FlattenItem(items[k])), SourceOf(items[k + 1..]), at, text);
  }

  lemma InsertSiblingInside(items: seq<Item>, names: seq<string>, inserted: Item, action: SignatureAction, k: nat)
    requires |names| > 1 && FirstNamed(items, names[0]) == Some(k) && items[k].Element?
    ensures InsertSibling(items, names, inserted, action)
         == Regrown(items, k, InsertSibling(items[k].body, names[1..], inserted, action))
  {
  }

  lemma ResolveStep(nodes: seq<Node>, names: seq<string>)
    requires |names| > 1 && FirstNode(nodes, names[0]).Some?
    ensures Resolve(nodes, names) == Resolve(FirstNode(nodes, names[0]).value.children, names[1..])
  {
  }

  /** An element's body replaced, when there is something to replace it with. */
  function Regrown(items: seq<Item>, k: nat, grown: Option<seq<Item>>): Option<seq<Item>>
    requires k < |items| && items[k].Element?
  {
    if grown.Some? then Some(items[..k] + [Element(items[k].open, grown.value, items[k].close)] + items[k + 1..])
    else None
  }

  /** Surgery in the body of one element is surgery in the forest around it. */
  lemma SurgeryAround(
    items: seq<Item>, k: nat, offset: nat, inside: nat, n: Option<Node>, grown: Option<seq<Item>>,
    whole: Option<seq<Item>>, text: string, action: SignatureAction)
    requires k < |items| && items[k].Element? && inside == offset + |SourceOf(items[..k])| + |items[k].open.source|
    requires Surgery(SourceOf(items[k].body), inside, n, grown, text, action)
    requires whole == Regrown(items, k, grown)
    ensures Surgery(SourceOf(items), offset, n, whole, text, action)
  {
    if n.Some? {
      ReplacedBodySplices(items, k, grown.value, InsertPosition(n.value, action) - inside, text);
    }
  }

  lemma ResolveInside(items: seq<Item>, offset: nat, names: seq<string>, k: nat)
    requires Tagged(items) && |names| > 1 && FirstNamed(items, names[0]) == Some(k) && items[k].Element?
    ensures Resolve(Build(items, offset), names)
         == Resolve(Build(items[k].body, offset + |SourceOf(items[..k])| + |items[k].open.source|), names[1..])
  {
    FirstNodeSpan(items, offset, names[0], k);
    ResolveStep(Build(items, offset), names);
  }

  lemma LeafSurgery(items: seq<Item>, offset: nat, names: seq<string>, inserted: Item, action: SignatureAction, k: nat)
    requires Tagged(items) && |names| > 1 && FirstNamed(items, names[0]) == Some(k) && items[k].Leaf?
    ensures SpliceIsSurgery(items, offset, names, inserted, action)
  {
    FirstNodeSpan(items, offset, names[0], k);
    assert Resolve([], names[1..]).None?;
  }

  lemma ReplacedBodySplices(items: seq<Item>, k: nat, grown: seq<Item>, at: nat, text: string)
    requires k < |items| && items[k].Element? && at <= |SourceOf(items[k].body)|
    requires SourceOf(grown) == Splice(SourceOf(items[k].body), at, text)
    ensures var position := |SourceOf(items[..k])| + |items[k].open.source| + at;
            && position <= |SourceOf(items)|
            && SourceOf(items[..k] + [Element(items[k].open, grown, items[k].close)] + items[k + 1..])
               == Splice(SourceOf(items), position, text)
  {
    var e := items[k];
    BodySplice(e, grown, at, text);
    ItemSplice(items, k, Element(e.open, grown, e.close), |e.open.source| + at, text);
  }

  /** Where the default placement puts a signature: after the Issuer of the signed element. */
  function DefaultPlacement(root: Node, signMessage: bool): Option<nat> {
    var target :=
      if signMessage || root.localName == "Assertion" then Some(root) else FirstNode(root.children, "Assertion");
    match target
    case None => None
    case Some(t) => match FirstNode(t.children, "Issuer") case None => None case Some(issuer) => Some(issuer.end)
  }

  function DefaultPath(root: Node, signMessage: bool): seq<string> {
    if signMessage || root.localName == "Assertion" then [root.localName, "Issuer"]
    else [root.localName, "Assertion", "Issuer"]
  }

  /** The element that is signed: the root, or the first Assertion below it unless it is one itself. */
  ghost predicate SignedElement(root: Node, signMessage: bool, n: Node) {
    if signMessage || root.localName == "Assertion" then n == root else FirstChild(root, "Assertion", n)
  }

  /** The default place is the end of the first Issuer of the signed element; without one there is none. */
  lemma PlacementFollowsTheIssuer(root: Node, signMessage: bool, position: nat)
    ensures DefaultPlacement(root, signMessage) == Some(position) <==>
            exists n, issuer :: && SignedElement(root, signMessage, n) && FirstChild(n, "Issuer", issuer)
                                && position == issuer.end
  {
    hide FirstNode, FirstChild;
    forall n: Node, name: string, c: Node ensures FirstNode(n.children, name) == Some(c) <==> FirstChild(n, name, c) {
      FirstNodeIsFirstChild(n, name, c);
    }
  }

  /**
   * Default signature placement in a document with one root: the spliced text is the tree
   * with the signature as the Issuer's next sibling, and cutting the same number of bytes at
   * the same place gives back the source.
   */
  lemma DefaultSignatureIsSurgery(items: seq<Item>, signature: Item, signMessage: bool)
    requires Tagged(items) && |Build(items, 0)| == 1
    requires DefaultPlacement(Build(items, 0)[0], signMessage).Some?
    ensures var root := Build(items, 0)[0];
            var position := DefaultPlacement(root, signMessage).value;
            var grown := InsertSibling(items, DefaultPath(root, signMessage), signature, After);
            var text := Source(FlattenItem(signature));
            && grown.Some? && position <= |SourceOf(items)|
            && SourceOf(grown.value) == Splice(SourceOf(items), position, text)
            && SourceOf(grown.value)[..position] + SourceOf(grown.value)[position + |text|..] == SourceOf(items)
  {
    var root := Build(items, 0)[0];
    var path := DefaultPath(root, signMessage);
    InsertionIsSurgery(items, 0, path, signature, After);
    assert Build(items, 0) == [root] && [root] + [] == [root];
    FirstNodeConcat([root], [], root.localName);
    if |path| == 2 {
      assert path[1..] == ["Issuer"];
    } else {
      assert path[1..] == ["Assertion", "Issuer"] && path[1..][1..] == ["Issuer"];
    }
    var position, text := DefaultPlacement(root, signMessage).value, Source(FlattenItem(signature));
    assert Resolve([root], path) == Resolve(root.children, path[1..]);
    if |path| == 3 {
      assert Resolve(root.children, path[1..])
           == Resolve(FirstNode(root.children, "Assertion").value.children, ["Issuer"]);
    }
    assert Resolve([root], path).Some? && Resolve([root], path).value.end == position;
    CutUndoesSplice(SourceOf(items), position, text);
  }

  lemma CutUndoesSplice(source: string, position: nat, text: string)
    requires position <= |source|
    ensures var spliced := Splice(source, position, text);
            spliced[..position] + spliced[position + |text|..] == source
  {
    var spliced := Splice(source, position, text);
    assert spliced[..position] == source[..position] && spliced[position + |text|..] == source[position..];
  }
}
