/** Byte spans of the DOM: nesting, sibling order, and what a span cuts out of the source. */
module XmlSpans {
  import opened XmlEvents
  import opened XmlDom
  import opened XmlDomProofs

  /** Opening tags begin with `<`, which every reader slice of a tag does; end tags are not empty. */
  predicate Tagged(items: seq<Item>) {
    forall item :: item in items ==> TaggedItem(item)
  }

  predicate OpensWithLt(source: string) {
    source != "" && source[0] == '<'
  }

  predicate TaggedItem(item: Item) {
    match item
    case Element(open, body, close) =>
      && open.event.StartTag? && OpensWithLt(open.source) && close.source != ""
      && forall child :: child in body ==> TaggedItem(child)
    case Leaf(token) => token.event.EmptyTag? ==> OpensWithLt(token.source)
  }

  /** Items that become nodes, in order. */
  function Elements(items: seq<Item>): seq<Item> {
    if items == [] then []
    else (if IsElement(items[0]) then [items[0]] else []) + Elements(items[1..])
  }

  predicate IsElement(item: Item) {
    match item
    case Element(open, _, _) => open.event.StartTag?
    case Leaf(token) => token.event.EmptyTag?
  }

  ghost predicate Ordered(nodes: seq<Node>) {
    forall i, j :: 0 <= i < j < |nodes| ==> nodes[i].end <= nodes[j].start
  }

  /** A node strictly contains its children, which are disjoint and in source order. */
  ghost predicate WellNested(n: Node) {
    && n.start < n.end
    && Ordered(n.children)
    && forall c :: c in n.children ==> n.start < c.start && c.end < n.end && WellNested(c)
  }

  ghost predicate Inside(nodes: seq<Node>, from: nat, to: nat) {
    forall n :: n in nodes ==> from <= n.start && n.end <= to && WellNested(n)
  }

  lemma OrderedConcat(a: seq<Node>, b: seq<Node>, from: nat, mid: nat, to: nat)
    requires |a| <= 1 && Ordered(b) && Inside(a, from, mid) && Inside(b, mid, to) && from <= mid <= to
    ensures Ordered(a + b) && Inside(a + b, from, to)
  {
    var nodes := a + b;
    forall i, j | 0 <= i < j < |nodes|
      ensures nodes[i].end <= nodes[j].start
    {
      assert nodes[j] in b;
      if i < |a| {
        assert nodes[i] in a;
      } else {
        assert nodes[i] == b[i - |a|] && nodes[j] == b[j - |a|];
      }
    }
  }

  lemma {:induction false} SpansNest(items: seq<Item>, offset: nat)
    requires Tagged(items)
    ensures Ordered(Build(items, offset)) && Inside(Build(items, offset), offset, offset + |SourceOf(items)|)
    decreases items
  {
    if items != [] {
      var x, xs := items[0], items[1..];
      assert items == [x] + xs && TaggedItem(x);
      SourceOfCons(x, xs);
      var mid := offset + Width(x);
      SpansNest(xs, mid);
      ItemNests(x, offset);
      OrderedConcat(BuildItem(x, offset), Build(xs, mid), offset, mid, mid + |SourceOf(xs)|);
    }
  }

  lemma {:induction false} ItemNests(item: Item, offset: nat)
    requires TaggedItem(item)
    ensures |BuildItem(item, offset)| <= 1
    ensures Inside(BuildItem(item, offset), offset, offset + Width(item))
    decreases item
  {
    match item
    case Element(open, body, close) =>
      SourceOfElement(item);
      SpansNest(body, offset + |open.source|);
    case Leaf(token) =>
      assert FlattenItem(item) == [token] && Source([token]) == token.source + Source([]);
  }

  // ----- what a span cuts out

  function Cut(source: string, n: Node): string
    requires n.start <= n.end <= |source|
  {
    source[n.start..n.end]
  }

  predicate SpanIn(source: string, n: Node) {
    n.start <= n.end <= |source|
  }

  /** Spans of nodes and of their children lie in the source. */
  predicate SpansIn(source: string, nodes: seq<Node>) {
    forall n :: n in nodes ==> SpanIn(source, n) && forall c :: c in n.children ==> SpanIn(source, c)
  }

  /** `nodes` are the DOM of `elements`, and each span of `source` is its element's own text. */
  ghost predicate Mirrors(source: string, nodes: seq<Node>, elements: seq<Item>) {
    |nodes| == |elements| && forall i :: 0 <= i < |nodes| ==> Cuts(source, nodes[i], elements[i])
  }

  ghost predicate Cuts(source: string, n: Node, item: Item) {
    && n.start <= n.end <= |source|
    && source[n.start..n.end] == Source(FlattenItem(item))
    && match item
       case Leaf(_) => n.children == []
       case Element(_, body, _) =>
         var inner := Elements(body);
         |n.children| == |inner| && forall i :: 0 <= i < |inner| ==>
             inner[i] < item && Cuts(source, n.children[i], inner[i])
  }

  lemma {:induction false} ElementsAreSmaller(items: seq<Item>, e: Item)
    requires e in Elements(items)
    ensures e in items
  {
    if items != [] && e in Elements(items[1..]) {
      ElementsAreSmaller(items[1..], e);
    }
  }

  ghost predicate SitsAt(source: string, offset: nat, part: string) {
    offset + |part| <= |source| && source[offset..offset + |part|] == part
  }

  lemma SitsSplit(source: string, offset: nat, a: string, b: string)
    requires SitsAt(source, offset, a + b)
    ensures SitsAt(source, offset, a) && SitsAt(source, offset + |a|, b)
  {
    var cut := source[offset..offset + |a + b|];
    assert cut == a + b && (a + b)[..|a|] == a && (a + b)[|a|..] == b;
    assert source[offset..offset + |a|] == cut[..|a|];
    assert source[offset + |a|..offset + |a| + |b|] == cut[|a|..];
  }

  /** Wherever a forest's text stands in a source, its spans cut out exactly its elements. */
  lemma {:induction false} SpansCutElements(source: string, items: seq<Item>, offset: nat)
    requires Tagged(items) && SitsAt(source, offset, SourceOf(items))
    ensures Mirrors(source, Build(items, offset), Elements(items))
    decreases items
  {
    hide BuildItem, FlattenItem, Source, SourceOf, SitsAt, Cuts, IsElement;
    if items != [] {
      var x, xs := items[0], items[1..];
      assert items == [x] + xs && TaggedItem(x);
      SourceOfCons(x, xs);
      SitsSplit(source, offset, Source(FlattenItem(x)), SourceOf(xs));
      SpansCutElements(source, xs, offset + Width(x));
      SpanCutsItem(source, x, offset);
      var nodes := BuildItem(x, offset) + Build(xs, offset + Width(x));
      forall i | 0 <= i < |nodes|
        ensures Cuts(source, nodes[i], Elements(items)[i])
      {
        if i >= |BuildItem(x, offset)| {
          assert nodes[i] == Build(xs, offset + Width(x))[i - |BuildItem(x, offset)|];
        }
      }
    }
  }

  lemma BodySitsAfterTheTag(source: string, e: Item, offset: nat)
    requires e.Element? && SitsAt(source, offset, Source(FlattenItem(e)))
    ensures SitsAt(source, offset + |e.open.source|, SourceOf(e.body))
  {
    SourceOfElement(e);
    assert Source(FlattenItem(e)) == e.open.source + (SourceOf(e.body) + e.close.source);
    SitsSplit(source, offset, e.open.source, SourceOf(e.body) + e.close.source);
    SitsSplit(source, offset + |e.open.source|, SourceOf(e.body), e.close.source);
  }

  lemma {:induction false} SpanCutsItem(source: string, item: Item, offset: nat)
    requires TaggedItem(item) && SitsAt(source, offset, Source(FlattenItem(item)))
    ensures |BuildItem(item, offset)| == if IsElement(item) then 1 else 0
    ensures IsElement(item) ==> Cuts(source, BuildItem(item, offset)[0], item)
    decreases item
  {
    match item
    case Element(open, body, close) =>
      BodySitsAfterTheTag(source, item, offset);
      SpansCutElements(source, body, offset + |open.source|);
      forall i | 0 <= i < |Elements(body)|
        ensures Elements(body)[i] < item
      {
        ElementsAreSmaller(body, Elements(body)[i]);
      }
      var n := BuildItem(item, offset)[0];
      assert n.start == offset && n.end == offset + Width(item);
    case Leaf(token) =>
      assert FlattenItem(item) == [token] && Source([token]) == token.source + Source([]);
  }

  /** A parsed document: every node's span, at every depth, is the source text of its element. */
  lemma DocumentSpansCutElements(items: seq<Item>)
    requires Tagged(items)
    ensures Mirrors(SourceOf(items), Build(items, 0), Elements(items))
    ensures Ordered(Build(items, 0)) && Inside(Build(items, 0), 0, |SourceOf(items)|)
  {
    SpansCutElements(SourceOf(items), items, 0);
    SpansNest(items, 0);
  }

  // ----- what the reader provides

  predicate TagSlices(tokens: seq<Token>) {
    forall t :: t in tokens ==>
      && (t.event.StartTag? || t.event.EmptyTag? ==> OpensWithLt(t.source))
      && (t.event.EndTag? ==> t.source != "")
  }

  /** A reader's stream: end tags match open elements, and tag slices are tags. */
  predicate WellRead(tokens: seq<Token>) {
    NoStrayEnd(tokens, 0) && TagSlices(tokens)
  }

  /** A reader whose streams are well read and spell out the text they come from. */
  ghost predicate Faithful(read: string -> seq<Token>) {
    forall xml: string :: WellRead(read(xml)) && Source(read(xml)) == xml
  }

  lemma {:induction false} TagSlicesTagTheTree(items: seq<Item>)
    requires Shaped(items) && TagSlices(Flatten(items))
    ensures Tagged(items)
    decreases items
  {
    if items != [] {
      var x := items[0];
      assert ShapedItem(x);
      assert forall t :: t in FlattenItem(x) ==> t in Flatten(items);
      TagSlicesTagTheTree(items[1..]);
      if x.Element? {
        assert x.open in FlattenItem(x) && x.close in FlattenItem(x);
        TagSlicesTagTheTree(x.body);
      } else {
        assert x.token in FlattenItem(x);
      }
      assert items == [x] + items[1..];
    }
  }

  lemma SpansInside(n: Node, source: string)
    requires WellNested(n) && n.end <= |source|
    ensures SpanIn(source, n) && forall c :: c in n.children ==> SpanIn(source, c) && WellNested(c)
  {
    assert forall c :: c in n.children ==> WellNested(c);
  }

  /** Whatever parses, the spans of the document element and its children lie in the source. */
  lemma ParsedSpansLieInSource(tokens: seq<Token>, limits: Limits)
    requires WellRead(tokens) && ParseDocument(tokens, limits).Ok?
    ensures SpansIn(Source(tokens), [ParseDocument(tokens, limits).value])
    ensures SpansIn(Source(tokens), ParseDocument(tokens, limits).value.children)
    ensures WellNested(ParseDocument(tokens, limits).value)
    ensures ParseDocument(tokens, limits).value.end <= |Source(tokens)|
  {
    AcceptedStreamIsATree(tokens, limits, Document);
    var items :| Shaped(items) && Flatten(items) == tokens
        && ParseAll(tokens, limits, Document).value == Build(items, 0);
    TagSlicesTagTheTree(items);
    DocumentSpansCutElements(items);
    var root := ParseDocument(tokens, limits).value;
    assert root in Build(items, 0);
    assert WellNested(root) && root.end <= |Source(tokens)|;
    SpansInside(root, Source(tokens));
    forall c | c in root.children
      ensures SpanIn(Source(tokens), c) && forall d :: d in c.children ==> SpanIn(Source(tokens), d)
    {
      SpansInside(c, Source(tokens));
    }
  }
}
