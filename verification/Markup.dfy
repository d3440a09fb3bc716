/**
 * Documents spelled out: markup whose tags are written from their names and attributes, and
 * what the DOM builder makes of it, spans aside.
 */
module Markup {
  import opened Prelude
  import opened XmlEvents
  import opened XmlDom
  import opened XmlSpans
  import opened Preflight
  import opened Coverage
  import opened DetailedVerification

  datatype Piece =
    | Tagged(name: string, namespace: string, attrs: seq<Attribute>, body: seq<Piece>)
    | Chars(text: string)

  // ----- the text and its events

  function Spelled(attrs: seq<Attribute>): string {
    if attrs == [] then ""
    else
      (match attrs[0]
       case Attribute(name, Some(value), _) => " " + name + "=\"" + value + "\""
       case _ => "") + Spelled(attrs[1..])
  }

  /** The piece as the reader sees it: every tag with the text that spells it. */
  function Rendered(p: Piece): Item {
    match p
    case Chars(text) => Leaf(Token(Text(Some(text)), text))
    case Tagged(name, namespace, attrs, body) =>
      var tag := Tag(name, attrs, Bound(namespace));
      if body == [] then Leaf(Token(EmptyTag(tag), "<" + name + Spelled(attrs) + "/>"))
      else
        Element(Token(StartTag(tag), "<" + name + Spelled(attrs) + ">"), RenderedAll(body),
                Token(EndTag, "</" + name + ">"))
  }

  function RenderedAll(ps: seq<Piece>): seq<Item> {
    if ps == [] then [] else [Rendered(ps[0])] + RenderedAll(ps[1..])
  }

  lemma {:induction false} RenderedIsRead(p: Piece)
    ensures ShapedItem(Rendered(p)) && TagSlices(FlattenItem(Rendered(p)))
  {
    if p.Tagged? {
      RenderedAllIsRead(p.body);
      var item := Rendered(p);
      if item.Element? {
        TagSlicesAround(item);
      }
    }
  }

  lemma TagSlicesAround(e: Item)
    requires e.Element? && e.open.event.StartTag? && e.close.event.EndTag? && TagSlices(Flatten(e.body))
    requires OpensWithLt(e.open.source) && e.close.source != ""
    ensures TagSlices(FlattenItem(e))
  {
  }

  lemma {:induction false} RenderedAllIsRead(ps: seq<Piece>)
    ensures Shaped(RenderedAll(ps)) && TagSlices(Flatten(RenderedAll(ps)))
  {
    if ps != [] {
      RenderedIsRead(ps[0]);
      RenderedAllIsRead(ps[1..]);
      FlattenCons(Rendered(ps[0]), RenderedAll(ps[1..]));
    }
  }

  /** Any markup is a stream that a reader may deliver. */
  lemma MarkupIsWellRead(ps: seq<Piece>)
    ensures WellRead(Flatten(RenderedAll(ps)))
  {
    RenderedAllIsRead(ps);
    BalancedIffTree(Flatten(RenderedAll(ps)));
    BalancedHasNoStrayEnd(Flatten(RenderedAll(ps)), 0);
  }

  // ----- the nodes

  function TextOf(ps: seq<Piece>): string {
    if ps == [] then "" else (if ps[0].Chars? then ps[0].text else "") + TextOf(ps[1..])
  }

  /** The node is the piece's, wherever its span lies. */
  predicate Realizes(n: Node, p: Piece)
    requires p.Tagged?
    decreases p
  {
    n.localName == p.name && n.attrs == Kept(p.attrs) && n.text == TextOf(p.body) && RealizeAll(n.children, p.body)
  }

  predicate RealizeAll(nodes: seq<Node>, ps: seq<Piece>)
    decreases ps
  {
    if ps == [] then nodes == []
    else if ps[0].Chars? then RealizeAll(nodes, ps[1..])
    else nodes != [] && Realizes(nodes[0], ps[0]) && RealizeAll(nodes[1..], ps[1..])
  }

  lemma {:induction false} RenderedRealizes(p: Piece, offset: nat)
    ensures var nodes := BuildItem(Rendered(p), offset);
            if p.Chars? then nodes == [] else |nodes| == 1 && Realizes(nodes[0], p)
    ensures ItemText(Rendered(p)) == if p.Chars? then p.text else ""
    decreases p
  {
    if p.Tagged? {
      RenderedAllRealize(p.body, offset + if p.body == [] then 0 else |Rendered(p).open.source|);
    }
  }

  lemma {:induction false} RenderedAllRealize(ps: seq<Piece>, offset: nat)
    ensures RealizeAll(Build(RenderedAll(ps), offset), ps) && DirectText(RenderedAll(ps)) == TextOf(ps)
    decreases ps
  {
    if ps != [] {
      var first, rest := Rendered(ps[0]), RenderedAll(ps[1..]);
      RenderedRealizes(ps[0], offset);
      RenderedAllRealize(ps[1..], offset + Width(first));
      assert ([first] + rest)[1..] == rest;
      var nodes, more := BuildItem(first, offset), Build(rest, offset + Width(first));
      if ps[0].Chars? {
        NothingBefore(more);
      } else {
        assert (nodes + more)[1..] == more;
      }
    }
  }

  // ----- identifiers and certificates below a node

  predicate NoIds(p: Piece) {
    match p
    case Chars(_) => true
    case Tagged(_, _, attrs, body) => IdsAmong(Kept(attrs)) == [] && forall child :: child in body ==> NoIds(child)
  }

  lemma {:induction false} NoIdsBelow(n: Node, p: Piece)
    requires p.Tagged? && Realizes(n, p) && NoIds(p)
    ensures TreeIds(n) == []
    decreases p
  {
    NoIdsAmong(n.children, p.body);
    TreeIdsAre(n);
  }

  lemma {:induction false} NoIdsAmong(nodes: seq<Node>, ps: seq<Piece>)
    requires RealizeAll(nodes, ps) && forall p :: p in ps ==> NoIds(p)
    ensures Ids(AllOf(nodes)) == []
    decreases ps
  {
    if ps != [] {
      if ps[0].Chars? {
        NoIdsAmong(nodes, ps[1..]);
      } else {
        NoIdsBelow(nodes[0], ps[0]);
        NoIdsAmong(nodes[1..], ps[1..]);
        IdsConcat(AllNodes(nodes[0]), AllOf(nodes[1..]));
      }
    }
  }

  predicate NoCertificate(p: Piece) {
    p.Tagged? ==> p.name != "X509Certificate" && forall child :: child in p.body ==> NoCertificate(child)
  }

  lemma {:induction false} NoCertificateIn(n: Node, p: Piece)
    requires p.Tagged? && Realizes(n, p) && NoCertificate(p)
    ensures CertificateIn(n) == None
    decreases p
  {
    NoCertificateAmong(n.children, p.body);
  }

  lemma {:induction false} NoCertificateAmong(nodes: seq<Node>, ps: seq<Piece>)
    requires RealizeAll(nodes, ps) && forall p :: p in ps ==> NoCertificate(p)
    ensures FirstCertificate(nodes) == None
    decreases ps
  {
    if ps != [] {
      if ps[0].Chars? {
        NoCertificateAmong(nodes, ps[1..]);
      } else {
        NoCertificateIn(nodes[0], ps[0]);
        NoCertificateAmong(nodes[1..], ps[1..]);
      }
    }
  }

  // ----- signature safety

  /** Names whose place or content the signature preflight looks at. */
  const WATCHED: set<string> := {"Object", "Signature", "Reference", "Transform"}

  predicate Unwatched(p: Piece) {
    p.Tagged? ==> p.name !in WATCHED && forall child :: child in p.body ==> Unwatched(child)
  }

  lemma {:induction false} UnwatchedIsSafe(p: Piece, spot: Spot)
    requires Unwatched(p)
    ensures SafeItem(Rendered(p), spot)
    decreases p
  {
    if p.Tagged? && p.body != [] {
      UnwatchedAreSafe(p.body, spot.Within(Rendered(p).open.event.tag));
    }
  }

  lemma {:induction false} UnwatchedAreSafe(ps: seq<Piece>, spot: Spot)
    requires forall p :: p in ps ==> Unwatched(p)
    ensures Safe(RenderedAll(ps), spot)
    decreases ps
  {
    if ps != [] {
      UnwatchedIsSafe(ps[0], spot);
      UnwatchedAreSafe(ps[1..], spot);
    }
  }

  // ----- limits

  lemma {:induction false} ValuesAreSpelled(attrs: seq<Attribute>, a: Attribute)
    requires a in attrs && a.Attribute? && a.value.Some?
    ensures |a.value.value| <= |Spelled(attrs)|
  {
    if a != attrs[0] {
      ValuesAreSpelled(attrs[1..], a);
    }
  }

  /** The length of the text that spells a piece. */
  function Size(p: Piece): nat {
    match p
    case Chars(text) => |text|
    case Tagged(name, _, attrs, body) =>
      |name| + |Spelled(attrs)| + (if body == [] then 3 else 5 + |name| + SizeOfAll(body))
  }

  function SizeOfAll(ps: seq<Piece>): nat {
    if ps == [] then 0 else Size(ps[0]) + SizeOfAll(ps[1..])
  }

  /** Elements and direct text are no longer than the text that spells them. */
  lemma {:induction false} RenderedSize(p: Piece)
    ensures Width(Rendered(p)) == Size(p) && ItemCount(Rendered(p)) <= Size(p)
    decreases p
  {
    if p.Tagged? && p.body != [] {
      RenderedSizeOfAll(p.body);
      SourceOfElement(Rendered(p));
    } else {
      assert Source([Rendered(p).token][1..]) == "";
    }
  }

  lemma {:induction false} RenderedSizeOfAll(ps: seq<Piece>)
    ensures |SourceOf(RenderedAll(ps))| == SizeOfAll(ps)
    ensures ElementCount(RenderedAll(ps)) <= SizeOfAll(ps) && |TextOf(ps)| <= SizeOfAll(ps)
    decreases ps
  {
    if ps != [] {
      RenderedSize(ps[0]);
      RenderedSizeOfAll(ps[1..]);
      SourceOfCons(Rendered(ps[0]), RenderedAll(ps[1..]));
      assert RenderedAll(ps)[1..] == RenderedAll(ps[1..]);
    }
  }

  /** No deeper than `height`, with a value for every attribute and no more attributes than allowed. */
  predicate Shallow(p: Piece, height: nat, maxAttributes: nat) {
    p.Tagged? ==>
      && height > 0 && |p.attrs| <= maxAttributes && (forall a :: a in p.attrs ==> a.Attribute? && a.value.Some?)
      && forall child :: child in p.body ==> Shallow(child, height - 1, maxAttributes)
  }

  /** Size limits no smaller than the text, and room for the height and the attributes. */
  predicate Roomy(limits: Limits, size: nat, height: nat, maxAttributes: nat) {
    && size <= limits.maxBytes && size <= limits.maxNodes
    && size <= limits.maxAttributeValueBytes && size <= limits.maxTextBytes
    && height <= limits.maxDepth && maxAttributes <= limits.maxAttributes
  }

  lemma {:induction false} WithinRoomyLimits(p: Piece, depth: nat, limits: Limits, height: nat, maxAttributes: nat)
    requires Shallow(p, height, maxAttributes) && (p.Chars? ==> depth > 0)
    requires Roomy(limits, Size(p), depth + height, maxAttributes)
    ensures ItemWithin(Rendered(p), depth, limits, Document)
    decreases p
  {
    if p.Tagged? {
      forall a | a in p.attrs
        ensures AttributeWithin(a, limits)
      {
        ValuesAreSpelled(p.attrs, a);
      }
      RenderedSizeOfAll(p.body);
      RenderedAllRealize(p.body, 0);
      AllWithinRoomyLimits(p.body, depth + 1, limits, height - 1, maxAttributes);
    }
  }

  lemma {:induction false} AllWithinRoomyLimits(
      ps: seq<Piece>, depth: nat, limits: Limits, height: nat, maxAttributes: nat)
    requires (forall p :: p in ps ==> Shallow(p, height, maxAttributes)) && depth > 0
    requires Roomy(limits, SizeOfAll(ps), depth + height, maxAttributes)
    ensures Within(RenderedAll(ps), depth, limits, Document)
    decreases ps
  {
    if ps != [] {
      WithinRoomyLimits(ps[0], depth, limits, height, maxAttributes);
      AllWithinRoomyLimits(ps[1..], depth, limits, height, maxAttributes);
    }
  }

  lemma DocumentWithinRoomyLimits(p: Piece, limits: Limits, height: nat, maxAttributes: nat)
    requires p.Tagged? && Shallow(p, height, maxAttributes) && Roomy(limits, Size(p), height, maxAttributes)
    ensures DocumentWithin(RenderedAll([p]), limits, Document)
  {
    hide Shallow, Size;
    RenderedSizeOfAll([p]);
    assert SizeOfAll([p]) == Size(p) by { assert [p][1..] == []; }
    WithinRoomyLimits(p, 0, limits, height, maxAttributes);
    assert RenderedAll([p]) == [Rendered(p)];
  }
}
