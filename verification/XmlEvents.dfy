/**
 * The XML reader's output: a stream of events, each with the slice of source it came from,
 * and the trees such streams flatten. Tokenization, entity decoding and namespace
 * resolution are the reader's; text is a sequence of bytes.
 */
module XmlEvents {
  import opened Prelude

  /** One attribute of a tag: its qualified name, decoded value, and whether it declares a namespace. */
  datatype Attribute =
    | MalformedAttribute
    | Attribute(name: string, value: Option<string>, isNamespace: bool)

  datatype Namespace = Unbound | Bound(uri: string) | UnknownPrefix | UndecodableNamespace

  datatype Tag = Tag(localName: string, attrs: seq<Attribute>, namespace: Namespace)

  datatype Event =
    | StartTag(tag: Tag)
    | EmptyTag(tag: Tag)
    | EndTag
    | Text(decoded: Option<string>)
    | CData(text: string)
    | Reference(resolved: Option<string>)
    | DocType
    | Misc
    | Malformed

  datatype Token = Token(event: Event, source: string)

  /** A piece of a document: an element with its content, or any other single token. */
  datatype Item =
    | Element(open: Token, body: seq<Item>, close: Token)
    | Leaf(token: Token)

  predicate Shaped(items: seq<Item>) {
    forall item :: item in items ==> ShapedItem(item)
  }

  predicate ShapedItem(item: Item) {
    match item
    case Element(open, body, close) =>
      && open.event.StartTag? && close.event.EndTag?
      && forall child :: child in body ==> ShapedItem(child)
    case Leaf(token) => !token.event.StartTag? && !token.event.EndTag?
  }

  function Flatten(items: seq<Item>): seq<Token> {
    if items == [] then [] else FlattenItem(items[0]) + Flatten(items[1..])
  }

  function FlattenItem(item: Item): seq<Token> {
    match item
    case Element(open, body, close) => [open] + Flatten(body) + [close]
    case Leaf(token) => [token]
  }

  /** The source text of a stream: its slices put together. */
  function Source(tokens: seq<Token>): string {
    if tokens == [] then "" else tokens[0].source + Source(tokens[1..])
  }

  function SourceOf(items: seq<Item>): string {
    Source(Flatten(items))
  }

  lemma {:induction false} SourceConcat(a: seq<Token>, b: seq<Token>)
    ensures Source(a + b) == Source(a) + Source(b)
  {
    if a == [] {
      NothingBefore(b);
      NothingBefore(Source(b));
    } else {
      ConsConcat(a, b);
      SourceConcat(a[1..], b);
      Associate(a[0].source, Source(a[1..]), Source(b));
    }
  }

  lemma FlattenCons(item: Item, items: seq<Item>)
    ensures Flatten([item] + items) == FlattenItem(item) + Flatten(items)
  {
    assert ([item] + items)[1..] == items;
  }

  lemma {:induction false} FlattenConcat(a: seq<Item>, b: seq<Item>)
    ensures Flatten(a + b) == Flatten(a) + Flatten(b)
  {
    hide FlattenItem;
    if a == [] {
      NothingBefore(b);
      NothingBefore(Flatten(b));
    } else {
      ConsConcat(a, b);
      FlattenConcat(a[1..], b);
      Associate(FlattenItem(a[0]), Flatten(a[1..]), Flatten(b));
    }
  }

  lemma SourceOfConcat(a: seq<Item>, b: seq<Item>)
    ensures SourceOf(a + b) == SourceOf(a) + SourceOf(b)
  {
    FlattenConcat(a, b);
    SourceConcat(Flatten(a), Flatten(b));
  }

  lemma SourceOfCons(item: Item, items: seq<Item>)
    ensures SourceOf([item] + items) == Source(FlattenItem(item)) + SourceOf(items)
  {
    FlattenCons(item, items);
    SourceConcat(FlattenItem(item), Flatten(items));
  }

  lemma SourceOfElement(e: Item)
    requires e.Element?
    ensures Source(FlattenItem(e)) == e.open.source + SourceOf(e.body) + e.close.source
  {
    SourceConcat([e.open] + Flatten(e.body), [e.close]);
    SourceConcat([e.open], Flatten(e.body));
  }

  // ----- streams that are trees

  /** Every end tag closes an open element and none is left open, starting at depth `d`. */
  predicate Balanced(tokens: seq<Token>, d: nat) {
    if tokens == [] then d == 0
    else
      match tokens[0].event
      case StartTag(_) => Balanced(tokens[1..], d + 1)
      case EndTag => d > 0 && Balanced(tokens[1..], d - 1)
      case _ => Balanced(tokens[1..], d)
  }

  /** Every end tag closes an open element (the reader reports others as errors). */
  predicate NoStrayEnd(tokens: seq<Token>, d: nat) {
    if tokens == [] then true
    else
      match tokens[0].event
      case StartTag(_) => NoStrayEnd(tokens[1..], d + 1)
      case EndTag => d > 0 && NoStrayEnd(tokens[1..], d - 1)
      case _ => NoStrayEnd(tokens[1..], d)
  }

  lemma {:induction false} BalancedHasNoStrayEnd(tokens: seq<Token>, d: nat)
    requires Balanced(tokens, d)
    ensures NoStrayEnd(tokens, d)
    decreases |tokens|
  {
    if tokens != [] {
      var t := tokens[0].event;
      BalancedHasNoStrayEnd(tokens[1..], if t.StartTag? then d + 1 else if t.EndTag? then d - 1 else d);
    }
  }

  /** Content that follows an end tag, one layer per element still open. */
  datatype Layer = Layer(close: Token, items: seq<Item>)

  function FlattenLayers(layers: seq<Layer>): seq<Token> {
    if layers == [] then [] else [layers[0].close] + Flatten(layers[0].items) + FlattenLayers(layers[1..])
  }

  predicate ShapedLayers(layers: seq<Layer>) {
    forall l :: l in layers ==> l.close.event.EndTag? && Shaped(l.items)
  }

  /** A balanced stream at depth `d` as the forest before the first open end tag, and the layers after. */
  function Layers(tokens: seq<Token>, d: nat): (r: (seq<Item>, seq<Layer>))
    requires Balanced(tokens, d)
    ensures |r.1| == d && Shaped(r.0) && ShapedLayers(r.1)
    decreases |tokens|
  {
    if tokens == [] then ([], [])
    else
      match tokens[0].event
      case StartTag(_) =>
        var (body, layers) := Layers(tokens[1..], d + 1);
        assert layers[0] in layers;
        ([Element(tokens[0], body, layers[0].close)] + layers[0].items, layers[1..])
      case EndTag =>
        var (after, layers) := Layers(tokens[1..], d - 1);
        ([], [Layer(tokens[0], after)] + layers)
      case _ =>
        var (after, layers) := Layers(tokens[1..], d);
        ([Leaf(tokens[0])] + after, layers)
  }

  lemma Regroup(a: seq<Token>, b: seq<Token>, c: seq<Token>, d: seq<Token>, e: seq<Token>)
    ensures a + (b + (c + d + e)) == (a + b + c + d) + e
  {
  }

  lemma {:induction false} LayersFlattenBack(tokens: seq<Token>, d: nat)
    requires Balanced(tokens, d)
    ensures Flatten(Layers(tokens, d).0) + FlattenLayers(Layers(tokens, d).1) == tokens
    decreases |tokens|
  {
    if tokens != [] {
      var t := tokens[0];
      assert tokens == [t] + tokens[1..];
      match t.event {
        case StartTag(_) => StartTagFlattensBack(tokens, d);
        case EndTag => EndTagFlattensBack(tokens, d);
        case _ =>
          hide Flatten, FlattenLayers;
          LayersFlattenBack(tokens[1..], d);
          var (after, layers) := Layers(tokens[1..], d);
          FlattenCons(Leaf(t), after);
          Associate([t], Flatten(after), FlattenLayers(layers));
      }
    }
  }

  lemma FlattenLayersCons(layer: Layer, layers: seq<Layer>)
    ensures FlattenLayers([layer] + layers) == [layer.close] + Flatten(layer.items) + FlattenLayers(layers)
  {
    assert ([layer] + layers)[1..] == layers;
  }

  lemma FlattenNothing()
    ensures Flatten([]) == []
  {
  }

  lemma {:induction false} EndTagFlattensBack(tokens: seq<Token>, d: nat)
    requires Balanced(tokens, d) && tokens != [] && tokens[0].event.EndTag?
    ensures Flatten(Layers(tokens, d).0) + FlattenLayers(Layers(tokens, d).1) == tokens
    decreases |tokens|, 0
  {
    hide Flatten, FlattenLayers;
    LayersFlattenBack(tokens[1..], d - 1);
    var (after, layers) := Layers(tokens[1..], d - 1);
    FlattenLayersCons(Layer(tokens[0], after), layers);
    FlattenNothing();
    Regroup([], [], [tokens[0]], Flatten(after), FlattenLayers(layers));
    assert tokens == [tokens[0]] + tokens[1..];
  }

  lemma {:induction false} StartTagFlattensBack(tokens: seq<Token>, d: nat)
    requires Balanced(tokens, d) && tokens != [] && tokens[0].event.StartTag?
    ensures Flatten(Layers(tokens, d).0) + FlattenLayers(Layers(tokens, d).1) == tokens
    decreases |tokens|, 0
  {
    LayersFlattenBack(tokens[1..], d + 1);
    var (body, layers) := Layers(tokens[1..], d + 1);
    var close, items, rest := layers[0].close, layers[0].items, FlattenLayers(layers[1..]);
    FlattenCons(Element(tokens[0], body, close), items);
    Regroup([tokens[0]], Flatten(body), [close], Flatten(items), rest);
    assert tokens == [tokens[0]] + tokens[1..];
  }

  /** A stream is the flattening of a tree exactly when its tags balance. */
  lemma BalancedIffTree(tokens: seq<Token>)
    ensures Balanced(tokens, 0) <==> exists items :: Shaped(items) && Flatten(items) == tokens
  {
    if Balanced(tokens, 0) {
      LayersFlattenBack(tokens, 0);
      assert Flatten(Layers(tokens, 0).0) == tokens;
    }
    if exists items :: Shaped(items) && Flatten(items) == tokens {
      var items :| Shaped(items) && Flatten(items) == tokens;
      TreeIsBalanced(items, [], 0);
      assert Flatten(items) + [] == tokens;
    }
  }

  lemma BalancedCons(t: Token, rest: seq<Token>, d: nat)
    ensures Balanced([t] + rest, d) <==>
            match t.event
            case StartTag(_) => Balanced(rest, d + 1)
            case EndTag => d > 0 && Balanced(rest, d - 1)
            case _ => Balanced(rest, d)
  {
    assert ([t] + rest)[1..] == rest;
  }

  lemma {:induction false} TreeIsBalanced(items: seq<Item>, rest: seq<Token>, d: nat)
    requires Shaped(items)
    ensures Balanced(Flatten(items) + rest, d) <==> Balanced(rest, d)
    decreases items
  {
    if items == [] {
      assert [] + rest == rest;
    } else {
      var after := Flatten(items[1..]) + rest;
      TreeIsBalanced(items[1..], rest, d);
      assert Flatten(items) + rest == FlattenItem(items[0]) + after;
      assert ShapedItem(items[0]);
      match items[0] {
        case Leaf(token) =>
          BalancedCons(token, after, d);
        case Element(open, body, close) =>
          assert FlattenItem(items[0]) + after == [open] + (Flatten(body) + ([close] + after));
          BalancedCons(open, Flatten(body) + ([close] + after), d);
          TreeIsBalanced(body, [close] + after, d + 1);
          BalancedCons(close, after, d + 1);
      }
    }
  }
}
