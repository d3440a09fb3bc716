/** The stack loop builds exactly the tree: the recursive measures and spans of XmlDom. */
module XmlDomProofs {
  import opened Prelude
  import opened XmlEvents
  import opened XmlDom

  // ----- one item and one forest, absorbed into the loop's state

  /** The state after a piece of content: its nodes and text go to the innermost open element. */
  function Absorbed(s: State, nodes: seq<Node>, text: string, count: nat, width: nat): State {
    if s.stack == [] then State([], s.roots + nodes, s.count + count, s.position + width)
    else
      var top := s.stack[|s.stack| - 1];
      State(s.stack[..|s.stack| - 1] + [top.(children := top.children + nodes, text := top.text + text)],
            s.roots, s.count + count, s.position + width)
  }

  function AbsorbItem(s: State, item: Item): State {
    Absorbed(s, BuildItem(item, s.position), ItemText(item), ItemCount(item), Width(item))
  }

  function Absorb(s: State, items: seq<Item>): State {
    Absorbed(s, Build(items, s.position), DirectText(items), ElementCount(items), |SourceOf(items)|)
  }

  predicate TextFits(s: State, more: nat, limits: Limits) {
    s.stack == [] || |s.stack[|s.stack| - 1].text| + more <= limits.maxTextBytes
  }

  predicate ItemAdmissible(s: State, item: Item, limits: Limits, mode: ParseMode) {
    && ItemWithin(item, |s.stack|, limits, mode)
    && s.count + ItemCount(item) <= limits.maxNodes
    && TextFits(s, |ItemText(item)|, limits)
  }

  predicate Admissible(s: State, items: seq<Item>, limits: Limits, mode: ParseMode) {
    && Within(items, |s.stack|, limits, mode)
    && s.count + ElementCount(items) <= limits.maxNodes
    && TextFits(s, |DirectText(items)|, limits)
  }

  lemma ParseCons(s: State, t: Token, rest: seq<Token>, limits: Limits, mode: ParseMode)
    ensures var next := Step(s, t, limits, mode);
            && (next.Err? ==> Parse(s, [t] + rest, limits, mode) == Err(next.error))
            && (next.Ok? ==> Parse(s, [t] + rest, limits, mode) == Parse(next.value, rest, limits, mode))
  {
    assert ([t] + rest)[1..] == rest;
  }

  lemma AbsorbedTwice(
      s: State, n1: seq<Node>, t1: string, c1: nat, w1: nat, n2: seq<Node>, t2: string, c2: nat, w2: nat)
    ensures Absorbed(Absorbed(s, n1, t1, c1, w1), n2, t2, c2, w2) == Absorbed(s, n1 + n2, t1 + t2, c1 + c2, w1 + w2)
  {
    if s.stack == [] {
      assert s.roots + n1 + n2 == s.roots + (n1 + n2);
    } else {
      var top := s.stack[|s.stack| - 1];
      assert top.children + n1 + n2 == top.children + (n1 + n2);
      assert top.text + t1 + t2 == top.text + (t1 + t2);
    }
  }

  lemma AbsorbCons(s: State, items: seq<Item>)
    requires items != []
    ensures Absorb(s, items) == Absorb(AbsorbItem(s, items[0]), items[1..])
  {
    hide BuildItem, ItemText, ItemCount, FlattenItem, Source;
    var x, xs := items[0], items[1..];
    assert items == [x] + xs;
    SourceOfCons(x, xs);
    AbsorbedTwice(s, BuildItem(x, s.position), ItemText(x), ItemCount(x), Width(x),
                  Build(xs, s.position + Width(x)), DirectText(xs), ElementCount(xs), |SourceOf(xs)|);
  }

  lemma AdmissibleCons(s: State, items: seq<Item>, limits: Limits, mode: ParseMode)
    requires items != []
    ensures Admissible(s, items, limits, mode) <==>
            ItemAdmissible(s, items[0], limits, mode) && Admissible(AbsorbItem(s, items[0]), items[1..], limits, mode)
  {
    assert items == [items[0]] + items[1..];
    assert Within(items, |s.stack|, limits, mode) <==>
           ItemWithin(items[0], |s.stack|, limits, mode) && Within(items[1..], |s.stack|, limits, mode);
  }

  /**
   * The loop runs through a forest in one go: it absorbs it when every measure fits, and
   * fails somewhere inside when one does not.
   */
  lemma {:induction false} ForestSteps(s: State, items: seq<Item>, rest: seq<Token>, limits: Limits, mode: ParseMode)
    requires Shaped(items) && TextFits(s, 0, limits) && s.count <= limits.maxNodes
    ensures Admissible(s, items, limits, mode) ==>
              Parse(s, Flatten(items) + rest, limits, mode) == Parse(Absorb(s, items), rest, limits, mode)
    ensures !Admissible(s, items, limits, mode) ==> Parse(s, Flatten(items) + rest, limits, mode).Err?
    decreases items
  {
    if items == [] {
      assert Flatten(items) + rest == rest;
      assert Absorb(s, []) == Absorbed(s, [], "", 0, 0);
      AbsorbNothing(s, 0);
    } else {
      AdmissibleCons(s, items, limits, mode);
      AbsorbCons(s, items);
      var after := Flatten(items[1..]) + rest;
      FlattenFirst(items, rest);
      ItemSteps(s, items[0], after, limits, mode);
      if ItemAdmissible(s, items[0], limits, mode) {
        var next := AbsorbItem(s, items[0]);
        AbsorbItemFits(s, items[0], limits, mode);
        ForestSteps(next, items[1..], rest, limits, mode);
      }
    }
  }

  lemma FlattenFirst(items: seq<Item>, rest: seq<Token>)
    requires items != []
    ensures Flatten(items) + rest == FlattenItem(items[0]) + (Flatten(items[1..]) + rest)
  {
  }

  lemma AbsorbItemFits(s: State, item: Item, limits: Limits, mode: ParseMode)
    requires ItemAdmissible(s, item, limits, mode)
    ensures TextFits(AbsorbItem(s, item), 0, limits) && AbsorbItem(s, item).count <= limits.maxNodes
  {
  }

  lemma AbsorbNothing(s: State, width: nat)
    ensures Absorbed(s, [], "", 0, width) == s.(position := s.position + width)
  {
    if s.stack != [] {
      var top := s.stack[|s.stack| - 1];
      assert top.children + [] == top.children && top.text + "" == top.text;
      assert s.stack[..|s.stack| - 1] + [top] == s.stack;
    } else {
      assert s.roots + [] == s.roots;
    }
  }

  lemma AbsorbNode(s: State, node: Node, width: nat)
    ensures var (stack, roots) := PushChild(s.stack, s.roots, node);
            Absorbed(s, [node], "", 1, width) == State(stack, roots, s.count + 1, s.position + width)
  {
    if s.stack != [] {
      assert s.stack[|s.stack| - 1].text + "" == s.stack[|s.stack| - 1].text;
    }
  }

  lemma AbsorbText(s: State, text: string, width: nat)
    requires s.stack != []
    ensures var top := s.stack[|s.stack| - 1];
            Absorbed(s, [], text, 0, width)
            == s.(stack := s.stack[..|s.stack| - 1] + [top.(text := top.text + text)], position := s.position + width)
  {
    assert s.stack[|s.stack| - 1].children + [] == s.stack[|s.stack| - 1].children;
  }

  lemma {:induction false} ItemSteps(s: State, item: Item, rest: seq<Token>, limits: Limits, mode: ParseMode)
    requires ShapedItem(item) && TextFits(s, 0, limits) && s.count <= limits.maxNodes
    ensures ItemAdmissible(s, item, limits, mode) ==>
              Parse(s, FlattenItem(item) + rest, limits, mode) == Parse(AbsorbItem(s, item), rest, limits, mode)
    ensures !ItemAdmissible(s, item, limits, mode) ==> Parse(s, FlattenItem(item) + rest, limits, mode).Err?
    decreases item
  {
    hide Parse, Absorbed, Kept, FindLt, AttributesWithin, Source, Width;
    match item
    case Leaf(token) =>
      ParseCons(s, token, rest, limits, mode);
      LeafStep(s, token, limits, mode);
    case Element(open, body, close) =>
      var inner := Flatten(body) + ([close] + rest);
      assert FlattenItem(item) + rest == [open] + inner;
      ParseCons(s, open, inner, limits, mode);
      var begun := Step(s, open, limits, mode);
      if begun.Ok? {
        ForestSteps(begun.value, body, [close] + rest, limits, mode);
        ParseCons(Absorb(begun.value, body), close, rest, limits, mode);
        ElementCloses(s, item, limits, mode);
      }
  }

  lemma LeafStep(s: State, token: Token, limits: Limits, mode: ParseMode)
    requires !token.event.StartTag? && !token.event.EndTag? && TextFits(s, 0, limits) && s.count <= limits.maxNodes
    ensures ItemAdmissible(s, Leaf(token), limits, mode) ==>
        Step(s, token, limits, mode) == Ok(AbsorbItem(s, Leaf(token)))
    ensures !ItemAdmissible(s, Leaf(token), limits, mode) ==> Step(s, token, limits, mode).Err?
  {
    var item, width := Leaf(token), |token.source|;
    assert FlattenItem(item) == [token] && Source([token]) == token.source + Source([]);
    assert Width(item) == width;
    if token.event.EmptyTag? {
      var tag := token.event.tag;
      var node := Node(tag.localName, Kept(tag.attrs), [], "", s.position + FindLt(token.source), s.position + width);
      AbsorbNode(s, node, width);
    } else if s.stack == [] || token.event.Misc? {
      AbsorbNothing(s, width);
    } else {
      AbsorbText(s, ItemText(item), width);
    }
  }

  lemma ElementParts(item: Item, offset: nat)
    requires item.Element? && ShapedItem(item)
    ensures Width(item) == |item.open.source| + |SourceOf(item.body)| + |item.close.source|
    ensures var tag, inner := item.open.event.tag, offset + |item.open.source|;
            BuildItem(item, offset) == [Node(tag.localName, Kept(tag.attrs), Build(item.body, inner),
                                             DirectText(item.body), offset + FindLt(item.open.source),
                                             offset + Width(item))]
    ensures ItemText(item) == "" && ItemCount(item) == 1 + ElementCount(item.body)
  {
    SourceOfElement(item);
  }

  lemma ElementCloses(s: State, item: Item, limits: Limits, mode: ParseMode)
    requires item.Element? && ShapedItem(item) && Step(s, item.open, limits, mode).Ok?
    ensures var inside := Absorb(Step(s, item.open, limits, mode).value, item.body);
            Step(inside, item.close, limits, mode) == Ok(AbsorbItem(s, item))
  {
    hide PushChild, FindLt, Kept, AttributesWithin, BuildItem, ItemText, ItemCount, Width, SourceOf, Build, DirectText,
         ElementCount;
    ElementParts(item, s.position);
    var begun := Step(s, item.open, limits, mode).value;
    var inside := Absorb(begun, item.body);
    var tag := item.open.event.tag;
    var start := s.position + FindLt(item.open.source);
    var node := Node(tag.localName, Kept(tag.attrs), Build(item.body, begun.position), DirectText(item.body), start, 0);
    assert begun.stack == s.stack + [Node(tag.localName, Kept(tag.attrs), [], "", start, 0)];
    NothingBefore(Build(item.body, begun.position));
    NothingBefore(DirectText(item.body));
    assert inside.stack == s.stack + [node];
    assert inside.stack[..|inside.stack| - 1] == s.stack;
    AbsorbNode(s, node.(end := s.position + Width(item)), Width(item));
  }

  // ----- the main results

  /**
   * A tree's stream parses exactly when the tree's own measures are within the limits, and
   * then to the tree's nodes with their spans.
   */
  lemma ParseBuildsTheTree(items: seq<Item>, limits: Limits, mode: ParseMode)
    requires Shaped(items)
    ensures ParseAll(Flatten(items), limits, mode).Ok? <==> DocumentWithin(items, limits, mode)
    ensures DocumentWithin(items, limits, mode) ==> ParseAll(Flatten(items), limits, mode).value == Build(items, 0)
  {
    if |SourceOf(items)| <= limits.maxBytes {
      ForestSteps(START, items, [], limits, mode);
      assert Flatten(items) + [] == Flatten(items);
      assert [] + Build(items, 0) == Build(items, 0);
    }
  }

  /** After a stream without stray end tags, the loop's stack is as deep as the tags leave open. */
  lemma {:induction false} AcceptedStreamIsBalanced(s: State, tokens: seq<Token>, limits: Limits, mode: ParseMode)
    requires NoStrayEnd(tokens, |s.stack|)
    requires Parse(s, tokens, limits, mode).Ok?
    ensures Balanced(tokens, |s.stack|)
    decreases |tokens|
  {
    if tokens != [] {
      var next := Step(s, tokens[0], limits, mode).value;
      StepDepth(s, tokens[0], limits, mode);
      AcceptedStreamIsBalanced(next, tokens[1..], limits, mode);
    }
  }

  lemma StepDepth(s: State, token: Token, limits: Limits, mode: ParseMode)
    requires Step(s, token, limits, mode).Ok? && (token.event.EndTag? ==> s.stack != [])
    ensures |Step(s, token, limits, mode).value.stack| ==
            match token.event
            case StartTag(_) => |s.stack| + 1
            case EndTag => |s.stack| - 1
            case _ => |s.stack|
  {
  }

  /** Conversely, whatever the loop accepts from the reader is the stream of some tree. */
  lemma AcceptedStreamIsATree(tokens: seq<Token>, limits: Limits, mode: ParseMode)
    requires NoStrayEnd(tokens, 0) && ParseAll(tokens, limits, mode).Ok?
    ensures exists items :: && Shaped(items) && Flatten(items) == tokens && DocumentWithin(items, limits, mode)
                            && ParseAll(tokens, limits, mode).value == Build(items, 0)
  {
    AcceptedStreamIsBalanced(START, tokens, limits, mode);
    BalancedIffTree(tokens);
    var items :| Shaped(items) && Flatten(items) == tokens;
    ParseBuildsTheTree(items, limits, mode);
  }
}
