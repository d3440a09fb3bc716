/**
 * The DOM builder of src/xml/dom.rs: an explicit-stack loop over reader events with
 * resource limits, proved to build the tree whose flattening is the event stream.
 */
module XmlDom {
  import opened Prelude
  import opened XmlEvents

  datatype Limits = Limits(
    maxBytes: nat,
    maxDepth: nat,
    maxNodes: nat,
    maxAttributes: nat,
    maxAttributeValueBytes: nat,
    maxTextBytes: nat)

  datatype Node = Node(
    localName: string,
    attrs: seq<(string, string)>,
    children: seq<Node>,
    text: string,
    start: nat,
    end: nat)

  /** One document element, or any number of top-level elements. */
  datatype ParseMode = Document | Roots

  // ----- attributes

  /** Attributes kept in the DOM: namespace declarations are dropped. */
  function Kept(attrs: seq<Attribute>): seq<(string, string)> {
    if attrs == [] then []
    else
      (match attrs[0]
       case Attribute(name, Some(value), false) => [(name, value)]
       case _ => []) + Kept(attrs[1..])
  }

  predicate AttributeWithin(a: Attribute, limits: Limits) {
    a.Attribute? && a.value.Some? && |a.value.value| <= limits.maxAttributeValueBytes
  }

  predicate AttributesWithin(attrs: seq<Attribute>, limits: Limits) {
    |attrs| <= limits.maxAttributes && forall a :: a in attrs ==> AttributeWithin(a, limits)
  }

  lemma {:induction false} KeptSnoc(attrs: seq<Attribute>, a: Attribute)
    ensures Kept(attrs + [a]) == Kept(attrs) + Kept([a])
  {
    if attrs != [] {
      KeptSnoc(attrs[1..], a);
      assert (attrs + [a])[1..] == attrs[1..] + [a];
    } else {
      assert attrs + [a] == [a];
    }
  }

  method ReadAttrs(attrs: seq<Attribute>, limits: Limits) returns (r: Result<seq<(string, string)>, SamlError>)
    ensures r == ReadAttributes(attrs, limits)
  {
    var kept: seq<(string, string)> := [];
    for i := 0 to |attrs|
      invariant i <= limits.maxAttributes
      invariant forall k :: 0 <= k < i ==> AttributeWithin(attrs[k], limits)
      invariant kept == Kept(attrs[..i])
      invariant AttributesWithin(attrs, limits)
                || FirstAttributeError(attrs, limits) == FirstAttributeErrorFrom(attrs, i, limits)
    {
      if i >= limits.maxAttributes {
        return Err(Invalid);
      }
      if attrs[i].MalformedAttribute? || attrs[i].value.None? {
        assert !AttributeWithin(attrs[i], limits);
        return Err(Xml);
      }
      if |attrs[i].value.value| > limits.maxAttributeValueBytes {
        assert !AttributeWithin(attrs[i], limits);
        return Err(Invalid);
      }
      KeptSnoc(attrs[..i], attrs[i]);
      assert attrs[..i + 1] == attrs[..i] + [attrs[i]];
      if attrs[i].isNamespace {
        continue;
      }
      kept := kept + [(attrs[i].name, attrs[i].value.value)];
    }
    assert attrs[..|attrs|] == attrs;
    r := Ok(kept);
  }

  function ReadAttributes(attrs: seq<Attribute>, limits: Limits): Result<seq<(string, string)>, SamlError> {
    if AttributesWithin(attrs, limits) then Ok(Kept(attrs)) else Err(FirstAttributeError(attrs, limits))
  }

  function FirstAttributeError(attrs: seq<Attribute>, limits: Limits): SamlError {
    FirstAttributeErrorFrom(attrs, 0, limits)
  }

  function FirstAttributeErrorFrom(attrs: seq<Attribute>, i: nat, limits: Limits): SamlError
    decreases |attrs| - i
  {
    if i >= limits.maxAttributes || i >= |attrs| then Invalid
    else if attrs[i].MalformedAttribute? || attrs[i].value.None? then Xml
    else if |attrs[i].value.value| > limits.maxAttributeValueBytes then Invalid
    else FirstAttributeErrorFrom(attrs, i + 1, limits)
  }

  // ----- the loop, one event at a time

  datatype State = State(stack: seq<Node>, roots: seq<Node>, count: nat, position: nat)

  const START: State := State([], [], 0, 0)

  /** Offset of the opening `<` inside a slice; 0 when there is none. */
  function FindLt(source: string): nat {
    FindLtFrom(source, 0)
  }

  function FindLtFrom(source: string, i: nat): (r: nat)
    ensures r == 0 || r < |source|
    decreases |source| - i
  {
    if i >= |source| then 0 else if source[i] == '<' then i else FindLtFrom(source, i + 1)
  }

  predicate XmlWhitespace(text: string) {
    forall c :: c in text ==> XmlSpace(c)
  }

  function PushChild(stack: seq<Node>, roots: seq<Node>, node: Node): (seq<Node>, seq<Node>) {
    if stack == [] then (stack, roots + [node])
    else
      var top := stack[|stack| - 1];
      (stack[..|stack| - 1] + [top.(children := top.children + [node])], roots)
  }

  /** Node-count, depth and attribute checks of an opening tag, in source order. */
  function OpenNode(s: State, tag: Tag, source: string, limits: Limits, end: nat): Result<Node, SamlError> {
    if s.count + 1 > limits.maxNodes then Err(Invalid)
    else if |s.stack| + 1 > limits.maxDepth then Err(Invalid)
    else
      match ReadAttributes(tag.attrs, limits)
      case Err(e) => Err(e)
      case Ok(attrs) => Ok(Node(tag.localName, attrs, [], "", s.position + FindLt(source), end))
  }

  function AppendText(s: State, text: string, limits: Limits, after: nat): Result<State, SamlError>
    requires s.stack != []
  {
    var top := s.stack[|s.stack| - 1];
    if |top.text| + |text| > limits.maxTextBytes then Err(Invalid)
    else Ok(s.(stack := s.stack[..|s.stack| - 1] + [top.(text := top.text + text)], position := after))
  }

  function OutsideContent(s: State, mode: ParseMode, after: nat): Result<State, SamlError> {
    if mode.Document? then Err(Xml) else Ok(s.(position := after))
  }

  function Step(s: State, token: Token, limits: Limits, mode: ParseMode): Result<State, SamlError> {
    var after := s.position + |token.source|;
    match token.event
    case StartTag(tag) =>
      (match OpenNode(s, tag, token.source, limits, 0)
       case Err(e) => Err(e)
       case Ok(node) => Ok(State(s.stack + [node], s.roots, s.count + 1, after)))
    case EmptyTag(tag) =>
      (match OpenNode(s, tag, token.source, limits, after)
       case Err(e) => Err(e)
       case Ok(node) =>
         var (stack, roots) := PushChild(s.stack, s.roots, node);
         Ok(State(stack, roots, s.count + 1, after)))
    case EndTag =>
      if s.stack == [] then Ok(s.(position := after))
      else
        var node := s.stack[|s.stack| - 1].(end := after);
        var (stack, roots) := PushChild(s.stack[..|s.stack| - 1], s.roots, node);
        Ok(State(stack, roots, s.count, after))
    case Text(None) => Err(Xml)
    case Text(Some(text)) =>
      if s.stack != [] then AppendText(s, text, limits, after)
      else if !XmlWhitespace(text) then OutsideContent(s, mode, after)
      else Ok(s.(position := after))
    case CData(text) =>
      if s.stack != [] then AppendText(s, text, limits, after) else OutsideContent(s, mode, after)
    case Reference(resolved) =>
      if s.stack == [] then OutsideContent(s, mode, after)
      else if resolved.None? then Err(Xml)
      else AppendText(s, resolved.value, limits, after)
    case DocType => Err(Xml)
    case Misc => Ok(s.(position := after))
    case Malformed => Err(Xml)
  }

  /** Steps to the end of the stream, where every element must be closed. */
  function Parse(s: State, tokens: seq<Token>, limits: Limits, mode: ParseMode): Result<seq<Node>, SamlError>
    decreases |tokens|
  {
    if tokens == [] then (if s.stack == [] then Ok(s.roots) else Err(Xml))
    else
      match Step(s, tokens[0], limits, mode)
      case Err(e) => Err(e)
      case Ok(next) => Parse(next, tokens[1..], limits, mode)
  }

  function ParseAll(tokens: seq<Token>, limits: Limits, mode: ParseMode): Result<seq<Node>, SamlError> {
    if |Source(tokens)| > limits.maxBytes then Err(Invalid) else Parse(START, tokens, limits, mode)
  }

  lemma ParseAt(s: State, tokens: seq<Token>, i: nat, limits: Limits, mode: ParseMode)
    requires i < |tokens|
    ensures var next := Step(s, tokens[i], limits, mode);
            && (next.Err? ==> Parse(s, tokens[i..], limits, mode) == Err(next.error))
            && (next.Ok? ==> Parse(s, tokens[i..], limits, mode) == Parse(next.value, tokens[i + 1..], limits, mode))
  {
    hide Step;
    assert tokens[i..][0] == tokens[i] && tokens[i..][1..] == tokens[i + 1..];
  }

  lemma ParseAtEnd(s: State, tokens: seq<Token>, limits: Limits, mode: ParseMode)
    ensures Parse(s, tokens[|tokens|..], limits, mode) == if s.stack == [] then Ok(s.roots) else Err(Xml)
  {
    assert tokens[|tokens|..] == [];
  }

  method ParseRootsInner(tokens: seq<Token>, limits: Limits, mode: ParseMode) returns (r: Result<seq<Node>, SamlError>)
    ensures r == ParseAll(tokens, limits, mode)
  {
    hide Parse, Source, FindLt, ReadAttributes, XmlWhitespace;
    if |Source(tokens)| > limits.maxBytes {
      return Err(Invalid);
    }
    var stack: seq<Node>, roots: seq<Node> := [], [];
    var nodeCount: nat, position: nat := 0, 0;
    assert tokens[0..] == tokens;
    for i := 0 to |tokens|
      invariant Parse(START, tokens, limits, mode)
             == Parse(State(stack, roots, nodeCount, position), tokens[i..], limits, mode)
    {
      ParseAt(State(stack, roots, nodeCount, position), tokens, i, limits, mode);
      var token := tokens[i];
      var before, after := position, position + |token.source|;
      match token.event {
        case StartTag(tag) =>
          nodeCount := nodeCount + 1;
          if nodeCount > limits.maxNodes {
            return Err(Invalid);
          }
          if |stack| + 1 > limits.maxDepth {
            return Err(Invalid);
          }
          var attrs := ReadAttrs(tag.attrs, limits);
          if attrs.Err? {
            return attrs.PropagateFailure();
          }
          stack := stack + [Node(tag.localName, attrs.value, [], "", before + FindLt(token.source), 0)];
        case EmptyTag(tag) =>
          nodeCount := nodeCount + 1;
          if nodeCount > limits.maxNodes {
            return Err(Invalid);
          }
          if |stack| + 1 > limits.maxDepth {
            return Err(Invalid);
          }
          var attrs := ReadAttrs(tag.attrs, limits);
          if attrs.Err? {
            return attrs.PropagateFailure();
          }
          var node := Node(tag.localName, attrs.value, [], "", before + FindLt(token.source), after);
          var pushed := PushChild(stack, roots, node);
          stack, roots := pushed.0, pushed.1;
        case EndTag =>
          if stack != [] {
            var node := stack[|stack| - 1].(end := after);
            var pushed := PushChild(stack[..|stack| - 1], roots, node);
            stack, roots := pushed.0, pushed.1;
          }
        case Text(decoded) =>
          if decoded.None? {
            return Err(Xml);
          }
          if stack != [] {
            var top := stack[|stack| - 1];
            if |top.text| + |decoded.value| > limits.maxTextBytes {
              return Err(Invalid);
            }
            stack := stack[..|stack| - 1] + [top.(text := top.text + decoded.value)];
          } else if !XmlWhitespace(decoded.value) && mode.Document? {
            return Err(Xml);
          }
        case CData(text) =>
          if stack != [] {
            var top := stack[|stack| - 1];
            if |top.text| + |text| > limits.maxTextBytes {
              return Err(Invalid);
            }
            stack := stack[..|stack| - 1] + [top.(text := top.text + text)];
          } else if mode.Document? {
            return Err(Xml);
          }
        case Reference(resolved) =>
          if stack != [] {
            if resolved.None? {
              return Err(Xml);
            }
            var top := stack[|stack| - 1];
            if |top.text| + |resolved.value| > limits.maxTextBytes {
              return Err(Invalid);
            }
            stack := stack[..|stack| - 1] + [top.(text := top.text + resolved.value)];
          } else if mode.Document? {
            return Err(Xml);
          }
        case DocType => return Err(Xml);
        case Misc =>
        case Malformed => return Err(Xml);
      }
      position := after;
    }
    ParseAtEnd(State(stack, roots, nodeCount, position), tokens, limits, mode);
    if stack != [] {
      return Err(Xml);
    }
    r := Ok(roots);
  }

  /** `parse_with_limits`: a document has exactly one root. */
  function ParseDocument(tokens: seq<Token>, limits: Limits): Result<Node, SamlError> {
    match ParseAll(tokens, limits, Document)
    case Err(e) => Err(e)
    case Ok(roots) => if |roots| == 1 then Ok(roots[0]) else Err(Xml)
  }

  // ----- the tree

  /** Decoded text directly inside an element. */
  function DirectText(items: seq<Item>): string {
    if items == [] then "" else ItemText(items[0]) + DirectText(items[1..])
  }

  function ItemText(item: Item): string {
    match item
    case Leaf(Token(Text(Some(text)), _)) => text
    case Leaf(Token(CData(text), _)) => text
    case Leaf(Token(Reference(Some(text)), _)) => text
    case _ => ""
  }

  function Width(item: Item): nat {
    |Source(FlattenItem(item))|
  }

  /** The nodes of a forest whose source begins at `offset`. */
  function Build(items: seq<Item>, offset: nat): seq<Node> {
    if items == [] then []
    else BuildItem(items[0], offset) + Build(items[1..], offset + Width(items[0]))
  }

  function BuildItem(item: Item, offset: nat): seq<Node> {
    match item
    case Element(open, body, close) =>
      if open.event.StartTag? then
        [Node(open.event.tag.localName, Kept(open.event.tag.attrs), Build(body, offset + |open.source|),
              DirectText(body), offset + FindLt(open.source), offset + Width(item))]
      else []
    case Leaf(token) =>
      if token.event.EmptyTag? then
        [Node(token.event.tag.localName, Kept(token.event.tag.attrs), [], "", offset + FindLt(token.source),
              offset + |token.source|)]
      else []
  }

  function ElementCount(items: seq<Item>): nat {
    if items == [] then 0 else ItemCount(items[0]) + ElementCount(items[1..])
  }

  function ItemCount(item: Item): nat {
    match item
    case Element(_, body, _) => 1 + ElementCount(body)
    case Leaf(token) => if token.event.EmptyTag? then 1 else 0
  }

  /** Depth, attribute and text measures of everything inside `depth` open elements. */
  predicate Within(items: seq<Item>, depth: nat, limits: Limits, mode: ParseMode) {
    forall item :: item in items ==> ItemWithin(item, depth, limits, mode)
  }

  predicate ItemWithin(item: Item, depth: nat, limits: Limits, mode: ParseMode) {
    match item
    case Element(open, body, _) =>
      && open.event.StartTag?
      && depth + 1 <= limits.maxDepth
      && AttributesWithin(open.event.tag.attrs, limits)
      && |DirectText(body)| <= limits.maxTextBytes
      && forall child :: child in body ==> ItemWithin(child, depth + 1, limits, mode)
    case Leaf(token) =>
      match token.event
      case EmptyTag(tag) => depth + 1 <= limits.maxDepth && AttributesWithin(tag.attrs, limits)
      case Text(decoded) => decoded.Some? && (depth > 0 || mode.Roots? || XmlWhitespace(decoded.value))
      case CData(_) => depth > 0 || mode.Roots?
      case Reference(resolved) => if depth > 0 then resolved.Some? else mode.Roots?
      case Misc => true
      case _ => false
  }

  /** The limits of a whole document, as measures of its tree. */
  predicate DocumentWithin(items: seq<Item>, limits: Limits, mode: ParseMode) {
    && |SourceOf(items)| <= limits.maxBytes
    && ElementCount(items) <= limits.maxNodes
    && Within(items, 0, limits, mode)
  }
}
