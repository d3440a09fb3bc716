/**
 * The streaming check that decides where XML signatures may stand (src/crypto/verify.rs,
 * preflight_backend_signatures), proved equal to a recursive property of the tree.
 */
module Preflight {
  import opened Prelude
  import opened XmlEvents
  import opened XmlDom

  const DSIG: string := "http://www.w3.org/2000/09/xmldsig#"
  const PROTOCOL: string := "urn:oasis:names:tc:SAML:2.0:protocol"
  const ASSERTION: string := "urn:oasis:names:tc:SAML:2.0:assertion"
  const METADATA: string := "urn:oasis:names:tc:SAML:2.0:metadata"

  // ----- references and transforms

  datatype Target = WholeDocument | Id(id: string)

  predicate StartsWith(s: string, prefix: string) {
    prefix <= s
  }

  predicate EndsWith(s: string, suffix: string) {
    |suffix| <= |s| && s[|s| - |suffix|..] == suffix
  }

  const XPOINTER: string := "xpointer("
  const XPOINTER_ID: string := "xpointer(id('"
  const XPOINTER_END: string := "'))"

  /** `verified_target_from_uri`: what a same-document reference names. */
  function TargetOf(uri: string): Result<Target, SamlError> {
    if uri == "" || uri == "#xpointer(/)" then Ok(WholeDocument)
    else if uri[0] != '#' || |uri| == 1 then Err(ReferenceResolution)
    else
      var fragment := uri[1..];
      if StartsWith(fragment, XPOINTER_ID) && EndsWith(fragment[|XPOINTER_ID|..], XPOINTER_END) then
        var rest := fragment[|XPOINTER_ID|..];
        var id := rest[..|rest| - |XPOINTER_END|];
        if id == "" then Err(ReferenceResolution) else Ok(Id(id))
      else if StartsWith(fragment, XPOINTER) then Err(ReferenceResolution)
      else Ok(Id(fragment))
  }

  /** A reference names the whole document or a non-empty identifier, never anything external. */
  lemma TargetsAreLocal(uri: string)
    ensures TargetOf(uri).Ok? ==> uri == "" || uri[0] == '#'
    ensures TargetOf(uri).Ok? && TargetOf(uri).value.Id? ==> TargetOf(uri).value.id != ""
  {
  }

  const ENVELOPED: string := "http://www.w3.org/2000/09/xmldsig#enveloped-signature"
  const EXC_C14N: string := "http://www.w3.org/2001/10/xml-exc-c14n#"
  const C14N_10: string := "http://www.w3.org/TR/2001/REC-xml-c14n-20010315"
  const C14N_11: string := "http://www.w3.org/2006/12/xml-c14n11"

  predicate PreservesContent(algorithm: string) {
    || algorithm == ENVELOPED
    || algorithm == EXC_C14N || algorithm == EXC_C14N + "WithComments"
    || algorithm == C14N_10 || algorithm == C14N_10 + "#WithComments"
    || algorithm == C14N_11 || algorithm == C14N_11 + "#WithComments"
  }

  /** The part of a qualified name after its first colon. */
  function LocalPart(name: string): string {
    AfterColon(name, name)
  }

  function AfterColon(rest: string, whole: string): string {
    if rest == "" then whole else if rest[0] == ':' then rest[1..] else AfterColon(rest[1..], whole)
  }

  /** `signature_attribute`: the last unqualified attribute of that name; a qualified alias is an error. */
  function AttributeFrom(
      attrs: seq<Attribute>, name: string, found: Option<string>): Result<Option<string>, SamlError>
  {
    if attrs == [] then Ok(found)
    else
      match attrs[0]
      case MalformedAttribute => Err(Xml)
      case Attribute(key, value, isNamespace) =>
        if isNamespace || LocalPart(key) != name then AttributeFrom(attrs[1..], name, found)
        else if key != name || value.None? then Err(Xml)
        else AttributeFrom(attrs[1..], name, value)
  }

  method SignatureAttribute(attrs: seq<Attribute>, name: string) returns (r: Result<Option<string>, SamlError>)
    ensures r == AttributeFrom(attrs, name, None)
  {
    var value: Option<string> := None;
    for i := 0 to |attrs|
      invariant AttributeFrom(attrs, name, None) == AttributeFrom(attrs[i..], name, value)
    {
      assert attrs[i..][0] == attrs[i] && attrs[i..][1..] == attrs[i + 1..];
      if attrs[i].MalformedAttribute? {
        return Err(Xml);
      }
      if attrs[i].isNamespace {
        continue;
      }
      if LocalPart(attrs[i].name) == name {
        if attrs[i].name != name || attrs[i].value.None? {
          return Err(Xml);
        }
        value := attrs[i].value;
      }
    }
    r := Ok(value);
  }

  predicate ReferenceAllowed(tag: Tag) {
    var uri := AttributeFrom(tag.attrs, "URI", None);
    uri.Ok? && TargetOf(if uri.value.Some? then uri.value.value else "").Ok?
  }

  predicate TransformAllowed(tag: Tag) {
    var algorithm := AttributeFrom(tag.attrs, "Algorithm", None);
    algorithm.Ok? && algorithm.value.Some? && PreservesContent(algorithm.value.value)
  }

  // ----- the stack machine

  datatype Scope = NoScope | InSignature | InSignedInfo | InReference | InTransforms

  datatype Position = MessagePosition | ResponsePosition | AssertionPosition | OtherPosition

  datatype Frame = Frame(scope: Scope, position: Position)

  /** The resolved namespace: None when unbound, an empty name when the prefix is unknown. */
  function ResolvedNamespace(tag: Tag): Result<Option<string>, SamlError> {
    match tag.namespace
    case Unbound => Ok(None)
    case Bound(uri) => Ok(Some(uri))
    case UnknownPrefix => Ok(Some(""))
    case UndecodableNamespace => Err(Xml)
  }

  predicate IsDsig(tag: Tag, name: string) {
    ResolvedNamespace(tag) == Ok(Some(DSIG)) && tag.localName == name
  }

  /** Unqualified names keep their message roles; a foreign namespace never acquires one. */
  predicate InNamespace(tag: Tag, expected: string) {
    ResolvedNamespace(tag) == Ok(None) || ResolvedNamespace(tag) == Ok(Some(expected))
  }

  const PROTOCOL_MESSAGES: set<string> := {
    "AuthnRequest", "LogoutRequest", "LogoutResponse", "ArtifactResolve", "ArtifactResponse", "AssertionIDRequest",
    "SubjectQuery", "AuthnQuery", "AttributeQuery", "AuthzDecisionQuery", "ManageNameIDRequest", "ManageNameIDResponse",
    "NameIDMappingRequest", "NameIDMappingResponse"}

  function PositionOf(tag: Tag, ancestors: seq<Frame>): Position {
    if ancestors == [] then
      if tag.localName == "Assertion" && InNamespace(tag, ASSERTION) then MessagePosition
      else if tag.localName in {"EntityDescriptor", "EntitiesDescriptor"} && InNamespace(tag, METADATA) then
          MessagePosition
      else if InNamespace(tag, PROTOCOL) then
        if tag.localName == "Response" then ResponsePosition
        else if tag.localName in PROTOCOL_MESSAGES then MessagePosition
        else OtherPosition
      else OtherPosition
    else if |ancestors| == 1 && ancestors[0].position.ResponsePosition? && tag.localName == "Assertion"
        && InNamespace(tag, ASSERTION) then
      AssertionPosition
    else OtherPosition
  }

  function ScopeOf(tag: Tag, parent: Scope): Result<Scope, SamlError> {
    if IsDsig(tag, "Signature") then Ok(InSignature)
    else if IsDsig(tag, "SignedInfo") && parent.InSignature? then Ok(InSignedInfo)
    else if IsDsig(tag, "Reference") && parent.InSignedInfo? then
      if ReferenceAllowed(tag) then Ok(InReference) else Err(ReferenceResolution)
    else if IsDsig(tag, "Transforms") && parent.InReference? then Ok(InTransforms)
    else if IsDsig(tag, "Transform") && parent.InTransforms? then
      if TransformAllowed(tag) then Ok(NoScope) else Err(SignedReferenceMismatch)
    else Ok(NoScope)
  }

  function FrameOf(tag: Tag, scopes: seq<Frame>): Result<Frame, SamlError> {
    var parent := if scopes == [] then Frame(NoScope, OtherPosition) else scopes[|scopes| - 1];
    if ResolvedNamespace(tag).Err? then ResolvedNamespace(tag).PropagateFailure()
    else if IsDsig(tag, "Object") && exists frame :: frame in scopes && frame.scope.InSignature? then
        Err(PotentialWrappingAttack)
    else if IsDsig(tag, "Signature") && (scopes == [] || parent.position.OtherPosition?) then
        Err(PotentialWrappingAttack)
    else
      match ScopeOf(tag, parent.scope)
      case Err(e) => Err(e)
      case Ok(scope) => Ok(Frame(scope, PositionOf(tag, scopes)))
  }

  function PreflightFrom(scopes: seq<Frame>, tokens: seq<Token>): Result<(), SamlError>
    decreases |tokens|
  {
    if tokens == [] then Ok(())
    else
      match tokens[0].event
      case StartTag(tag) =>
        (match FrameOf(tag, scopes)
         case Err(e) => Err(e)
         case Ok(frame) => PreflightFrom(scopes + [frame], tokens[1..]))
      case EmptyTag(tag) =>
        (match FrameOf(tag, scopes)
         case Err(e) => Err(e)
         case Ok(_) => PreflightFrom(scopes, tokens[1..]))
      case EndTag => PreflightFrom(if scopes == [] then [] else scopes[..|scopes| - 1], tokens[1..])
      case Malformed => Err(Xml)
      case _ => PreflightFrom(scopes, tokens[1..])
  }

  method PreflightBackendSignatures(tokens: seq<Token>) returns (r: Result<(), SamlError>)
    ensures r == PreflightFrom([], tokens)
  {
    var scopes: seq<Frame> := [];
    for i := 0 to |tokens|
      invariant PreflightFrom([], tokens) == PreflightFrom(scopes, tokens[i..])
    {
      assert tokens[i..][0] == tokens[i] && tokens[i..][1..] == tokens[i + 1..];
      match tokens[i].event {
        case StartTag(tag) =>
          var frame := FrameOf(tag, scopes);
          if frame.Err? {
            return frame.PropagateFailure();
          }
          scopes := scopes + [frame.value];
        case EmptyTag(tag) =>
          var frame := FrameOf(tag, scopes);
          if frame.Err? {
            return frame.PropagateFailure();
          }
        case EndTag =>
          if scopes != [] {
            scopes := scopes[..|scopes| - 1];
          }
        case Malformed => return Err(Xml);
        case _ =>
      }
    }
    r := Ok(());
  }

  // ----- the property of the tree

  /** The place of an element: what its parent is. */
  datatype Place = Outside | InMessage | InResponse | InAssertion | Elsewhere {
    /** XML signatures stand directly under a message root or a direct Response assertion. */
    predicate PermitsSignature() {
      InMessage? || InResponse? || InAssertion?
    }
  }

  predicate IsMessageRoot(tag: Tag) {
    || (tag.localName == "Assertion" && InNamespace(tag, ASSERTION))
    || (tag.localName in {"EntityDescriptor", "EntitiesDescriptor"} && InNamespace(tag, METADATA))
    || (tag.localName in PROTOCOL_MESSAGES && InNamespace(tag, PROTOCOL))
  }

  function PlaceInside(place: Place, tag: Tag): Place {
    if place.Outside? && IsMessageRoot(tag) then InMessage
    else if place.Outside? && tag.localName == "Response" && InNamespace(tag, PROTOCOL) then InResponse
    else if place.InResponse? && tag.localName == "Assertion" && InNamespace(tag, ASSERTION) then InAssertion
    else Elsewhere
  }

  /** Where an element stands: its place, its parent's signature scope, and whether a signature encloses it. */
  datatype Spot = Spot(place: Place, scope: Scope, enclosed: bool) {
    function Within(tag: Tag): Spot {
      Spot(PlaceInside(place, tag),
           if ScopeOf(tag, scope).Ok? then ScopeOf(tag, scope).value else NoScope,
           enclosed || IsDsig(tag, "Signature"))
    }
  }

  predicate SafeTag(tag: Tag, spot: Spot) {
    && ResolvedNamespace(tag).Ok?
    && (IsDsig(tag, "Object") ==> !spot.enclosed)
    && (IsDsig(tag, "Signature") ==> spot.place.PermitsSignature())
    && (IsDsig(tag, "Reference") && spot.scope.InSignedInfo? ==> ReferenceAllowed(tag))
    && (IsDsig(tag, "Transform") && spot.scope.InTransforms? ==> TransformAllowed(tag))
  }

  predicate Safe(items: seq<Item>, spot: Spot) {
    forall item :: item in items ==> SafeItem(item, spot)
  }

  predicate SafeItem(item: Item, spot: Spot) {
    match item
    case Element(open, body, _) =>
      && open.event.StartTag?
      && SafeTag(open.event.tag, spot)
      && forall child :: child in body ==> SafeItem(child, spot.Within(open.event.tag))
    case Leaf(token) => (token.event.EmptyTag? ==> SafeTag(token.event.tag, spot)) && !token.event.Malformed?
  }

  const DOCUMENT: Spot := Spot(Outside, NoScope, false)

  /** Positions are what `PositionOf` gives them at their depth. */
  predicate Stacked(scopes: seq<Frame>) {
    forall i :: 0 < i < |scopes| ==> !scopes[i].position.MessagePosition? && !scopes[i].position.ResponsePosition?
  }

  function SpotOf(scopes: seq<Frame>): Spot {
    var enclosed := exists frame :: frame in scopes && frame.scope.InSignature?;
    if scopes == [] then Spot(Outside, NoScope, enclosed)
    else
      var top := scopes[|scopes| - 1];
      Spot(match top.position
           case MessagePosition => InMessage
           case ResponsePosition => InResponse
           case AssertionPosition => InAssertion
           case OtherPosition => Elsewhere,
           top.scope, enclosed)
  }

  lemma FrameIsSpot(tag: Tag, scopes: seq<Frame>)
    requires Stacked(scopes)
    ensures FrameOf(tag, scopes).Ok? <==> SafeTag(tag, SpotOf(scopes))
    ensures FrameOf(tag, scopes).Ok? ==>
              var grown := scopes + [FrameOf(tag, scopes).value];
              Stacked(grown) && SpotOf(grown) == SpotOf(scopes).Within(tag)
  {
    if FrameOf(tag, scopes).Ok? {
      var frame := FrameOf(tag, scopes).value;
      var grown := scopes + [frame];
      assert frame in grown;
      assert forall f :: f in grown <==> f in scopes || f == frame;
    }
  }

  lemma PreflightCons(scopes: seq<Frame>, t: Token, rest: seq<Token>)
    ensures t.event.StartTag? ==>
              && (FrameOf(t.event.tag, scopes).Ok? ==>
                    PreflightFrom(scopes, [t] + rest)
                    == PreflightFrom(scopes + [FrameOf(t.event.tag, scopes).value], rest))
              && (FrameOf(t.event.tag, scopes).Err? ==> PreflightFrom(scopes, [t] + rest).Err?)
    ensures t.event.EmptyTag? ==>
              && (FrameOf(t.event.tag, scopes).Ok? ==> PreflightFrom(scopes, [t] + rest) == PreflightFrom(scopes, rest))
              && (FrameOf(t.event.tag, scopes).Err? ==> PreflightFrom(scopes, [t] + rest).Err?)
    ensures t.event.EndTag? && scopes != [] ==>
              PreflightFrom(scopes, [t] + rest) == PreflightFrom(scopes[..|scopes| - 1], rest)
    ensures t.event.Malformed? ==> PreflightFrom(scopes, [t] + rest).Err?
    ensures !t.event.StartTag? && !t.event.EmptyTag? && !t.event.EndTag? && !t.event.Malformed? ==>
              PreflightFrom(scopes, [t] + rest) == PreflightFrom(scopes, rest)
  {
    hide FrameOf;
    assert ([t] + rest)[1..] == rest;
  }

  lemma {:induction false} ForestPreflight(scopes: seq<Frame>, items: seq<Item>, rest: seq<Token>)
    requires Shaped(items) && Stacked(scopes)
    ensures Safe(items, SpotOf(scopes)) ==> PreflightFrom(scopes, Flatten(items) + rest) == PreflightFrom(scopes, rest)
    ensures !Safe(items, SpotOf(scopes)) ==> PreflightFrom(scopes, Flatten(items) + rest).Err?
    decreases items
  {
    if items == [] {
      assert Flatten(items) + rest == rest;
    } else {
      var after := Flatten(items[1..]) + rest;
      assert items == [items[0]] + items[1..];
      assert Flatten(items) + rest == FlattenItem(items[0]) + after;
      ItemPreflight(scopes, items[0], after);
      ForestPreflight(scopes, items[1..], rest);
    }
  }

  lemma {:induction false} ItemPreflight(scopes: seq<Frame>, item: Item, rest: seq<Token>)
    requires ShapedItem(item) && Stacked(scopes)
    ensures SafeItem(item, SpotOf(scopes)) ==>
        PreflightFrom(scopes, FlattenItem(item) + rest) == PreflightFrom(scopes, rest)
    ensures !SafeItem(item, SpotOf(scopes)) ==> PreflightFrom(scopes, FlattenItem(item) + rest).Err?
    decreases item
  {
    hide PreflightFrom, FrameOf, SpotOf, Stacked, Spot.Within;
    match item
    case Leaf(token) =>
      PreflightCons(scopes, token, rest);
      if token.event.EmptyTag? {
        FrameIsSpot(token.event.tag, scopes);
      }
    case Element(open, body, close) =>
      var inner := Flatten(body) + ([close] + rest);
      assert FlattenItem(item) + rest == [open] + inner;
      PreflightCons(scopes, open, inner);
      FrameIsSpot(open.event.tag, scopes);
      if FrameOf(open.event.tag, scopes).Ok? {
        var grown := scopes + [FrameOf(open.event.tag, scopes).value];
        ForestPreflight(grown, body, [close] + rest);
        PreflightCons(grown, close, rest);
        assert grown[..|grown| - 1] == scopes;
      }
  }

  /** The streaming check accepts a document exactly when its tree is safe. */
  lemma PreflightIsSpotSafety(items: seq<Item>)
    requires Shaped(items)
    ensures PreflightFrom([], Flatten(items)).Ok? <==> Safe(items, DOCUMENT)
  {
    ForestPreflight([], items, []);
    assert Flatten(items) + [] == Flatten(items);
    assert SpotOf([]) == DOCUMENT;
  }

  // ----- every XML signature is a candidate

  function ChildrenNamed(n: Node, name: string): seq<Node> {
    NodesNamed(n.children, name)
  }

  function NodesNamed(nodes: seq<Node>, name: string): seq<Node> {
    if nodes == [] then []
    else (if nodes[0].localName == name then [nodes[0]] else []) + NodesNamed(nodes[1..], name)
  }

  function SignaturesOf(assertions: seq<Node>): seq<Node> {
    if assertions == [] then [] else ChildrenNamed(assertions[0], "Signature") + SignaturesOf(assertions[1..])
  }

  /** `saml_signature_candidates`: signatures of the root and of its direct assertions. */
  function SignatureCandidates(root: Node): seq<Node> {
    ChildrenNamed(root, "Signature") + SignaturesOf(ChildrenNamed(root, "Assertion"))
  }

  /** DOM nodes of all XML signatures anywhere in a forest. */
  function DsigSignatures(items: seq<Item>, offset: nat): seq<Node> {
    if items == [] then []
    else DsigSignaturesIn(items[0], offset) + DsigSignatures(items[1..], offset + Width(items[0]))
  }

  function DsigSignaturesIn(item: Item, offset: nat): seq<Node> {
    match item
    case Element(open, body, _) =>
      (if open.event.StartTag? && IsDsig(open.event.tag, "Signature") then BuildItem(item, offset) else [])
      + DsigSignatures(body, offset + |open.source|)
    case Leaf(token) =>
      if token.event.EmptyTag? && IsDsig(token.event.tag, "Signature") then BuildItem(item, offset) else []
  }

  lemma {:induction false} NamedIff(nodes: seq<Node>, name: string, n: Node)
    ensures n in NodesNamed(nodes, name) <==> n in nodes && n.localName == name
  {
    if nodes != [] {
      NamedIff(nodes[1..], name, n);
      assert nodes == [nodes[0]] + nodes[1..];
    }
  }

  lemma {:induction false} SignaturesOfContains(assertions: seq<Node>, a: Node, n: Node)
    requires a in assertions && n in a.children && n.localName == "Signature"
    ensures n in SignaturesOf(assertions)
  {
    if assertions[0] == a {
      NamedIff(a.children, "Signature", n);
    } else {
      SignaturesOfContains(assertions[1..], a, n);
    }
  }

  lemma {:induction false} NoSignatureElsewhere(items: seq<Item>, spot: Spot, offset: nat)
    requires Safe(items, spot) && spot.place.Elsewhere?
    ensures DsigSignatures(items, offset) == []
    decreases items
  {
    if items != [] {
      assert SafeItem(items[0], spot);
      NoSignatureElsewhere(items[1..], spot, offset + Width(items[0]));
      match items[0]
      case Leaf(_) =>
      case Element(open, body, _) => NoSignatureElsewhere(body, spot.Within(open.event.tag), offset + |open.source|);
    }
  }

  /** Where a signature may stand, every signature below is a direct child, or sits in a direct assertion. */
  lemma {:induction false} SignaturesAreShallow(items: seq<Item>, spot: Spot, offset: nat, n: Node)
    requires Safe(items, spot) && spot.place.PermitsSignature()
    requires n in DsigSignatures(items, offset)
    ensures || (n in Build(items, offset) && n.localName == "Signature")
            || (&& spot.place.InResponse?
                && exists a :: a in Build(items, offset) && a.localName == "Assertion" && n in a.children
                            && n.localName == "Signature")
    decreases items
  {
    hide SafeItem, Width, DsigSignaturesIn, BuildItem;
    var x := items[0];
    assert SafeItem(x, spot);
    if n in DsigSignatures(items[1..], offset + Width(x)) {
      SignaturesAreShallow(items[1..], spot, offset + Width(x), n);
    } else {
      SignaturesOfAnItemAreShallow(x, spot, offset, n);
    }
  }

  lemma {:induction false} SignaturesOfAnItemAreShallow(x: Item, spot: Spot, offset: nat, n: Node)
    requires SafeItem(x, spot) && spot.place.PermitsSignature() && n in DsigSignaturesIn(x, offset)
    ensures || (n in BuildItem(x, offset) && n.localName == "Signature")
            || (&& spot.place.InResponse?
                && exists a :: a in BuildItem(x, offset) && a.localName == "Assertion" && n in a.children
                            && n.localName == "Signature")
    decreases x
  {
    hide SafeTag, ScopeOf, Width, InNamespace, ResolvedNamespace, Build, DsigSignatures;
    var nodes := BuildItem(x, offset);
    if x.Element? && !(IsDsig(x.open.event.tag, "Signature") && n in nodes) {
      var inner := spot.Within(x.open.event.tag);
      if inner.place.Elsewhere? {
        NoSignatureElsewhere(x.body, inner, offset + |x.open.source|);
      } else {
        SignaturesAreShallow(x.body, inner, offset + |x.open.source|, n);
        assert nodes[0].children == Build(x.body, offset + |x.open.source|);
      }
    }
  }

  /** After the check accepts, every XML signature anywhere in the document is a candidate. */
  lemma AcceptedSignaturesAreCandidates(items: seq<Item>, root: Node)
    requires Shaped(items) && PreflightFrom([], Flatten(items)).Ok?
    requires Build(items, 0) == [root]
    ensures forall n :: n in DsigSignatures(items, 0) ==> n in SignatureCandidates(root)
  {
    PreflightIsSpotSafety(items);
    forall n | n in DsigSignatures(items, 0)
      ensures n in SignatureCandidates(root)
    {
      TopSignatureIsCandidate(items, 0, root, n);
    }
  }

  predicate AtMost(nodes: seq<Node>, root: Node) {
    |nodes| <= 1 && (nodes != [] ==> nodes[0] == root)
  }

  lemma {:induction false} TopSignatureIsCandidate(items: seq<Item>, offset: nat, root: Node, n: Node)
    requires Safe(items, DOCUMENT) && n in DsigSignatures(items, offset) && AtMost(Build(items, offset), root)
    ensures n in SignatureCandidates(root)
    decreases items
  {
    hide ScopeOf, Width, InNamespace, ResolvedNamespace, SignatureCandidates, BuildItem, DsigSignaturesIn;
    var x := items[0];
    assert SafeItem(x, DOCUMENT);
    if n in DsigSignaturesIn(x, offset) {
      SignatureInRoot(x, offset, root, n);
    } else {
      SignaturesNeedNodes(items[1..], offset + Width(x), n);
      TopSignatureIsCandidate(items[1..], offset + Width(x), root, n);
    }
  }

  lemma SignatureInRoot(x: Item, offset: nat, root: Node, n: Node)
    requires SafeItem(x, DOCUMENT) && n in DsigSignaturesIn(x, offset) && AtMost(BuildItem(x, offset), root)
    ensures n in SignatureCandidates(root)
  {
    hide ScopeOf, Width, InNamespace, ResolvedNamespace, SignatureCandidates, DsigSignatures;
    assert x.Element?;
    var inner := DOCUMENT.Within(x.open.event.tag);
    if inner.place.Elsewhere? {
      NoSignatureElsewhere(x.body, inner, offset + |x.open.source|);
    } else {
      SignaturesAreShallow(x.body, inner, offset + |x.open.source|, n);
      CandidateFromChild(root, n);
    }
  }

  lemma {:induction false} SignaturesNeedNodes(items: seq<Item>, offset: nat, n: Node)
    requires Safe(items, DOCUMENT) && n in DsigSignatures(items, offset)
    ensures Build(items, offset) != []
    decreases items
  {
    assert SafeItem(items[0], DOCUMENT);
    if n !in DsigSignaturesIn(items[0], offset) {
      SignaturesNeedNodes(items[1..], offset + Width(items[0]), n);
    }
  }

  lemma CandidateFromChild(root: Node, n: Node)
    requires n.localName == "Signature"
    requires n in root.children || exists a :: a in root.children && a.localName == "Assertion" && n in a.children
    ensures n in SignatureCandidates(root)
  {
    NamedIff(root.children, "Signature", n);
    if n !in root.children {
      var a :| a in root.children && a.localName == "Assertion" && n in a.children;
      NamedIff(root.children, "Assertion", a);
      SignaturesOfContains(ChildrenNamed(root, "Assertion"), a, n);
    }
  }
}
