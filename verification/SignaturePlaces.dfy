/**
 * Where XML signatures may stand and what they may refer to, said of the chain of tags from
 * the root to each element. The streaming check of src/crypto/verify.rs accepts exactly the
 * documents in which every such chain is allowed.
 */
module SignaturePlaces {
  import opened Prelude
  import opened XmlEvents
  import opened Preflight

  // ----- attributes and references, said outright

  predicate Named(a: Attribute, name: string) {
    a.Attribute? && !a.isNamespace && LocalPart(a.name) == name
  }

  /** No attribute is malformed, and none has the name behind a prefix or an undecodable value. */
  predicate Readable(attrs: seq<Attribute>, name: string) {
    forall a :: a in attrs ==> a.Attribute? && (Named(a, name) ==> a.name == name && a.value.Some?)
  }

  ghost predicate LastNamed(attrs: seq<Attribute>, name: string, i: int) {
    0 <= i < |attrs| && Named(attrs[i], name) && forall j :: i < j < |attrs| ==> !Named(attrs[j], name)
  }

  /** The value is the last one of that name, absent when there is none. */
  ghost predicate Carries(attrs: seq<Attribute>, name: string, value: Option<string>) {
    if value.None? then forall a :: a in attrs ==> !Named(a, name)
    else exists i :: LastNamed(attrs, name, i) && attrs[i].value == value
  }

  lemma {:induction false} AttributeFromReads(attrs: seq<Attribute>, name: string, found: Option<string>)
    ensures AttributeFrom(attrs, name, found).Ok? <==> Readable(attrs, name)
    ensures AttributeFrom(attrs, name, found).Ok? ==>
              var value := AttributeFrom(attrs, name, found).value;
              && ((forall a :: a in attrs ==> !Named(a, name)) ==> value == found)
              && (forall i :: LastNamed(attrs, name, i) ==> value == attrs[i].value)
  {
    if attrs != [] {
      var a, rest := attrs[0], attrs[1..];
      assert attrs == [a] + rest;
      var next := if Named(a, name) then a.value else found;
      AttributeFromReads(rest, name, next);
      assert Readable(attrs, name) ==> Readable(rest, name);
      forall i | LastNamed(attrs, name, i) && AttributeFrom(attrs, name, found).Ok?
        ensures AttributeFrom(attrs, name, found).value == attrs[i].value
      {
        if i > 0 {
          assert LastNamed(rest, name, i - 1);
        } else {
          forall b | b in rest
            ensures !Named(b, name)
          {
            var k :| 0 <= k < |rest| && rest[k] == b;
            assert attrs[k + 1] == b;
          }
        }
      }
    }
  }

  lemma {:induction false} SomeAttributeIsLast(attrs: seq<Attribute>, name: string)
    ensures (forall a :: a in attrs ==> !Named(a, name)) || exists i :: LastNamed(attrs, name, i)
  {
    if attrs != [] {
      var n := |attrs| - 1;
      SomeAttributeIsLast(attrs[..n], name);
      if Named(attrs[n], name) {
        assert LastNamed(attrs, name, n);
      } else if i :| LastNamed(attrs[..n], name, i) {
        assert LastNamed(attrs, name, i);
      }
    }
  }

  /** An attribute is read exactly when the list is readable for its name, and the last value counts. */
  lemma SignatureAttributeIsTheLast(attrs: seq<Attribute>, name: string, value: Option<string>)
    ensures AttributeFrom(attrs, name, None) == Ok(value) <==> Readable(attrs, name) && Carries(attrs, name, value)
  {
    AttributeFromReads(attrs, name, None);
    SomeAttributeIsLast(attrs, name);
  }

  /** The same document, by nothing, by a whole-document pointer, or by a non-empty identifier. */
  ghost predicate Designates(uri: string, target: Target) {
    match target
    case WholeDocument => uri == "" || uri == "#xpointer(/)"
    case Id(id) => id != "" && (uri == "#xpointer(id('" + id + "'))" || (uri == "#" + id && !(XPOINTER <= id)))
  }

  /** The pointer form reads back its identifier. */
  lemma PointerReads(id: string)
    ensures TargetOf("#xpointer(id('" + id + "'))") == if id == "" then Err(ReferenceResolution) else Ok(Id(id))
  {
    var uri := "#xpointer(id('" + id + "'))";
    var fragment := uri[1..];
    assert fragment == XPOINTER_ID + (id + XPOINTER_END);
    assert fragment[|XPOINTER_ID|..] == id + XPOINTER_END;
    assert (id + XPOINTER_END)[..|id|] == id && (id + XPOINTER_END)[|id|..] == XPOINTER_END;
    assert uri[10] == 'i' && "#xpointer(/)"[10] == '/';
  }

  lemma FragmentReads(id: string)
    requires id != "" && !(XPOINTER <= id)
    ensures TargetOf("#" + id) == Ok(Id(id))
  {
    assert ("#" + id)[1..] == id;
    assert XPOINTER <= XPOINTER_ID;
    assert "#xpointer(/)" == "#" + (XPOINTER + "/)");
    assert "#" + id == "#xpointer(/)" ==> id == XPOINTER + "/)";
  }

  lemma ReadTargetIsDesignated(uri: string)
    requires TargetOf(uri).Ok? && TargetOf(uri).value.Id?
    ensures Designates(uri, TargetOf(uri).value)
  {
    var fragment := uri[1..];
    var id := TargetOf(uri).value.id;
    assert uri == "#" + fragment;
    if StartsWith(fragment, XPOINTER_ID) && EndsWith(fragment[|XPOINTER_ID|..], XPOINTER_END) {
      assert fragment == XPOINTER_ID + (id + XPOINTER_END);
      assert uri == "#xpointer(id('" + id + "'))";
    }
  }

  /** A reference is accepted exactly when it designates something, and it designates one thing. */
  lemma TargetIsDesignated(uri: string, target: Target)
    ensures TargetOf(uri) == Ok(target) <==> Designates(uri, target)
  {
    hide TargetOf;
    if target.Id? && target.id != "" {
      PointerReads(target.id);
      if !(XPOINTER <= target.id) {
        FragmentReads(target.id);
      }
    }
    WholeDocumentReads(uri);
    if TargetOf(uri).Ok? && TargetOf(uri).value.Id? {
      ReadTargetIsDesignated(uri);
    }
  }

  lemma WholeDocumentReads(uri: string)
    ensures TargetOf(uri) == Ok(WholeDocument) <==> uri == "" || uri == "#xpointer(/)"
  {
  }

  // ----- chains of tags

  predicate Dsig(tag: Tag, name: string) {
    tag.namespace == Bound(DSIG) && tag.localName == name
  }

  /** The chain ends in XML Signature elements of these names, each directly below the one before it. */
  predicate Ends(chain: seq<Tag>, names: seq<string>) {
    && |names| <= |chain|
    && forall i :: 0 <= i < |names| ==> Dsig(chain[|chain| - |names| + i], names[i])
  }

  /** Unqualified, or in the namespace the name belongs to. */
  predicate Within(tag: Tag, namespace: string) {
    tag.namespace == Unbound || tag.namespace == Bound(namespace)
  }

  predicate MessageElement(tag: Tag) {
    || (tag.localName == "Assertion" && Within(tag, ASSERTION))
    || (tag.localName in {"EntityDescriptor", "EntitiesDescriptor"} && Within(tag, METADATA))
    || (tag.localName in PROTOCOL_MESSAGES + {"Response"} && Within(tag, PROTOCOL))
  }

  /** Directly below a message root, or below an Assertion directly in a Response root. */
  predicate SignaturePlace(above: seq<Tag>) {
    || (|above| == 1 && MessageElement(above[0]))
    || (&& |above| == 2 && above[0].localName == "Response" && Within(above[0], PROTOCOL)
        && above[1].localName == "Assertion" && Within(above[1], ASSERTION))
  }

  ghost predicate Local(uri: string) {
    exists target :: Designates(uri, target)
  }

  /** The reference's URI is readable and stays in the document. */
  ghost predicate ReferenceStaysInside(tag: Tag) {
    exists uri: Option<string> ::
      Readable(tag.attrs, "URI") && Carries(tag.attrs, "URI", uri) && Local(if uri.Some? then uri.value else "")
  }

  /** The transform names an algorithm that keeps the content. */
  ghost predicate TransformKeepsContent(tag: Tag) {
    exists algorithm ::
      && Readable(tag.attrs, "Algorithm") && Carries(tag.attrs, "Algorithm", Some(algorithm))
      && PreservesContent(algorithm)
  }

  const REFERENCE: seq<string> := ["Signature", "SignedInfo", "Reference"]
  const TRANSFORM: seq<string> := ["Signature", "SignedInfo", "Reference", "Transforms", "Transform"]

  /** What the chain from the root to an element must satisfy; the element is its last. */
  ghost predicate Allowed(above: seq<Tag>, tag: Tag) {
    var chain := above + [tag];
    && !tag.namespace.UndecodableNamespace?
    && (Dsig(tag, "Object") ==> forall t :: t in above ==> !Dsig(t, "Signature"))
    && (Dsig(tag, "Signature") ==> SignaturePlace(above))
    && (Ends(chain, REFERENCE) ==> ReferenceStaysInside(tag))
    && (Ends(chain, TRANSFORM) ==> TransformKeepsContent(tag))
  }

  ghost predicate AllAllowed(items: seq<Item>, above: seq<Tag>) {
    forall item :: item in items ==> ItemAllowed(item, above)
  }

  /** Every element of the item is allowed where it stands, and nothing in it is malformed. */
  ghost predicate ItemAllowed(item: Item, above: seq<Tag>) {
    match item
    case Element(open, body, _) =>
      && open.event.StartTag?
      && Allowed(above, open.event.tag)
      && forall child :: child in body ==> ItemAllowed(child, above + [open.event.tag])
    case Leaf(token) => (token.event.EmptyTag? ==> Allowed(above, token.event.tag)) && !token.event.Malformed?
  }

  // ----- the stack machine's summary of a chain

  function PlaceBelow(above: seq<Tag>): Place {
    if above == [] then Outside
    else if |above| == 1 && above[0].localName == "Response" && Within(above[0], PROTOCOL) then InResponse
    else if |above| == 1 && MessageElement(above[0]) then InMessage
    else if SignaturePlace(above) then InAssertion
    else Elsewhere
  }

  function ScopeBelow(above: seq<Tag>): Scope {
    if Ends(above, TRANSFORM[..1]) then InSignature
    else if Ends(above, TRANSFORM[..2]) then InSignedInfo
    else if Ends(above, TRANSFORM[..3]) then InReference
    else if Ends(above, TRANSFORM[..4]) then InTransforms
    else NoScope
  }

  function SpotBelow(above: seq<Tag>): Spot {
    Spot(PlaceBelow(above), ScopeBelow(above), exists t :: t in above && Dsig(t, "Signature"))
  }

  lemma EndsSnoc(above: seq<Tag>, tag: Tag, names: seq<string>, name: string)
    ensures Ends(above + [tag], names + [name]) <==> Ends(above, names) && Dsig(tag, name)
  {
    var chain, n, m := above + [tag], |above|, |names|;
    if Ends(chain, names + [name]) {
      assert Dsig(chain[n - m + m], (names + [name])[m]);
      forall i | 0 <= i < m
        ensures Dsig(above[n - m + i], names[i])
      {
        assert Dsig(chain[n - m + i], (names + [name])[i]);
      }
    }
  }

  /** A chain grows into a step of the path to a transform one name at a time. */
  lemma EndsOnTheWay(above: seq<Tag>, tag: Tag, k: nat)
    requires k < |TRANSFORM|
    ensures Ends(above + [tag], TRANSFORM[..k + 1]) <==> Ends(above, TRANSFORM[..k]) && Dsig(tag, TRANSFORM[k])
  {
    EndsSnoc(above, tag, TRANSFORM[..k], TRANSFORM[k]);
    assert TRANSFORM[..k + 1] == TRANSFORM[..k] + [TRANSFORM[k]];
  }

  lemma IsDsigIsDsig(tag: Tag, name: string)
    ensures IsDsig(tag, name) <==> Dsig(tag, name)
  {
  }

  lemma EndsInItsLast(chain: seq<Tag>, k: nat)
    requires k < |TRANSFORM| && Ends(chain, TRANSFORM[..k + 1])
    ensures chain != [] && Dsig(chain[|chain| - 1], TRANSFORM[k])
  {
    assert Dsig(chain[|chain| - (k + 1) + k], TRANSFORM[..k + 1][k]);
  }

  lemma ScopeGrows(above: seq<Tag>, tag: Tag)
    requires ScopeOf(tag, ScopeBelow(above)).Ok?
    ensures ScopeOf(tag, ScopeBelow(above)).value == ScopeBelow(above + [tag])
  {
    hide Ends, IsDsig, ReferenceAllowed, TransformAllowed;
    IsDsigIsDsig(tag, "Signature");
    IsDsigIsDsig(tag, "SignedInfo");
    IsDsigIsDsig(tag, "Reference");
    IsDsigIsDsig(tag, "Transforms");
    IsDsigIsDsig(tag, "Transform");
    EndsOnTheWay(above, tag, 0);
    EndsOnTheWay(above, tag, 1);
    EndsOnTheWay(above, tag, 2);
    EndsOnTheWay(above, tag, 3);
    forall k: nat | k < |TRANSFORM| && Ends(above, TRANSFORM[..k + 1])
      ensures above != [] && Dsig(above[|above| - 1], TRANSFORM[k])
    {
      EndsInItsLast(above, k);
    }
    assert Ends(above, TRANSFORM[..0]) by {
      EndsInNothing(above);
    }
  }

  lemma EndsInNothing(chain: seq<Tag>)
    ensures Ends(chain, [])
  {
  }

  lemma SpotGrows(above: seq<Tag>, tag: Tag)
    requires ScopeOf(tag, ScopeBelow(above)).Ok?
    ensures SpotBelow(above).Within(tag) == SpotBelow(above + [tag])
  {
    hide ScopeOf, ScopeBelow;
    ScopeGrows(above, tag);
    IsDsigIsDsig(tag, "Signature");
    PlaceGrows(above, tag);
    var chain := above + [tag];
    assert forall t :: t in chain <==> t in above || t == tag;
  }

  lemma PlaceGrows(above: seq<Tag>, tag: Tag)
    ensures PlaceInside(PlaceBelow(above), tag) == PlaceBelow(above + [tag])
  {
  }

  lemma LocalIsAccepted(uri: string)
    ensures TargetOf(uri).Ok? <==> Local(uri)
  {
    hide TargetOf, Designates;
    forall target {
      TargetIsDesignated(uri, target);
    }
  }

  lemma ReferenceIsAllowedInside(tag: Tag)
    ensures ReferenceAllowed(tag) <==> ReferenceStaysInside(tag)
  {
    hide AttributeFrom, TargetOf, Readable, Carries, Local;
    forall uri: Option<string>
      ensures AttributeFrom(tag.attrs, "URI", None) == Ok(uri) <==>
              Readable(tag.attrs, "URI") && Carries(tag.attrs, "URI", uri)
      ensures TargetOf(if uri.Some? then uri.value else "").Ok? <==> Local(if uri.Some? then uri.value else "")
    {
      SignatureAttributeIsTheLast(tag.attrs, "URI", uri);
      LocalIsAccepted(if uri.Some? then uri.value else "");
    }
  }

  lemma TransformIsAllowedInside(tag: Tag)
    ensures TransformAllowed(tag) <==> TransformKeepsContent(tag)
  {
    hide AttributeFrom, Readable, Carries, PreservesContent;
    forall value: Option<string>
      ensures AttributeFrom(tag.attrs, "Algorithm", None) == Ok(value) <==>
              Readable(tag.attrs, "Algorithm") && Carries(tag.attrs, "Algorithm", value)
    {
      SignatureAttributeIsTheLast(tag.attrs, "Algorithm", value);
    }
  }

  lemma SafeTagIsAllowed(above: seq<Tag>, tag: Tag)
    ensures SafeTag(tag, SpotBelow(above)) <==> Allowed(above, tag)
    ensures SafeTag(tag, SpotBelow(above)) ==> ScopeOf(tag, ScopeBelow(above)).Ok?
  {
    hide Ends, ScopeBelow, PlaceBelow, SignaturePlace, ReferenceStaysInside, TransformKeepsContent, ReferenceAllowed,
         TransformAllowed;
    ReferenceIsAllowedInside(tag);
    TransformIsAllowedInside(tag);
    EndsOnTheWay(above, tag, 2);
    EndsOnTheWay(above, tag, 4);
    assert TRANSFORM[..3] == REFERENCE && TRANSFORM[..5] == TRANSFORM;
    ScopeIsEnding(above);
    PlaceIsSignaturePlace(above);
  }

  lemma PlaceIsSignaturePlace(above: seq<Tag>)
    ensures PlaceBelow(above).PermitsSignature() <==> SignaturePlace(above)
  {
  }

  lemma ScopeIsEnding(above: seq<Tag>)
    ensures ScopeBelow(above).InSignedInfo? <==> Ends(above, TRANSFORM[..2])
    ensures ScopeBelow(above).InTransforms? <==> Ends(above, TRANSFORM[..4])
  {
    hide Ends;
    EndsInOneName(above, 0, 1);
    EndsInOneName(above, 0, 3);
    EndsInOneName(above, 1, 3);
    EndsInOneName(above, 2, 3);
  }

  lemma EndsInOneName(chain: seq<Tag>, j: nat, k: nat)
    requires j < |TRANSFORM| && k < |TRANSFORM| && TRANSFORM[j] != TRANSFORM[k]
    ensures !(Ends(chain, TRANSFORM[..j + 1]) && Ends(chain, TRANSFORM[..k + 1]))
  {
    hide Ends;
    if Ends(chain, TRANSFORM[..j + 1]) && Ends(chain, TRANSFORM[..k + 1]) {
      EndsInItsLast(chain, j);
      EndsInItsLast(chain, k);
    }
  }

  lemma {:induction false} SafeIsAllowed(items: seq<Item>, above: seq<Tag>)
    ensures Safe(items, SpotBelow(above)) <==> AllAllowed(items, above)
    decreases items, 0
  {
    hide SpotBelow, Allowed, SafeTag;
    forall item | item in items
      ensures SafeItem(item, SpotBelow(above)) <==> ItemAllowed(item, above)
    {
      SafeItemIsAllowed(item, above);
    }
  }

  lemma {:induction false} SafeItemIsAllowed(item: Item, above: seq<Tag>)
    ensures SafeItem(item, SpotBelow(above)) <==> ItemAllowed(item, above)
    decreases item, 1
  {
    hide SpotBelow, Allowed, SafeTag, ScopeOf, Spot.Within;
    match item
    case Leaf(token) =>
      if token.event.EmptyTag? {
        SafeTagIsAllowed(above, token.event.tag);
      }
    case Element(open, body, _) =>
      if open.event.StartTag? {
        var tag := open.event.tag;
        SafeTagIsAllowed(above, tag);
        if SafeTag(tag, SpotBelow(above)) {
          SpotGrows(above, tag);
          SafeIsAllowed(body, above + [tag]);
        }
      }
  }

  /**
   * The streaming check accepts a document exactly when every element is allowed where it
   * stands: signatures only directly below message roots and direct Response assertions, no
   * Object inside one, and every reference and transform of a SignedInfo local and harmless.
   */
  lemma PreflightIsTreeSafety(items: seq<Item>)
    requires Shaped(items)
    ensures PreflightFrom([], Flatten(items)).Ok? <==> AllAllowed(items, [])
  {
    hide PreflightFrom, Safe, AllAllowed;
    PreflightIsSpotSafety(items);
    SafeIsAllowed(items, []);
    assert SpotBelow([]) == DOCUMENT;
  }
}
