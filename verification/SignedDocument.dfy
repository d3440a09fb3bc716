/**
 * Assertions with an enveloped XML signature that embeds a certificate, spelled out in full:
 * where their signature stands, their nodes, and their size.
 */
module SignedDocument {
  import opened Prelude
  import opened XmlEvents
  import opened XmlDom
  import opened Preflight
  import opened Coverage
  import opened DetailedVerification
  import opened Markup

  // ----- the markup

  /** What varies between the documents. */
  datatype Texts = Texts(id: string, issuer: string, digest: string, value: string, certificate: string) {
    /** Texts that stand for themselves in a document. */
    predicate Plain() {
      && id != "" && issuer != "" && digest != "" && value != "" && certificate != ""
      && forall c :: c in id + issuer + digest + value + certificate ==> PlainChar(c)
    }
  }

  predicate PlainChar(c: char) {
    || 'a' <= c <= 'z' || 'A' <= c <= 'Z' || '0' <= c <= '9'
    || c in {'_', '-', '.', ':', '/', '+', '='}
  }

  function Named(name: string, value: string): Attribute {
    Attribute(name, Some(value), false)
  }

  function Declares(namespace: string): Attribute {
    Attribute("xmlns", Some(namespace), true)
  }

  function Method(name: string, algorithm: string): Piece {
    Tagged(name, DSIG, [Named("Algorithm", algorithm)], [])
  }

  function Holding(name: string, namespace: string, text: string): Piece {
    Tagged(name, namespace, [], [Chars(text)])
  }

  const RSA_SHA256: string := "http://www.w3.org/2001/04/xmldsig-more#rsa-sha256"
  const INSTANT: string := "2025-01-01T00:00:00Z"
  const SHA256: string := "http://www.w3.org/2001/04/xmlenc#sha256"

  function TransformsPiece(): Piece {
    Tagged("Transforms", DSIG, [], [Method("Transform", ENVELOPED), Method("Transform", EXC_C14N)])
  }

  function ReferencePiece(t: Texts): Piece {
    Tagged("Reference", DSIG, [Named("URI", "#" + t.id)],
           [TransformsPiece(), Method("DigestMethod", SHA256), Holding("DigestValue", DSIG, t.digest)])
  }

  function SignedInfoPiece(t: Texts): Piece {
    Tagged("SignedInfo", DSIG, [],
           [Method("CanonicalizationMethod", EXC_C14N), Method("SignatureMethod", RSA_SHA256), ReferencePiece(t)])
  }

  function KeyInfoPiece(t: Texts): Piece {
    Tagged("KeyInfo", DSIG, [], [DataPiece(t)])
  }

  function DataPiece(t: Texts): Piece {
    Tagged("X509Data", DSIG, [], [Holding("X509Certificate", DSIG, t.certificate)])
  }

  function SignaturePiece(t: Texts): Piece {
    Tagged("Signature", DSIG, [Declares(DSIG)],
           [SignedInfoPiece(t), Holding("SignatureValue", DSIG, t.value), KeyInfoPiece(t)])
  }

  /** An assertion with an enveloped signature over itself, which embeds the certificate. */
  function SignedAssertion(t: Texts): Piece {
    Tagged("Assertion", ASSERTION,
           [Declares(ASSERTION), Named("ID", t.id), Named("Version", "2.0"),
            Named("IssueInstant", INSTANT)],
           [Holding("Issuer", ASSERTION, t.issuer), SignaturePiece(t)])
  }

  function Tokens(t: Texts): seq<Token> {
    Flatten(RenderedAll([SignedAssertion(t)]))
  }

  // ----- names and references

  lemma {:induction false} NoColon(name: string, whole: string)
    requires ':' !in name
    ensures AfterColon(name, whole) == whole && (name != "" ==> LastPart(name) == name)
  {
    if name != "" {
      NoColon(name[1..], whole);
    }
  }

  lemma OnlyAttribute(name: string, value: string)
    requires name in {"Algorithm", "URI"}
    ensures AttributeFrom([Named(name, value)], name, None) == Ok(Some(value))
    ensures Kept([Named(name, value)]) == [(name, value)] && IdsAmong(Kept([Named(name, value)])) == []
  {
    hide AfterColon, LastPart;
    NoColon(name, name);
    IdsOfSingle((name, value));
    assert [Named(name, value)][1..] == [] && [(name, value)][1..] == [];
  }

  lemma KeptFirst(a: Attribute, rest: seq<Attribute>)
    requires a.Attribute? && a.value.Some?
    ensures Kept([a] + rest) == (if a.isNamespace then [] else [(a.name, a.value.value)]) + Kept(rest)
  {
    assert ([a] + rest)[1..] == rest;
  }

  lemma IdsFirst(a: (string, string), rest: seq<(string, string)>)
    requires a.0 != "" && ':' !in a.0
    ensures IdsAmong([a] + rest)
         == (if (a.0 == "ID" || a.0 == "AssertionID") && a.1 != "" then [a.1] else []) + IdsAmong(rest)
  {
    NoColon(a.0, a.0);
    assert ([a] + rest)[1..] == rest;
  }

  /** The root's attributes: the namespace declaration is dropped, and one of the rest is an identifier. */
  lemma RootAttributes(t: Texts)
    requires t.id != ""
    ensures var kept := Kept(SignedAssertion(t).attrs);
            AttrIn(kept, "ID") == Some(t.id) && IdsAmong(kept) == [t.id]
  {
    hide Kept, IdsAmong;
    var id, version, instant := ("ID", t.id), ("Version", "2.0"), ("IssueInstant", INSTANT);
    var rest := [Named(version.0, version.1), Named(instant.0, instant.1)];
    assert SignedAssertion(t).attrs == [Declares(ASSERTION)] + ([Named(id.0, id.1)] + rest);
    KeptFirst(Declares(ASSERTION), [Named(id.0, id.1)] + rest);
    KeptFirst(Named(id.0, id.1), rest);
    KeptRest(version, instant);
    assert Kept(SignedAssertion(t).attrs) == [id] + [version, instant];
    IdsFirst(id, [version, instant]);
    NoIdsInTheRest(version.1, instant.1);
  }

  lemma KeptRest(a: (string, string), b: (string, string))
    ensures Kept([Named(a.0, a.1), Named(b.0, b.1)]) == [a, b]
  {
    KeptFirst(Named(b.0, b.1), []);
    KeptFirst(Named(a.0, a.1), [Named(b.0, b.1)]);
    NothingAfter([Named(b.0, b.1)]);
    assert [Named(a.0, a.1), Named(b.0, b.1)] == [Named(a.0, a.1)] + [Named(b.0, b.1)];
  }

  lemma NoIdsInTheRest(version: string, instant: string)
    ensures IdsAmong([("Version", version), ("IssueInstant", instant)]) == []
  {
    IdsFirst(("IssueInstant", instant), []);
    IdsFirst(("Version", version), [("IssueInstant", instant)]);
    NothingAfter([("IssueInstant", instant)]);
    assert [("Version", version), ("IssueInstant", instant)]
        == [("Version", version)] + [("IssueInstant", instant)];
  }

  lemma PlainCharsAreNoParenthesis(t: Texts)
    requires t.Plain()
    ensures '(' !in t.id
  {
    forall c | c in t.id
      ensures c != '('
    {
      assert c in t.id + t.issuer + t.digest + t.value + t.certificate;
    }
  }

  /** The signature's reference names the assertion. */
  lemma ReferenceNamesTheId(t: Texts)
    requires t.Plain()
    ensures TargetOf("#" + t.id) == Ok(Id(t.id))
  {
    PlainCharsAreNoParenthesis(t);
    assert ("#" + t.id)[1..] == t.id;
    assert XPOINTER[8] == '(' && XPOINTER_ID[8] == '(' && "#xpointer(/)"[9] == '(';
  }

  // ----- where the signature stands

  lemma AlgorithmsPreserve()
    ensures PreservesContent(ENVELOPED) && PreservesContent(EXC_C14N)
  {
  }

  function TagOf(p: Piece): Tag
    requires p.Tagged?
  {
    Tag(p.name, p.attrs, Bound(p.namespace))
  }

  /** An element around safe content is safe when its own tag is. */
  lemma SafeAround(p: Piece, spot: Spot)
    requires p.Tagged? && p.body != [] && SafeTag(TagOf(p), spot)
    requires Safe(RenderedAll(p.body), spot.Within(TagOf(p)))
    ensures SafeItem(Rendered(p), spot)
  {
  }

  lemma TransformsAreSafe(spot: Spot)
    requires spot.scope.InReference?
    ensures SafeItem(Rendered(TransformsPiece()), spot)
  {
    AlgorithmsPreserve();
    OnlyAttribute("Algorithm", ENVELOPED);
    OnlyAttribute("Algorithm", EXC_C14N);
    var first, second := Method("Transform", ENVELOPED), Method("Transform", EXC_C14N);
    Two(first, second);
    var inside := spot.Within(TagOf(TransformsPiece()));
    assert SafeItem(Rendered(first), inside) && SafeItem(Rendered(second), inside);
    SafeAround(TransformsPiece(), spot);
  }

  lemma ReferenceIsSafe(t: Texts, spot: Spot)
    requires t.Plain() && spot.scope.InSignedInfo?
    ensures SafeItem(Rendered(ReferencePiece(t)), spot)
  {
    hide SafeItem, Rendered, TargetOf, AttributeFrom;
    OnlyAttribute("URI", "#" + t.id);
    ReferenceNamesTheId(t);
    var inside := spot.Within(TagOf(ReferencePiece(t)));
    var digest, value := Method("DigestMethod", SHA256), Holding("DigestValue", DSIG, t.digest);
    Three(TransformsPiece(), digest, value);
    TransformsAreSafe(inside);
    UnwatchedIsSafe(digest, inside);
    UnwatchedIsSafe(value, inside);
    SafeAround(ReferencePiece(t), spot);
  }

  lemma SignedInfoIsSafe(t: Texts, spot: Spot)
    requires t.Plain() && spot.scope.InSignature?
    ensures SafeItem(Rendered(SignedInfoPiece(t)), spot)
  {
    hide SafeItem, Rendered;
    var inside := spot.Within(TagOf(SignedInfoPiece(t)));
    var canonical, algorithm := Method("CanonicalizationMethod", EXC_C14N), Method("SignatureMethod", RSA_SHA256);
    Three(canonical, algorithm, ReferencePiece(t));
    ReferenceIsSafe(t, inside);
    UnwatchedIsSafe(canonical, inside);
    UnwatchedIsSafe(algorithm, inside);
    SafeAround(SignedInfoPiece(t), spot);
  }

  lemma SignatureIsSafe(t: Texts, spot: Spot)
    requires t.Plain() && spot.place.PermitsSignature()
    ensures SafeItem(Rendered(SignaturePiece(t)), spot)
  {
    hide SafeItem, Rendered;
    var inside := spot.Within(TagOf(SignaturePiece(t)));
    var value := Holding("SignatureValue", DSIG, t.value);
    Three(SignedInfoPiece(t), value, KeyInfoPiece(t));
    SignedInfoIsSafe(t, inside);
    UnwatchedIsSafe(value, inside);
    assert Unwatched(Holding("X509Certificate", DSIG, t.certificate));
    assert Unwatched(DataPiece(t));
    UnwatchedIsSafe(KeyInfoPiece(t), inside);
    SafeAround(SignaturePiece(t), spot);
  }

  lemma SignedAssertionIsSafe(t: Texts)
    requires t.Plain()
    ensures Safe(RenderedAll([SignedAssertion(t)]), DOCUMENT)
  {
    hide SafeItem, Rendered;
    var inside := DOCUMENT.Within(TagOf(SignedAssertion(t)));
    var issuer := Holding("Issuer", ASSERTION, t.issuer);
    One(SignedAssertion(t));
    Two(issuer, SignaturePiece(t));
    UnwatchedIsSafe(issuer, inside);
    SignatureIsSafe(t, inside);
    SafeAround(SignedAssertion(t), DOCUMENT);
  }

  lemma One(a: Piece)
    ensures RenderedAll([a]) == [Rendered(a)]
  {
    assert [a][1..] == [];
  }

  lemma Two(a: Piece, b: Piece)
    ensures RenderedAll([a, b]) == [Rendered(a), Rendered(b)]
  {
    One(b);
    assert [a, b][1..] == [b];
  }

  lemma Three(a: Piece, b: Piece, c: Piece)
    ensures RenderedAll([a, b, c]) == [Rendered(a), Rendered(b), Rendered(c)]
  {
    Two(b, c);
    assert [a, b, c][1..] == [b, c];
  }

  // ----- its nodes

  lemma {:induction false} RealizedInOrder(nodes: seq<Node>, ps: seq<Piece>)
    requires RealizeAll(nodes, ps) && forall p :: p in ps ==> p.Tagged?
    ensures |nodes| == |ps| && forall i :: 0 <= i < |ps| ==> Realizes(nodes[i], ps[i])
    decreases ps
  {
    if ps != [] {
      assert ps[0] in ps;
      RealizedInOrder(nodes[1..], ps[1..]);
      assert forall i :: 1 <= i < |nodes| ==> nodes[i] == nodes[1..][i - 1];
      assert forall i :: 1 <= i < |ps| ==> ps[i] == ps[1..][i - 1];
    }
  }

  lemma {:induction false} NoneNamed(nodes: seq<Node>, name: string)
    requires forall n :: n in nodes ==> n.localName != name
    ensures NodesNamed(nodes, name) == []
  {
    if nodes != [] {
      NoneNamed(nodes[1..], name);
    }
  }

  lemma {:induction false} OnlyNamed(nodes: seq<Node>, i: nat, name: string)
    requires i < |nodes| && nodes[i].localName == name
    requires forall j :: 0 <= j < |nodes| && j != i ==> nodes[j].localName != name
    ensures NodesNamed(nodes, name) == [nodes[i]]
  {
    if i == 0 {
      forall n | n in nodes[1..]
        ensures n.localName != name
      {
        var j :| 0 <= j < |nodes[1..]| && nodes[1..][j] == n;
        assert nodes[j + 1] == n;
      }
      NoneNamed(nodes[1..], name);
    } else {
      OnlyNamed(nodes[1..], i - 1, name);
    }
  }

  /** The reference node: its URI and its transforms are allowed. */
  lemma {:induction false} ReferenceNode(n: Node, t: Texts)
    requires t.Plain() && Realizes(n, ReferencePiece(t))
    ensures UriAllowed(n) && TransformsAllowed(n)
  {
    hide TargetOf, PreservesContent;
    OnlyAttribute("URI", "#" + t.id);
    ReferenceNamesTheId(t);
    RealizedInOrder(n.children, ReferencePiece(t).body);
    OnlyNamed(n.children, 0, "Transforms");
    TransformNodes(n.children[0]);
  }

  lemma {:induction false} TransformNodes(n: Node)
    requires Realizes(n, TransformsPiece())
    ensures forall transform :: transform in ChildrenNamed(n, "Transform") ==>
              Attr(transform, "Algorithm").Some? && PreservesContent(Attr(transform, "Algorithm").value)
  {
    hide PreservesContent;
    AlgorithmsPreserve();
    OnlyAttribute("Algorithm", ENVELOPED);
    OnlyAttribute("Algorithm", EXC_C14N);
    RealizedInOrder(n.children, TransformsPiece().body);
    NamedAreMembers(n.children, "Transform");
  }

  lemma {:induction false} NamedAreMembers(nodes: seq<Node>, name: string)
    ensures forall n :: n in NodesNamed(nodes, name) ==> n in nodes
  {
    if nodes != [] {
      NamedAreMembers(nodes[1..], name);
    }
  }

  /** The signature node: one reference, and the embedded certificate is the first. */
  lemma {:induction false} SignatureNode(n: Node, t: Texts)
    requires t.Plain() && Realizes(n, SignaturePiece(t))
    ensures forall r :: r in SignedReferences([n]) ==> UriAllowed(r) && TransformsAllowed(r)
    ensures FirstCertificate([n]) == Some(t.certificate)
  {
    hide UriAllowed, TransformsAllowed, Kept, TextOf, TransformsPiece, FirstCertificate, Texts.Plain;
    RealizedInOrder(n.children, SignaturePiece(t).body);
    var info := n.children[0];
    OnlyNamed(n.children, 0, "SignedInfo");
    RealizedInOrder(info.children, SignedInfoPiece(t).body);
    OnlyNamed(info.children, 2, "Reference");
    ReferenceNode(info.children[2], t);
    CertificateOfTheSignature(n, t);
  }

  lemma {:induction false} CertificateOfTheSignature(n: Node, t: Texts)
    requires t.Plain() && Realizes(n, SignaturePiece(t))
    ensures FirstCertificate([n]) == Some(t.certificate)
  {
    RealizedInOrder(n.children, SignaturePiece(t).body);
    assert NoCertificate(TransformsPiece());
    assert NoCertificate(ReferencePiece(t));
    assert NoCertificate(SignedInfoPiece(t));
    NoCertificateIn(n.children[0], SignedInfoPiece(t));
    NoCertificateIn(n.children[1], Holding("SignatureValue", DSIG, t.value));
    var key := n.children[2];
    RealizedInOrder(key.children, KeyInfoPiece(t).body);
    RealizedInOrder(key.children[0].children, DataPiece(t).body);
    var certificate := key.children[0].children[0];
    assert certificate.text == t.certificate by { TextOfOne(t.certificate); }
    CertificateFirst(key.children[0], certificate);
    CertificateFirst(key, key.children[0]);
    var rest := n.children[1..];
    assert FirstCertificate(n.children) == FirstCertificate(rest);
    assert rest[0] == n.children[1] && rest[1..] != [] && rest[1..][0] == key;
    assert FirstCertificate(rest) == FirstCertificate(rest[1..]);
  }

  lemma TextOfOne(text: string)
    ensures TextOf([Chars(text)]) == text
  {
    assert [Chars(text)][1..] == [];
  }

  lemma {:induction false} CertificateFirst(parent: Node, n: Node)
    requires parent.localName != "X509Certificate" && parent.children != [] && parent.children[0] == n
    requires CertificateIn(n).Some?
    ensures CertificateIn(parent) == CertificateIn(n)
  {
  }

  lemma NoAttributesNoIds()
    ensures IdsAmong(Kept([])) == [] && IdsAmong(Kept([Declares(DSIG)])) == []
  {
    assert [Declares(DSIG)][1..] == [];
  }

  lemma MethodHasNoIds(name: string, algorithm: string)
    ensures NoIds(Method(name, algorithm))
  {
    hide IdsAmong, Kept;
    OnlyAttribute("Algorithm", algorithm);
  }

  lemma HoldingHasNoIds(name: string, namespace: string, text: string)
    ensures NoIds(Holding(name, namespace, text))
  {
    hide IdsAmong, Kept;
    NoAttributesNoIds();
  }

  lemma ReferenceHasNoIds(t: Texts)
    ensures NoIds(ReferencePiece(t))
  {
    hide IdsAmong, Kept;
    NoAttributesNoIds();
    OnlyAttribute("URI", "#" + t.id);
    MethodHasNoIds("Transform", ENVELOPED);
    MethodHasNoIds("Transform", EXC_C14N);
    assert NoIds(TransformsPiece());
    MethodHasNoIds("DigestMethod", SHA256);
    HoldingHasNoIds("DigestValue", DSIG, t.digest);
  }

  lemma SignatureHasNoIds(t: Texts)
    ensures NoIds(SignaturePiece(t))
  {
    hide IdsAmong, Kept, Method, Holding, ReferencePiece;
    NoAttributesNoIds();
    MethodHasNoIds("CanonicalizationMethod", EXC_C14N);
    MethodHasNoIds("SignatureMethod", RSA_SHA256);
    ReferenceHasNoIds(t);
    assert NoIds(SignedInfoPiece(t));
    HoldingHasNoIds("SignatureValue", DSIG, t.value);
    HoldingHasNoIds("X509Certificate", DSIG, t.certificate);
    assert NoIds(DataPiece(t));
    assert NoIds(KeyInfoPiece(t));
  }

  /** The root: its identifier is the only one, and the signature is the only candidate. */
  lemma {:induction false} RootNode(root: Node, t: Texts)
    requires t.Plain() && Realizes(root, SignedAssertion(t))
    ensures TreeIds(root) == [t.id] && NodeSamlId(root) == Some(t.id)
    ensures |root.children| == 2 && Realizes(root.children[1], SignaturePiece(t))
    ensures SignatureCandidates(root) == [root.children[1]]
  {
    hide IdsAmong, AttrIn;
    RootAttributes(t);
    RealizedInOrder(root.children, SignedAssertion(t).body);
    OnlyNamed(root.children, 1, "Signature");
    NoneNamed(root.children, "Assertion");
    SignatureHasNoIds(t);
    HoldingHasNoIds("Issuer", ASSERTION, t.issuer);
    NoIdsAmong(root.children, SignedAssertion(t).body);
    TreeIdsAre(root);
  }

  // ----- the limits that apply by default

  const DEFAULT_LIMITS: Limits := Limits(1024 * 1024, 1024, 50_000, 64, 16 * 1024, 1024 * 1024)

  lemma LiteralLengths()
    ensures |ENVELOPED| <= 64 && |EXC_C14N| <= 64 && |RSA_SHA256| <= 64 && |SHA256| <= 64
    ensures |DSIG| <= 64 && |ASSERTION| <= 64 && |INSTANT| <= 64
  {
  }

  lemma SpelledFirst(a: Attribute, rest: seq<Attribute>)
    requires a.Attribute? && a.value.Some?
    ensures |Spelled([a] + rest)| == |a.name| + |a.value.value| + 4 + |Spelled(rest)|
    ensures rest == [] ==> |Spelled([a])| == |a.name| + |a.value.value| + 4
  {
    assert ([a] + rest)[1..] == rest;
    assert rest == [] ==> [a] + rest == [a];
  }

  lemma LeafSizes(name: string, namespace: string, text: string)
    requires |name| <= 32
    ensures Size(Method(name, text)) <= 64 + |text| && Size(Holding(name, namespace, text)) <= 128 + |text|
  {
    SpelledFirst(Named("Algorithm", text), []);
    assert |"Algorithm"| == 9 && Spelled([]) == "" && [Chars(text)][1..] == [];
    assert SizeOfAll([Chars(text)]) == |text|;
  }

  lemma Sizes(a: Piece, b: Piece, c: Piece)
    ensures SizeOfAll([a]) == Size(a) && SizeOfAll([a, b]) == Size(a) + Size(b)
    ensures SizeOfAll([a, b, c]) == Size(a) + Size(b) + Size(c)
  {
    hide Size;
    assert [a][1..] == [] && [c][1..] == [] && [a, b][1..] == [b] && [b][1..] == [];
    assert [a, b, c][1..] == [b, c] && [b, c][1..] == [c];
    assert SizeOfAll([c]) == Size(c) && SizeOfAll([b, c]) == Size(b) + Size(c);
  }

  lemma ReferenceSize(t: Texts)
    ensures Size(ReferencePiece(t)) <= 800 + |t.id| + |t.digest|
  {
    hide Spelled, SizeOfAll, Method, Holding, ENVELOPED, EXC_C14N, SHA256;
    LiteralLengths();
    var first, second := Method("Transform", ENVELOPED), Method("Transform", EXC_C14N);
    var digesting, value := Method("DigestMethod", SHA256), Holding("DigestValue", DSIG, t.digest);
    LeafSizes("Transform", DSIG, ENVELOPED);
    LeafSizes("Transform", DSIG, EXC_C14N);
    LeafSizes("DigestMethod", DSIG, SHA256);
    LeafSizes("DigestValue", DSIG, t.digest);
    Sizes(first, second, first);
    Sizes(TransformsPiece(), digesting, value);
    NothingSpelled();
    SpelledFirst(Named("URI", "#" + t.id), []);
  }

  lemma NothingSpelled()
    ensures |Spelled([])| == 0
  {
  }

  lemma SignatureSize(t: Texts)
    ensures Size(SignaturePiece(t)) <= 1800 + |t.id| + |t.digest| + |t.value| + |t.certificate|
  {
    hide Spelled, SizeOfAll, Method, Holding, EXC_C14N, RSA_SHA256, ReferencePiece, DSIG;
    LiteralLengths();
    var canonical, algorithm := Method("CanonicalizationMethod", EXC_C14N), Method("SignatureMethod", RSA_SHA256);
    var value, certificate := Holding("SignatureValue", DSIG, t.value), Holding("X509Certificate", DSIG, t.certificate);
    LeafSizes("CanonicalizationMethod", DSIG, EXC_C14N);
    LeafSizes("SignatureMethod", DSIG, RSA_SHA256);
    LeafSizes("SignatureValue", DSIG, t.value);
    LeafSizes("X509Certificate", DSIG, t.certificate);
    ReferenceSize(t);
    Sizes(canonical, algorithm, ReferencePiece(t));
    Sizes(certificate, certificate, certificate);
    Sizes(DataPiece(t), value, value);
    Sizes(SignedInfoPiece(t), value, KeyInfoPiece(t));
    NothingSpelled();
    SpelledFirst(Declares(DSIG), []);
  }

  lemma DocumentSize(t: Texts)
    ensures Size(SignedAssertion(t)) <= 2400 + 2 * |t.id| + |t.issuer| + |t.digest| + |t.value| + |t.certificate|
  {
    hide Spelled, SizeOfAll, Holding, SignaturePiece, ASSERTION, INSTANT;
    LiteralLengths();
    SignatureSize(t);
    LeafSizes("Issuer", ASSERTION, t.issuer);
    Sizes(Holding("Issuer", ASSERTION, t.issuer), SignaturePiece(t), SignaturePiece(t));
    var a, b, c, d := Declares(ASSERTION), Named("ID", t.id), Named("Version", "2.0"), Named("IssueInstant", INSTANT);
    SpelledFirst(d, []);
    SpelledFirst(c, [d]);
    SpelledFirst(b, [c] + [d]);
    SpelledFirst(a, [b] + ([c] + [d]));
    assert [a] + ([b] + ([c] + [d])) == SignedAssertion(t).attrs;
  }

  lemma LeavesAreShallow(name: string, namespace: string, text: string)
    ensures forall height: nat :: height > 0 ==>
              Shallow(Method(name, text), height, 4) && Shallow(Holding(name, namespace, text), height, 4)
  {
  }

  lemma DocumentIsShallow(t: Texts)
    ensures Shallow(SignedAssertion(t), 8, 4)
  {
    hide ENVELOPED, EXC_C14N, RSA_SHA256, SHA256, DSIG, ASSERTION, INSTANT, Method, Holding;
    LeavesAreShallow("Transform", DSIG, ENVELOPED);
    LeavesAreShallow("Transform", DSIG, EXC_C14N);
    LeavesAreShallow("DigestMethod", DSIG, SHA256);
    LeavesAreShallow("DigestValue", DSIG, t.digest);
    LeavesAreShallow("CanonicalizationMethod", DSIG, EXC_C14N);
    LeavesAreShallow("SignatureMethod", DSIG, RSA_SHA256);
    LeavesAreShallow("SignatureValue", DSIG, t.value);
    LeavesAreShallow("X509Certificate", DSIG, t.certificate);
    LeavesAreShallow("Issuer", ASSERTION, t.issuer);
    assert Shallow(TransformsPiece(), 4, 4);
    assert Shallow(ReferencePiece(t), 5, 4);
    assert Shallow(SignedInfoPiece(t), 6, 4);
    assert Shallow(DataPiece(t), 5, 4);
    assert Shallow(KeyInfoPiece(t), 6, 4);
    assert Shallow(SignaturePiece(t), 7, 4);
  }

  /** Texts of up to 13 000 bytes in all make a document within the limits that apply by default. */
  lemma ShortTextsMeetTheDefaultLimits(t: Texts)
    requires 2 * |t.id| + |t.issuer| + |t.digest| + |t.value| + |t.certificate| <= 13_000
    ensures DocumentWithin(RenderedAll([SignedAssertion(t)]), DEFAULT_LIMITS, Document)
  {
    hide Size, Rendered, Shallow, DocumentWithin;
    DocumentSize(t);
    DocumentIsShallow(t);
    DocumentWithinRoomyLimits(SignedAssertion(t), DEFAULT_LIMITS, 8, 4);
  }
}
