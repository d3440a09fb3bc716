/**
 * The checks that a document itself must pass before any certificate is tried
 * (src/crypto/verify.rs), said outright of its tree: wrapping, identifiers, candidate
 * signatures with their references and transforms, and the embedded certificate.
 */
module DocumentChecks {
  import opened Prelude
  import opened XmlEvents
  import opened XmlDom
  import opened Preflight
  import opened SignaturePlaces
  import opened Coverage
  import opened DetailedVerification

  // ----- names and attributes

  ghost predicate Mentions(s: string, part: string) {
    exists before, after :: s == before + part + after
  }

  lemma {:induction false} ContainsMentions(s: string, part: string)
    requires Contains(s, part)
    ensures Mentions(s, part)
  {
    if part <= s {
      assert s == [] + part + s[|part|..];
    } else {
      ContainsMentions(s[1..], part);
      var before, after :| s[1..] == before + part + after;
      assert s == ([s[0]] + before) + part + after;
    }
  }

  lemma {:induction false} MentionedIsContained(before: string, part: string, after: string)
    ensures Contains(before + part + after, part)
  {
    var s := before + part + after;
    if before == "" {
      assert s[..|part|] == part;
    } else {
      MentionedIsContained(before[1..], part, after);
      assert s[1..] == before[1..] + part + after;
    }
  }

  lemma ContainsIsMentions(s: string, part: string)
    ensures Contains(s, part) <==> Mentions(s, part)
  {
    hide Contains;
    if Contains(s, part) {
      ContainsMentions(s, part);
    }
    if before, after :| s == before + part + after {
      MentionedIsContained(before, part, after);
    }
  }

  ghost predicate FirstAt(attrs: seq<(string, string)>, name: string, value: string, i: int) {
    0 <= i < |attrs| && attrs[i] == (name, value) && forall j :: 0 <= j < i ==> attrs[j].0 != name
  }

  /** The first attribute of the name has the value. */
  ghost predicate HasAttribute(n: Node, name: string, value: string) {
    exists i :: FirstAt(n.attrs, name, value, i)
  }

  predicate LacksAttribute(n: Node, name: string) {
    forall a :: a in n.attrs ==> a.0 != name
  }

  lemma {:induction false} AttrInIsNone(attrs: seq<(string, string)>, name: string)
    ensures AttrIn(attrs, name).None? <==> forall a :: a in attrs ==> a.0 != name
  {
    if attrs != [] {
      AttrInIsNone(attrs[1..], name);
      assert attrs == [attrs[0]] + attrs[1..];
    }
  }

  lemma FirstAtShifts(attrs: seq<(string, string)>, name: string, value: string, i: int)
    requires attrs != [] && attrs[0].0 != name
    ensures FirstAt(attrs, name, value, i + 1) <==> FirstAt(attrs[1..], name, value, i)
  {
    var rest := attrs[1..];
    if FirstAt(attrs, name, value, i + 1) && 0 <= i < |rest| {
      assert forall j :: 0 <= j < i ==> rest[j] == attrs[j + 1];
    }
    if FirstAt(rest, name, value, i) {
      assert attrs[i + 1] == rest[i];
      assert forall j :: 0 < j < i + 1 ==> attrs[j] == rest[j - 1];
    }
  }

  lemma {:induction false} AttrInIsFirst(attrs: seq<(string, string)>, name: string, value: string)
    ensures AttrIn(attrs, name) == Some(value) <==> exists i :: FirstAt(attrs, name, value, i)
  {
    if attrs != [] {
      if attrs[0].0 == name {
        assert AttrIn(attrs, name) == Some(value) ==> FirstAt(attrs, name, value, 0);
      } else {
        hide FirstAt;
        AttrInIsFirst(attrs[1..], name, value);
        if i :| FirstAt(attrs, name, value, i) {
          FirstAtShifts(attrs, name, value, i - 1);
        }
        if i :| FirstAt(attrs[1..], name, value, i) {
          FirstAtShifts(attrs, name, value, i);
        }
      }
    }
  }

  /** The node's identifier: its ID, or its AssertionID when it has no ID. */
  ghost predicate Identified(n: Node, id: string) {
    HasAttribute(n, "ID", id) || (LacksAttribute(n, "ID") && HasAttribute(n, "AssertionID", id))
  }

  lemma NodeIsIdentified(n: Node, id: string)
    ensures NodeSamlId(n) == Some(id) <==> Identified(n, id)
  {
    hide AttrIn, FirstAt;
    AttrInIsNone(n.attrs, "ID");
    AttrInIsFirst(n.attrs, "ID", id);
    AttrInIsFirst(n.attrs, "AssertionID", id);
  }

  ghost predicate SomeResponse(root: Node) {
    Mentions(root.localName, "Response")
  }

  // ----- wrapping and candidates

  /** Each node is a child of the one before it. */
  ghost predicate Descends(path: seq<Node>) {
    forall i :: 0 < i < |path| ==> path[i] in path[i - 1].children
  }

  lemma {:induction false} DescendantsArePaths(n: Node, names: set<string>)
    ensures HasDescendant(n, names) <==>
            exists path: seq<Node> ::
              |path| >= 2 && path[0] == n && Descends(path) && path[|path| - 1].localName in names
    decreases n
  {
    if HasDescendant(n, names) {
      var c :| c in n.children && (c.localName in names || HasDescendant(c, names));
      if c.localName in names {
        assert Descends([n, c]);
      } else {
        DescendantsArePaths(c, names);
        var path: seq<Node> :|
          |path| >= 2 && path[0] == c && Descends(path) && path[|path| - 1].localName in names;
        DescendsFrom(n, path);
      }
    }
    if path: seq<Node> :| |path| >= 2 && path[0] == n && Descends(path) && path[|path| - 1].localName in names {
      assert path[1] in path[0].children;
      if |path| > 2 {
        DescendsAfter(path, 1);
        assert path[1..][|path| - 2] == path[|path| - 1];
        DescendantsArePaths(path[1], names);
      }
    }
  }

  lemma DescendsFrom(n: Node, path: seq<Node>)
    requires path != [] && Descends(path) && path[0] in n.children
    ensures Descends([n] + path) && ([n] + path)[|path|] == path[|path| - 1]
  {
    var longer := [n] + path;
    forall i | 0 < i < |longer|
      ensures longer[i] in longer[i - 1].children
    {
      if i > 1 {
        assert path[i - 1] in path[i - 2].children;
      }
    }
  }

  lemma DescendsAfter(path: seq<Node>, k: nat)
    requires k <= |path| && Descends(path)
    ensures Descends(path[k..])
  {
  }

  /** An Assertion or Signature anywhere below the confirmation data of an Assertion's subject. */
  ghost predicate Wrapped(root: Node) {
    exists path: seq<Node> ::
      && |path| >= 6 && path[0] == root && Descends(path)
      && path[1].localName == "Assertion" && path[2].localName == "Subject"
      && path[3].localName == "SubjectConfirmation" && path[4].localName == "SubjectConfirmationData"
      && path[|path| - 1].localName in {"Assertion", "Signature"}
  }

  lemma WrappingIsWrapped(root: Node)
    ensures WrappingDetected(root) <==> Wrapped(root)
  {
    hide WrappingDetected;
    if WrappingDetected(root) {
      DetectedIsWrapped(root);
    }
    if path: seq<Node> :|
      && |path| >= 6 && path[0] == root && Descends(path)
      && path[1].localName == "Assertion" && path[2].localName == "Subject"
      && path[3].localName == "SubjectConfirmation" && path[4].localName == "SubjectConfirmationData"
      && path[|path| - 1].localName in {"Assertion", "Signature"} {
      PathIsDetected(root, path);
    }
  }

  lemma DetectedIsWrapped(root: Node)
    requires WrappingDetected(root)
    ensures Wrapped(root)
  {
    hide HasDescendant, Wrapped, NodesNamed;
    forall assertion, subject, confirmation, data |
        assertion in ChildrenNamed(root, "Assertion") && subject in ChildrenNamed(assertion, "Subject")
        && confirmation in ChildrenNamed(subject, "SubjectConfirmation")
        && data in ChildrenNamed(confirmation, "SubjectConfirmationData")
        && HasDescendant(data, {"Assertion", "Signature"})
      ensures Wrapped(root)
    {
      WrapsBelow(root, assertion, subject, confirmation, data);
    }
  }

  lemma PathIsDetected(root: Node, path: seq<Node>)
    requires |path| >= 6 && path[0] == root && Descends(path)
    requires path[1].localName == "Assertion" && path[2].localName == "Subject"
    requires path[3].localName == "SubjectConfirmation" && path[4].localName == "SubjectConfirmationData"
    requires path[|path| - 1].localName in {"Assertion", "Signature"}
    ensures WrappingDetected(root)
  {
    hide HasDescendant, NodesNamed;
    NamedIff(root.children, "Assertion", path[1]);
    NamedIff(path[1].children, "Subject", path[2]);
    NamedIff(path[2].children, "SubjectConfirmation", path[3]);
    NamedIff(path[3].children, "SubjectConfirmationData", path[4]);
    var assertion, subject, confirmation, data := path[1], path[2], path[3], path[4];
    assert assertion in ChildrenNamed(root, "Assertion") && subject in ChildrenNamed(assertion, "Subject");
    assert confirmation in ChildrenNamed(subject, "SubjectConfirmation");
    assert data in ChildrenNamed(confirmation, "SubjectConfirmationData");
    assert HasDescendant(data, {"Assertion", "Signature"}) by {
      DescendsAfter(path, 4);
      assert path[4..][|path| - 5] == path[|path| - 1];
      DescendantsArePaths(data, {"Assertion", "Signature"});
    }
  }

  lemma WrapsBelow(root: Node, assertion: Node, subject: Node, confirmation: Node, data: Node)
    requires assertion in ChildrenNamed(root, "Assertion") && subject in ChildrenNamed(assertion, "Subject")
    requires confirmation in ChildrenNamed(subject, "SubjectConfirmation")
    requires data in ChildrenNamed(confirmation, "SubjectConfirmationData")
    requires HasDescendant(data, {"Assertion", "Signature"})
    ensures Wrapped(root)
  {
    hide HasDescendant, NodesNamed, Wrapped;
    NamedIff(root.children, "Assertion", assertion);
    NamedIff(assertion.children, "Subject", subject);
    NamedIff(subject.children, "SubjectConfirmation", confirmation);
    NamedIff(confirmation.children, "SubjectConfirmationData", data);
    DescendantsArePaths(data, {"Assertion", "Signature"});
    var path: seq<Node> :| |path| >= 2 && path[0] == data && Descends(path)
      && path[|path| - 1].localName in {"Assertion", "Signature"};
    DescendsFrom(confirmation, path);
    DescendsFrom(subject, [confirmation] + path);
    DescendsFrom(assertion, [subject] + ([confirmation] + path));
    DescendsFrom(root, [assertion] + ([subject] + ([confirmation] + path)));
    WrappedPath(root, [root] + ([assertion] + ([subject] + ([confirmation] + path))));
  }

  lemma WrappedPath(root: Node, path: seq<Node>)
    requires |path| >= 6 && path[0] == root && Descends(path)
    requires path[1].localName == "Assertion" && path[2].localName == "Subject"
    requires path[3].localName == "SubjectConfirmation" && path[4].localName == "SubjectConfirmationData"
    requires path[|path| - 1].localName in {"Assertion", "Signature"}
    ensures Wrapped(root)
  {
  }

  /** A Signature directly below the root, or below an Assertion directly below it. */
  ghost predicate Candidate(root: Node, n: Node) {
    && n.localName == "Signature"
    && (n in root.children || exists a :: a in root.children && a.localName == "Assertion" && n in a.children)
  }

  lemma {:induction false} SignaturesOfAre(assertions: seq<Node>, n: Node)
    requires n in SignaturesOf(assertions)
    ensures n.localName == "Signature" && exists a :: a in assertions && n in a.children
  {
    hide NodesNamed;
    NamedIff(assertions[0].children, "Signature", n);
    if n in SignaturesOf(assertions[1..]) {
      SignaturesOfAre(assertions[1..], n);
    }
  }

  lemma CandidatesAreSignatures(root: Node, n: Node)
    ensures n in SignatureCandidates(root) <==> Candidate(root, n)
  {
    hide NodesNamed, SignaturesOf;
    NamedIff(root.children, "Signature", n);
    if n in SignaturesOf(ChildrenNamed(root, "Assertion")) {
      SignaturesOfAre(ChildrenNamed(root, "Assertion"), n);
      var a :| a in ChildrenNamed(root, "Assertion") && n in a.children;
      NamedIff(root.children, "Assertion", a);
    }
    if Candidate(root, n) {
      CandidateFromChild(root, n);
    }
  }

  /** A Reference of the SignedInfo of a candidate. */
  ghost predicate SignedReference(root: Node, reference: Node) {
    && reference.localName == "Reference"
    && exists signature, info :: Candidate(root, signature) && info in signature.children
                              && info.localName == "SignedInfo" && reference in info.children
  }

  ghost predicate KeepsContent(transform: Node) {
    exists algorithm :: HasAttribute(transform, "Algorithm", algorithm) && PreservesContent(algorithm)
  }

  /** Its URI, if it has one, is local, and each of its transforms names an algorithm that keeps the content. */
  ghost predicate Harmless(reference: Node) {
    && (forall uri :: HasAttribute(reference, "URI", uri) ==> Local(uri))
    && forall transforms, transform ::
         && transforms in reference.children && transforms.localName == "Transforms"
         && transform in transforms.children && transform.localName == "Transform" ==>
           KeepsContent(transform)
  }

  lemma ReferencesAreSigned(root: Node, reference: Node)
    ensures reference in SignedReferences(SignatureCandidates(root)) <==> SignedReference(root, reference)
  {
    hide ChildrenNamed, SignatureCandidates, Candidate;
    forall n ensures n in SignatureCandidates(root) <==> Candidate(root, n) {
      CandidatesAreSignatures(root, n);
    }
    ChildrenByName();
    if SignedReference(root, reference) {
      var signature, info :| && Candidate(root, signature) && info in signature.children
                             && info.localName == "SignedInfo" && reference in info.children;
      assert signature in SignatureCandidates(root) && info in ChildrenNamed(signature, "SignedInfo");
      assert reference in ChildrenNamed(info, "Reference");
    }
  }

  lemma ChildrenByName()
    ensures forall n: Node, name: string, c: Node ::
              c in ChildrenNamed(n, name) <==> c in n.children && c.localName == name
  {
    forall n: Node, name: string, c: Node
      ensures c in ChildrenNamed(n, name) <==> c in n.children && c.localName == name
    {
      NamedIff(n.children, name, c);
    }
  }

  lemma AttributesAre(n: Node, name: string)
    ensures Attr(n, name).None? ==> forall value :: !HasAttribute(n, name, value)
    ensures Attr(n, name).Some? ==> forall value :: HasAttribute(n, name, value) <==> value == Attr(n, name).value
  {
    hide AttrIn, FirstAt;
    forall value ensures Attr(n, name) == Some(value) <==> HasAttribute(n, name, value) {
      AttrInIsFirst(n.attrs, name, value);
    }
  }

  lemma UriIsLocal(reference: Node)
    ensures UriAllowed(reference) <==> forall uri :: HasAttribute(reference, "URI", uri) ==> Local(uri)
  {
    hide AttrIn, HasAttribute, TargetOf, Local;
    AttributesAre(reference, "URI");
    WholeDocumentReads("");
    if Attr(reference, "URI").Some? {
      LocalIsAccepted(Attr(reference, "URI").value);
    }
  }

  lemma AlgorithmKeepsContent(transform: Node)
    ensures KeepsContent(transform) <==>
            Attr(transform, "Algorithm").Some? && PreservesContent(Attr(transform, "Algorithm").value)
  {
    hide AttrIn, HasAttribute, PreservesContent;
    AttributesAre(transform, "Algorithm");
  }

  lemma AllowedIsHarmless(reference: Node)
    ensures UriAllowed(reference) && TransformsAllowed(reference) <==> Harmless(reference)
  {
    hide Attr, ChildrenNamed, PreservesContent, UriAllowed, KeepsContent;
    ChildrenByName();
    UriIsLocal(reference);
    forall transforms, transform |
        transforms in reference.children && transforms.localName == "Transforms"
        && transform in transforms.children && transform.localName == "Transform" && TransformsAllowed(reference)
      ensures KeepsContent(transform)
    {
      assert transforms in ChildrenNamed(reference, "Transforms");
      assert transform in ChildrenNamed(transforms, "Transform");
      AlgorithmKeepsContent(transform);
    }
    forall transforms, transform |
        transforms in ChildrenNamed(reference, "Transforms") && transform in ChildrenNamed(transforms, "Transform")
        && Harmless(reference)
      ensures Attr(transform, "Algorithm").Some? && PreservesContent(Attr(transform, "Algorithm").value)
    {
      assert KeepsContent(transform);
      AlgorithmKeepsContent(transform);
    }
  }

  predicate HoldsCertificate(n: Node) {
    n.localName == "X509Certificate" && n.text != ""
  }

  ghost predicate FirstIn(nodes: seq<Node>, text: string) {
    exists i :: && 0 <= i < |nodes| && HoldsCertificate(nodes[i]) && nodes[i].text == text
                && forall j :: 0 <= j < i ==> !HoldsCertificate(nodes[j])
  }

  lemma FirstInConcat(a: seq<Node>, b: seq<Node>, text: string)
    ensures FirstIn(a + b, text) <==>
            FirstIn(a, text) || ((forall n :: n in a ==> !HoldsCertificate(n)) && FirstIn(b, text))
  {
    hide HoldsCertificate;
    var all := a + b;
    if i :| && 0 <= i < |all| && HoldsCertificate(all[i]) && all[i].text == text
            && forall j :: 0 <= j < i ==> !HoldsCertificate(all[j]) {
      if i < |a| {
        assert a[i] == all[i];
        assert forall j :: 0 <= j < i ==> a[j] == all[j];
      } else {
        assert b[i - |a|] == all[i];
        assert forall j :: 0 <= j < i - |a| ==> b[j] == all[|a| + j];
        assert forall j :: 0 <= j < |a| ==> a[j] == all[j];
      }
    }
    if i :| && 0 <= i < |a| && HoldsCertificate(a[i]) && a[i].text == text
            && forall j :: 0 <= j < i ==> !HoldsCertificate(a[j]) {
      assert all[i] == a[i];
      assert forall j :: 0 <= j < i ==> a[j] == all[j];
    }
    if (forall n :: n in a ==> !HoldsCertificate(n)) && FirstIn(b, text) {
      var i :| && 0 <= i < |b| && HoldsCertificate(b[i]) && b[i].text == text
               && forall j :: 0 <= j < i ==> !HoldsCertificate(b[j]);
      assert all[|a| + i] == b[i];
      assert forall j :: |a| <= j < |a| + i ==> all[j] == b[j - |a|];
      assert forall j :: 0 <= j < |a| ==> all[j] == a[j];
    }
  }

  lemma SomeIsFirst(nodes: seq<Node>)
    requires exists n :: n in nodes && HoldsCertificate(n)
    ensures exists text :: FirstIn(nodes, text)
  {
    if HoldsCertificate(nodes[0]) {
      assert FirstIn(nodes, nodes[0].text);
    } else {
      assert nodes == [nodes[0]] + nodes[1..];
      SomeIsFirst(nodes[1..]);
      var text :| FirstIn(nodes[1..], text);
      FirstInConcat([nodes[0]], nodes[1..], text);
    }
  }

  /** The first certificate found is the first in document order. */
  lemma {:induction false} CertificateInIsFirst(n: Node, text: string)
    ensures CertificateIn(n) == Some(text) <==> FirstIn(AllNodes(n), text)
    decreases n, 0
  {
    hide FirstIn;
    FirstInConcat([n], AllOf(n.children), text);
    FirstCertificateIsFirst(n.children, text);
    FirstOfOne(n, text);
  }

  lemma FirstOfOne(n: Node, text: string)
    ensures FirstIn([n], text) <==> HoldsCertificate(n) && n.text == text
    ensures (forall m :: m in [n] ==> !HoldsCertificate(m)) <==> !HoldsCertificate(n)
  {
    assert [n][0] == n && n in [n];
  }

  lemma {:induction false} FirstCertificateIsFirst(nodes: seq<Node>, text: string)
    ensures FirstCertificate(nodes) == Some(text) <==> FirstIn(AllOf(nodes), text)
    decreases nodes, 1
  {
    hide FirstIn, HoldsCertificate, CertificateIn, AllNodes;
    if nodes == [] {
      NothingIsFirst(text);
    } else {
      var a, b := AllNodes(nodes[0]), AllOf(nodes[1..]);
      FirstInConcat(a, b, text);
      CertificateInIsFirst(nodes[0], text);
      FirstCertificateIsFirst(nodes[1..], text);
      if CertificateIn(nodes[0]).Some? {
        CertificateInIsFirst(nodes[0], CertificateIn(nodes[0]).value);
        FirstHolds(a, CertificateIn(nodes[0]).value);
      } else if n :| n in a && HoldsCertificate(n) {
        SomeIsFirst(a);
        var first :| FirstIn(a, first);
        CertificateInIsFirst(nodes[0], first);
      }
    }
  }

  lemma NothingIsFirst(text: string)
    ensures !FirstIn([], text)
  {
  }

  lemma FirstHolds(nodes: seq<Node>, text: string)
    requires FirstIn(nodes, text)
    ensures exists n :: n in nodes && HoldsCertificate(n)
  {
  }

  /** The first certificate embedded in a candidate, if any, is one of the list, or the list is empty. */
  ghost predicate EmbeddedIsTrusted(root: Node, certs: seq<string>, normalize: string -> string) {
    forall text :: FirstIn(AllOf(SignatureCandidates(root)), text) ==>
      certs == [] || exists c :: c in certs && normalize(c) == normalize(text)
  }

  lemma InlineIsTrusted(root: Node, certs: seq<string>, normalize: string -> string)
    ensures InlineAccepted(SignatureCandidates(root), certs, normalize) <==> EmbeddedIsTrusted(root, certs, normalize)
  {
    hide FirstIn, SignatureCandidates, FirstCertificate;
    var nodes := SignatureCandidates(root);
    forall text ensures FirstCertificate(nodes) == Some(text) <==> FirstIn(AllOf(nodes), text) {
      FirstCertificateIsFirst(nodes, text);
    }
  }

  // ----- distinct identifiers

  /** The name is ID or AssertionID, with or without a prefix. */
  predicate NamesAnIdentifier(name: string) {
    name == "ID" || name == "AssertionID" || EndsWith(name, ":ID") || EndsWith(name, ":AssertionID")
  }

  lemma {:induction false} LastPartIs(name: string, last: string)
    requires ':' !in last
    ensures LastPart(name) == last <==> name == last || EndsWith(name, ":" + last)
    decreases |name|
  {
    if name != "" {
      assert name == [name[0]] + name[1..];
      if ':' in name[1..] {
        LastPartIs(name[1..], last);
        assert EndsWith(name, ":" + last) <==> name == ":" + last || EndsWith(name[1..], ":" + last);
      } else {
        assert EndsWith(name, ":" + last) ==> name == ":" + last by {
          if EndsWith(name, ":" + last) {
            var k := |name| - |":" + last|;
            assert name[k..][0] == ':' && name[k] == ':';
          }
        }
        if name[0] == ':' {
          assert name == ":" + name[1..];
        }
      }
    }
  }

  lemma IdNameNames(name: string)
    ensures IdName(name) <==> NamesAnIdentifier(name)
  {
    hide LastPart, EndsWith;
    LastPartIs(name, "ID");
    LastPartIs(name, "AssertionID");
    assert ":" + "ID" == ":ID" && ":" + "AssertionID" == ":AssertionID";
  }

  predicate Gives(a: (string, string), id: string) {
    NamesAnIdentifier(a.0) && a.1 == id && id != ""
  }

  predicate Bears(n: Node, id: string) {
    exists a :: a in n.attrs && Gives(a, id)
  }

  ghost predicate AttributesDistinct(attrs: seq<(string, string)>) {
    forall k, l :: 0 <= k < l < |attrs| && Gives(attrs[k], attrs[k].1) && Gives(attrs[l], attrs[l].1) ==>
      attrs[k].1 != attrs[l].1
  }

  ghost predicate NodesDistinct(nodes: seq<Node>) {
    && (forall i :: 0 <= i < |nodes| ==> AttributesDistinct(nodes[i].attrs))
    && forall i, j, id :: 0 <= i < j < |nodes| && Bears(nodes[i], id) ==> !Bears(nodes[j], id)
  }

  /** No two identifier attributes anywhere in the tree have the same non-empty value. */
  ghost predicate IdentifiersDistinct(root: Node) {
    NodesDistinct(AllNodes(root))
  }

  lemma {:induction false} IdsAmongAreGiven(attrs: seq<(string, string)>, id: string)
    ensures id in IdsAmong(attrs) <==> exists a :: a in attrs && Gives(a, id)
  {
    hide NamesAnIdentifier, IdName;
    if attrs != [] {
      IdsAmongAreGiven(attrs[1..], id);
      IdNameNames(attrs[0].0);
      assert forall a :: a in attrs <==> a == attrs[0] || a in attrs[1..];
      assert id in OwnId(attrs[0]) <==> Gives(attrs[0], id);
    }
  }

  lemma {:induction false} DistinctAttributes(attrs: seq<(string, string)>)
    ensures Distinct(IdsAmong(attrs)) <==> AttributesDistinct(attrs)
  {
    hide NamesAnIdentifier, IdName;
    if attrs != [] {
      var first, rest := attrs[0], attrs[1..];
      DistinctAttributes(rest);
      IdNameNames(first.0);
      NewConcat(OwnId(first), IdsAmong(rest), {});
      IdsAmongAreGiven(rest, first.1);
      assert Elems(OwnId(first)) == if Gives(first, first.1) then {first.1} else {} by {
        NothingIsNew({});
        NewSingle(first.1, {});
      }
      AttributesSplit(first, rest);
      assert attrs == [first] + rest;
    }
  }

  lemma AttributesSplit(first: (string, string), rest: seq<(string, string)>)
    ensures AttributesDistinct([first] + rest) <==>
            && AttributesDistinct(rest)
            && (Gives(first, first.1) ==> forall a :: a in rest ==> !Gives(a, first.1))
  {
    hide NamesAnIdentifier;
    var attrs := [first] + rest;
    if AttributesDistinct(attrs) {
      forall k, l | 0 <= k < l < |rest| && Gives(rest[k], rest[k].1) && Gives(rest[l], rest[l].1)
        ensures rest[k].1 != rest[l].1
      {
        assert attrs[k + 1] == rest[k] && attrs[l + 1] == rest[l];
      }
      forall a | a in rest && Gives(first, first.1)
        ensures !Gives(a, first.1)
      {
        var l :| 0 <= l < |rest| && rest[l] == a;
        assert attrs[0] == first && attrs[l + 1] == a;
      }
    }
  }

  lemma {:induction false} IdsAreBorne(nodes: seq<Node>, id: string)
    ensures id in Ids(nodes) <==> exists n :: n in nodes && Bears(n, id)
  {
    hide Bears, IdsAmong;
    if nodes != [] {
      IdsAreBorne(nodes[1..], id);
      BearsIsGiven(nodes[0], id);
      assert forall n :: n in nodes <==> n == nodes[0] || n in nodes[1..];
    }
  }

  lemma {:induction false} DistinctNodes(nodes: seq<Node>)
    ensures Distinct(Ids(nodes)) <==> NodesDistinct(nodes)
  {
    hide Gives, AttributesDistinct, Bears;
    if nodes != [] {
      var first, rest := nodes[0], nodes[1..];
      DistinctNodes(rest);
      DistinctAttributes(first.attrs);
      NewConcat(IdsAmong(first.attrs), Ids(rest), {});
      forall id
        ensures id in IdsAmong(first.attrs) <==> Bears(first, id)
        ensures id in Ids(rest) <==> exists n :: n in rest && Bears(n, id)
      {
        BearsIsGiven(first, id);
        IdsAreBorne(rest, id);
      }
      NodesSplit(first, rest);
      assert nodes == [first] + rest;
    }
  }

  lemma BearsIsGiven(n: Node, id: string)
    ensures id in IdsAmong(n.attrs) <==> Bears(n, id)
  {
    IdsAmongAreGiven(n.attrs, id);
  }

  lemma NodesSplit(first: Node, rest: seq<Node>)
    ensures NodesDistinct([first] + rest) <==>
            && AttributesDistinct(first.attrs) && NodesDistinct(rest)
            && forall n, id :: n in rest && Bears(first, id) ==> !Bears(n, id)
  {
    hide Bears, AttributesDistinct;
    var nodes := [first] + rest;
    if NodesDistinct(nodes) {
      assert nodes[0] == first;
      forall i | 0 <= i < |rest| ensures AttributesDistinct(rest[i].attrs) {
        assert nodes[i + 1] == rest[i];
      }
      forall i, j, id | 0 <= i < j < |rest| && Bears(rest[i], id) ensures !Bears(rest[j], id) {
        assert nodes[i + 1] == rest[i] && nodes[j + 1] == rest[j];
      }
      forall n, id | n in rest && Bears(first, id) ensures !Bears(n, id) {
        var j :| 0 <= j < |rest| && rest[j] == n;
        assert nodes[j + 1] == n;
      }
    }
  }

  // ----- all of them

  /** What the document itself must satisfy before any certificate is tried. */
  ghost predicate WellSigned(root: Node, tokens: seq<Token>) {
    && !(SomeResponse(root) && Wrapped(root)) && IdentifiersDistinct(root)
    && PreflightFrom([], tokens).Ok?
    && forall reference :: SignedReference(root, reference) ==> Harmless(reference)
  }

  lemma CheckedIsWellSigned(root: Node, tokens: seq<Token>)
    ensures CheckDocument(root, tokens).Ok? <==> WellSigned(root, tokens)
    ensures CheckDocument(root, tokens).Ok? ==> CheckDocument(root, tokens).value == SignatureCandidates(root)
  {
    hide Contains, Mentions, Wrapped, WrappingDetected, Distinct, NodesDistinct, AllNodes, Ids, PreflightFrom,
         SignedReference, Harmless, UriAllowed, TransformsAllowed, SignatureCandidates, SignedReferences;
    DistinctNodes(AllNodes(root));
    ContainsIsMentions(root.localName, "Response");
    WrappingIsWrapped(root);
    forall reference
      ensures reference in SignedReferences(SignatureCandidates(root)) <==> SignedReference(root, reference)
      ensures UriAllowed(reference) && TransformsAllowed(reference) <==> Harmless(reference)
    {
      ReferencesAreSigned(root, reference);
      AllowedIsHarmless(reference);
    }
  }
}
