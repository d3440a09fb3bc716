/**
 * What a verdict of the document verification means (src/crypto/verify.rs), said of the tree
 * and of the references that validated: when a document verifies, which node's text is
 * handed on, and what the two coverage flags say.
 */
module VerdictMeaning {
  import opened Prelude
  import opened XmlEvents
  import opened XmlDom
  import opened XmlSpans
  import opened Preflight
  import opened SignaturePlaces
  import opened Coverage
  import opened DetailedVerification
  import opened DocumentChecks

  // ----- references

  /** A reference whose digest matched, that designates the target and, for an identifier, found a node. */
  ghost predicate Points(r: Reference, t: Target) {
    r.digestVerified && Designates(r.uri, t) && (t.Id? ==> r.resolved)
  }

  lemma ReferenceTargetPoints(r: Reference, t: Target)
    ensures ReferenceTarget(r) == Ok(t) <==> Points(r, t)
  {
    TargetIsDesignated(r.uri, t);
  }

  /** Some certificate validates a signature with a reference that points at the target. */
  ghost predicate Signed(certs: seq<string>, find: string -> Finding, t: Target) {
    exists c, v, r :: && c in certs && find(c).Judged? && v in find(c).verdicts && v.ValidSignature?
                      && r in v.references && Points(r, t)
  }

  /** A validated signature without references, or with one that points nowhere. */
  ghost predicate Faulty(v: Verdict) {
    v.ValidSignature? && (v.references == [] || exists r :: r in v.references && forall t :: !Points(r, t))
  }

  ghost predicate NoneFaulty(certs: seq<string>, find: string -> Finding) {
    forall c, v :: c in certs && find(c).Judged? && v in find(c).verdicts ==> !Faulty(v)
  }

  lemma TargetUnderIsSigned(certs: seq<string>, find: string -> Finding, t: Target)
    ensures TargetUnder(certs, find, t) <==> Signed(certs, find, t)
  {
    hide ReferenceTarget, Points;
    forall r {
      ReferenceTargetPoints(r, t);
    }
    if TargetUnder(certs, find, t) {
      var c, v :| c in certs && v in Verdicts(find(c)) && NamesTarget(v, t);
      var r :| r in v.references && ReferenceTarget(r) == Ok(t);
      assert c in certs && find(c).Judged? && v in find(c).verdicts && r in v.references && Points(r, t);
    }
    if Signed(certs, find, t) {
      var c, v, r :| && c in certs && find(c).Judged? && v in find(c).verdicts && v.ValidSignature?
                     && r in v.references && Points(r, t);
      assert NamesTarget(v, t) && v in Verdicts(find(c));
    }
  }

  lemma UnusableIsFaulty(v: Verdict)
    ensures Unusable(v) <==> Faulty(v)
  {
    hide ReferenceTarget, Points;
    forall r ensures ReferenceTarget(r).Err? <==> forall t :: !Points(r, t) {
      forall t {
        ReferenceTargetPoints(r, t);
      }
    }
  }

  lemma UsableUnderIsNoneFaulty(certs: seq<string>, find: string -> Finding)
    ensures !UnusableUnder(certs, find) <==> NoneFaulty(certs, find)
  {
    hide Unusable, Faulty;
    forall v {
      UnusableIsFaulty(v);
    }
    if !NoneFaulty(certs, find) {
      var c, v :| c in certs && find(c).Judged? && v in find(c).verdicts && Faulty(v);
      assert v in Verdicts(find(c)) && Unusable(v);
    }
  }

  // ----- which node's text is handed on

  predicate HasChild(root: Node, name: string) {
    exists c :: c in root.children && c.localName == name
  }

  /** The only child of that name. */
  ghost predicate OnlyChild(root: Node, name: string, n: Node) {
    exists i :: && 0 <= i < |root.children| && root.children[i] == n && n.localName == name
                && forall j :: 0 <= j < |root.children| && root.children[j].localName == name ==> j == i
  }

  /** An Assertion root; the only Assertion of a Response; a Response with encrypted assertions, or a consumed root. */
  ghost predicate HandedOn(root: Node, n: Node) {
    if root.localName == "Assertion" then n == root
    else if SomeResponse(root) && HasChild(root, "Assertion") then OnlyChild(root, "Assertion", n)
    else
      && n == root
      && (|| (SomeResponse(root) && HasChild(root, "EncryptedAssertion"))
          || root.localName in {"EntityDescriptor", "AuthnRequest", "LogoutRequest", "LogoutResponse"})
  }

  /** Several Assertions in a Response: none is the only one. */
  ghost predicate Ambiguous(root: Node) {
    && root.localName != "Assertion" && SomeResponse(root) && HasChild(root, "Assertion")
    && forall n :: !OnlyChild(root, "Assertion", n)
  }

  lemma {:induction false} NamedOnce(nodes: seq<Node>, name: string, n: Node)
    ensures NodesNamed(nodes, name) == [n] <==>
            exists i :: && 0 <= i < |nodes| && nodes[i] == n && n.localName == name
                        && forall j :: 0 <= j < |nodes| && nodes[j].localName == name ==> j == i
  {
    if nodes != [] {
      NamedOnce(nodes[1..], name, n);
      NamedNever(nodes[1..], name);
      if nodes[0].localName == name {
        if NodesNamed(nodes, name) == [n] {
          assert nodes[0] == NodesNamed(nodes, name)[0];
          assert forall j :: 0 < j < |nodes| ==> nodes[j] == nodes[1..][j - 1];
        }
        if i :| && 0 <= i < |nodes| && nodes[i] == n && n.localName == name
                && forall j :: 0 <= j < |nodes| && nodes[j].localName == name ==> j == i {
          assert i == 0;
          assert forall c :: c in nodes[1..] ==> c.localName != name;
        }
      } else {
        assert NodesNamed(nodes, name) == NodesNamed(nodes[1..], name);
        if i :| && 0 <= i < |nodes[1..]| && nodes[1..][i] == n && n.localName == name
                && forall j :: 0 <= j < |nodes[1..]| && nodes[1..][j].localName == name ==> j == i {
          assert nodes[i + 1] == n;
          assert forall j :: 0 < j < |nodes| ==> nodes[j] == nodes[1..][j - 1];
        }
        if i :| && 0 <= i < |nodes| && nodes[i] == n && n.localName == name
                && forall j :: 0 <= j < |nodes| && nodes[j].localName == name ==> j == i {
          assert nodes[1..][i - 1] == n;
          assert forall j :: 0 <= j < |nodes[1..]| ==> nodes[1..][j] == nodes[j + 1];
        }
      }
    }
  }

  lemma {:induction false} NamedNever(nodes: seq<Node>, name: string)
    ensures NodesNamed(nodes, name) == [] <==> forall c :: c in nodes ==> c.localName != name
  {
    if nodes != [] {
      NamedNever(nodes[1..], name);
      assert nodes == [nodes[0]] + nodes[1..];
    }
  }

  lemma HandedOnIsOne(root: Node, n: Node, m: Node)
    requires HandedOn(root, n) && HandedOn(root, m)
    ensures n == m
  {
  }

  /** A reference validated under some certificate points at the node's identifier, or at the whole document. */
  ghost predicate SignedById(n: Node, certs: seq<string>, find: string -> Finding) {
    exists id :: Identified(n, id) && Signed(certs, find, Id(id))
  }

  ghost predicate SignedAsRoot(root: Node, certs: seq<string>, find: string -> Finding) {
    Signed(certs, find, WholeDocument) || SignedById(root, certs, find)
  }

  lemma IdMatchedIsSigned(n: Node, certs: seq<string>, find: string -> Finding)
    ensures IdMatched(n, certs, find) <==> SignedById(n, certs, find)
    ensures Matched(n, certs, find) <==> SignedAsRoot(n, certs, find)
  {
    hide TargetUnder, Signed, NodeSamlId, Identified;
    TargetUnderIsSigned(certs, find, WholeDocument);
    if NodeSamlId(n).Some? {
      NodeIsIdentified(n, NodeSamlId(n).value);
      TargetUnderIsSigned(certs, find, Id(NodeSamlId(n).value));
    }
    if id :| Identified(n, id) && Signed(certs, find, Id(id)) {
      NodeIsIdentified(n, id);
    }
  }

  /** What is handed on is signed itself, or as part of the root. */
  ghost predicate CoverageHolds(root: Node, certs: seq<string>, find: string -> Finding) {
    && !Ambiguous(root)
    && forall n :: HandedOn(root, n) ==> SignedAsRoot(root, certs, find) || SignedById(n, certs, find)
  }

  lemma OnlyAssertion(root: Node)
    ensures forall n :: ChildrenNamed(root, "Assertion") == [n] <==> OnlyChild(root, "Assertion", n)
    ensures ChildrenNamed(root, "Assertion") == [] <==> !HasChild(root, "Assertion")
    ensures ChildrenNamed(root, "EncryptedAssertion") == [] <==> !HasChild(root, "EncryptedAssertion")
    ensures |ChildrenNamed(root, "Assertion")| == 1 ==>
        ChildrenNamed(root, "Assertion") == [ChildrenNamed(root, "Assertion")[0]]
  {
    forall n ensures ChildrenNamed(root, "Assertion") == [n] <==> OnlyChild(root, "Assertion", n) {
      NamedOnce(root.children, "Assertion", n);
    }
    NamedNever(root.children, "Assertion");
    NamedNever(root.children, "EncryptedAssertion");
  }

  lemma RefusedIsUncovered(root: Node, certs: seq<string>, find: string -> Finding)
    ensures ContentRefused(root, certs, find) <==> !CoverageHolds(root, certs, find)
  {
    hide Contains, Mentions, Matched, IdMatched, SignedAsRoot, SignedById, OnlyChild, HasChild, ChildrenNamed;
    OnlyAssertion(root);
    ContainsIsMentions(root.localName, "Response");
    IdMatchedIsSigned(root, certs, find);
    forall n ensures IdMatched(n, certs, find) <==> SignedById(n, certs, find) {
      IdMatchedIsSigned(n, certs, find);
    }
    RootIdIsRoot(root, certs, find);
  }

  lemma RootIdIsRoot(root: Node, certs: seq<string>, find: string -> Finding)
    ensures SignedById(root, certs, find) ==> SignedAsRoot(root, certs, find)
  {
  }

  /** Some certificate validates the first signature that the backend meets. */
  ghost predicate FirstIsValid(certs: seq<string>, find: string -> Finding) {
    exists c :: c in certs && find(c).Judged? && find(c).verdicts != [] && find(c).verdicts[0].ValidSignature?
  }

  /**
   * A document verifies exactly when its own checks hold, it has a candidate signature, an
   * embedded certificate is trusted, the first signature is valid, no valid signature is
   * faulty, and what would be handed on is covered.
   */
  lemma VerifiesExactlyWhen(
    root: Node, tokens: seq<Token>, certs: seq<string>, normalize: string -> string, find: string -> Finding)
    requires SpansIn(Source(tokens), [root])
    ensures VerifyRoot(root, tokens, certs, normalize, find).Ok?
            && VerifyRoot(root, tokens, certs, normalize, find).value.verified <==>
            && WellSigned(root, tokens)
            && (exists n :: Candidate(root, n)) && EmbeddedIsTrusted(root, certs, normalize)
            && FirstIsValid(certs, find) && NoneFaulty(certs, find) && CoverageHolds(root, certs, find)
  {
    hide Conclude, CheckDocument, WellSigned, InlineAccepted, EmbeddedIsTrusted, NoneFaulty, CoverageHolds,
         ContentRefused, SignatureCandidates, UnusableUnder, Candidate;
    CheckedIsWellSigned(root, tokens);
    InlineIsTrusted(root, certs, normalize);
    ConcludeErrsIffInconclusive(root, Source(tokens), certs, find);
    UsableUnderIsNoneFaulty(certs, find);
    RefusedIsUncovered(root, certs, find);
    forall n ensures n in SignatureCandidates(root) <==> Candidate(root, n) {
      CandidatesAreSignatures(root, n);
    }
    if SignatureCandidates(root) != [] {
      assert SignatureCandidates(root)[0] in SignatureCandidates(root);
    }
    FirstHasKey(certs, find);
  }

  lemma FirstHasKey(certs: seq<string>, find: string -> Finding)
    ensures FirstVerified(certs, find) <==> FirstIsValid(certs, find)
    ensures FirstVerified(certs, find) ==> HaveKey(certs, find)
  {
  }

  /**
   * A verified verdict hands on the source of the one node that `HandedOn` names, and nothing
   * when there is none; its flags say which signatures stand behind it.
   */
  lemma VerdictHandsOn(
    root: Node, tokens: seq<Token>, certs: seq<string>, normalize: string -> string, find: string -> Finding)
    requires SpansIn(Source(tokens), [root])
    requires VerifyRoot(root, tokens, certs, normalize, find).Ok?
    requires VerifyRoot(root, tokens, certs, normalize, find).value.verified
    ensures var e := VerifyRoot(root, tokens, certs, normalize, find).value;
            && (forall n :: HandedOn(root, n) ==>
                  SpanIn(Source(tokens), n) && e.content == Some(Cut(Source(tokens), n)))
            && ((forall n :: !HandedOn(root, n)) ==> e.content.None?)
            && (e.responseCovered <==> SomeResponse(root) && SignedAsRoot(root, certs, find))
            && (e.assertionCovered <==>
                exists n :: && HandedOn(root, n) && n.localName == "Assertion"
                            && (n == root || SignedById(n, certs, find)))
  {
    hide CheckDocument, InlineAccepted, Contains, Mentions, Matched, IdMatched, SignedAsRoot, SignedById, HandedOn,
         AllTargets, TargetUnder, TargetMatches, IdTargetMatches, VerifiedContent, AssertionDirectlyCovered;
    var targets := AllTargets(certs, find).value;
    AllTargetsMembers(certs, find);
    ContainsIsMentions(root.localName, "Response");
    ContentIsHandedOn(root, Source(tokens), targets);
    forall n
      ensures IdTargetMatches(targets, n) <==> SignedById(n, certs, find)
      ensures TargetMatches(targets, n) <==> SignedAsRoot(n, certs, find)
    {
      TargetsMatch(n, targets, certs, find);
      IdMatchedIsSigned(n, certs, find);
    }
  }

  lemma TargetsMatch(n: Node, targets: seq<Target>, certs: seq<string>, find: string -> Finding)
    requires forall t :: t in targets <==> TargetUnder(certs, find, t)
    ensures IdTargetMatches(targets, n) <==> IdMatched(n, certs, find)
    ensures TargetMatches(targets, n) <==> Matched(n, certs, find)
  {
  }

  lemma ContentIsHandedOn(root: Node, xml: string, targets: seq<Target>)
    requires SpansIn(xml, [root]) && VerifiedContent(root, xml, targets).Ok?
    ensures var content := VerifiedContent(root, xml, targets).value;
            && (forall n :: HandedOn(root, n) ==> SpanIn(xml, n) && content == Some(Cut(xml, n)))
            && ((forall n :: !HandedOn(root, n)) ==> content.None?)
    ensures AssertionDirectlyCovered(root, targets) <==>
            exists n :: && HandedOn(root, n) && n.localName == "Assertion"
                        && (n == root || IdTargetMatches(targets, n))
  {
    hide Contains, Mentions, TargetMatches, IdTargetMatches, OnlyChild, HasChild, ChildrenNamed;
    assert root in [root];
    OnlyAssertion(root);
    ContainsIsMentions(root.localName, "Response");
    var assertions := ChildrenNamed(root, "Assertion");
    if |assertions| == 1 {
      assert OnlyChild(root, "Assertion", assertions[0]);
      OnlyChildIsNamed(root, assertions[0]);
      if root.localName != "Assertion" && SomeResponse(root) {
        assert HandedOn(root, assertions[0]);
      }
    }
    if root.localName == "Assertion" || !(SomeResponse(root) && HasChild(root, "Assertion")) {
      assert HandedOn(root, root) ==> VerifiedContent(root, xml, targets).value == Some(Cut(xml, root));
    }
  }

  lemma OnlyChildIsNamed(root: Node, n: Node)
    requires OnlyChild(root, "Assertion", n)
    ensures n in root.children && n.localName == "Assertion"
  {
  }
}
