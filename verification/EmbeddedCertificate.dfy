/**
 * Signed assertions whose verdict flips when an entry that does not load, but equals the
 * embedded certificate, joins the metadata's certificates.
 */
module EmbeddedCertificate {
  import opened Prelude
  import opened XmlEvents
  import opened XmlDom
  import opened XmlDomProofs
  import opened XmlSpans
  import opened Preflight
  import opened Coverage
  import opened DetailedVerification
  import opened Markup
  import opened SignedDocument

  lemma {:induction false} ContainsNeedsItsFirst(s: string, part: string)
    requires part != "" && part[0] !in s
    ensures !Contains(s, part)
  {
    if s != "" {
      ContainsNeedsItsFirst(s[1..], part);
    }
  }

  lemma {:induction false} DocumentPassesItsChecks(root: Node, t: Texts)
    requires t.Plain() && Realizes(root, SignedAssertion(t))
    ensures |root.children| == 2 && CheckDocument(root, Tokens(t)) == Ok([root.children[1]])
    ensures FirstCertificate([root.children[1]]) == Some(t.certificate)
  {
    hide Contains, PreflightFrom, SignatureCandidates, SignedReferences, UriAllowed, TransformsAllowed, Realizes,
         TreeIds, Safe, Shaped, SignaturePiece, Texts.Plain, FirstCertificate;
    RootNode(root, t);
    ContainsNeedsItsFirst("Assertion", "Response");
    SignatureNode(root.children[1], t);
    SignedAssertionIsSafe(t);
    RenderedAllIsRead([SignedAssertion(t)]);
    PreflightIsSpotSafety(RenderedAll([SignedAssertion(t)]));
    assert root.localName == "Assertion" by { RootName(root, t); }
  }

  lemma {:induction false} RootName(root: Node, t: Texts)
    requires Realizes(root, SignedAssertion(t))
    ensures root.localName == "Assertion"
  {
  }

  /** The backend reports the reference that stands in the signature. */
  function Validated(t: Texts): Verdict {
    ValidSignature([DetailedVerification.Reference("#" + t.id, true, true)])
  }

  lemma OneCertificateSettlesIt(root: Node, t: Texts, loadable: string, find: string -> Finding)
    requires t.Plain() && root.localName == "Assertion" && NodeSamlId(root) == Some(t.id)
    requires find(loadable) == Judged([Validated(t)])
    ensures FirstVerified([loadable], find) && !Inconclusive(root, [loadable], find)
  {
    hide TargetOf, NodeSamlId;
    ReferenceNamesTheId(t);
    var v := Validated(t);
    var reference := v.references[0];
    assert Verdicts(find(loadable)) == [v] && loadable in [loadable] && v in [v];
    assert reference in v.references && ReferenceTarget(reference) == Ok(Id(t.id));
    assert NamesTarget(v, Id(t.id));
    assert TargetUnder([loadable], find, Id(t.id));
    assert IdMatched(root, [loadable], find);
    assert forall c :: c in [loadable] ==> Verdicts(find(c)) == [v];
    assert !Unusable(v);
  }

  /**
   * For every such document: with the loadable certificate alone, which verifies the
   * signature, the embedded certificate mismatches and verification errs; with an unloadable
   * entry equal to it beside, the document is verified.
   */
  lemma UnloadableEntryFlipsTheVerdict(
    t: Texts, limits: Limits, loadable: string, normalize: string -> string, find: string -> Finding)
    requires t.Plain() && DocumentWithin(RenderedAll([SignedAssertion(t)]), limits, Document)
    requires find(loadable) == Judged([Validated(t)]) && find(t.certificate).Unloadable?
    requires normalize(loadable) != normalize(t.certificate)
    ensures WellRead(Tokens(t))
    ensures VerifyDocument(Tokens(t), limits, [loadable], normalize, find) == Err(CertificateMismatch)
    ensures VerifyDocument(Tokens(t), limits, [loadable, t.certificate], normalize, find).Ok?
    ensures VerifyDocument(Tokens(t), limits, [loadable, t.certificate], normalize, find).value.verified
  {
    hide WellRead, ParseDocument, CheckDocument, FirstVerified, Inconclusive, Conclude, Realizes, FirstCertificate;
    var a, b := [loadable], [loadable, t.certificate];
    MarkupIsWellRead([SignedAssertion(t)]);
    var root := RootParses(t, limits);
    ParsedSpansLieInSource(Tokens(t), limits);
    DocumentPassesItsChecks(root, t);
    RootNode(root, t);
    RootName(root, t);
    OneCertificateSettlesIt(root, t, loadable, find);
    assert loadable in b && t.certificate in b;
    AcceptingTheEmbeddedCertificateLiftsTheMismatch(root, Tokens(t), a, b, normalize, find);
  }

  lemma RootParses(t: Texts, limits: Limits) returns (root: Node)
    requires DocumentWithin(RenderedAll([SignedAssertion(t)]), limits, Document)
    ensures ParseDocument(Tokens(t), limits) == Ok(root) && Realizes(root, SignedAssertion(t))
  {
    hide DocumentWithin, Realizes, Build, Rendered;
    var items := RenderedAll([SignedAssertion(t)]);
    RenderedAllIsRead([SignedAssertion(t)]);
    ParseBuildsTheTree(items, limits, Document);
    RenderedAllRealize([SignedAssertion(t)], 0);
    RealizedInOrder(Build(items, 0), [SignedAssertion(t)]);
    root := Build(items, 0)[0];
  }
}
