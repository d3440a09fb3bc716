/**
 * Verifying and decrypting an inbound message (src/flow.rs, verify_and_prepare): which of
 * its contents a validated reference stands behind, on every path.
 */
module InboundFlow {
  import opened Prelude
  import opened XmlEvents
  import opened XmlDom
  import opened XmlDomProofs
  import opened XmlSpans
  import opened XmlSplice
  import opened XmlEncryption
  import opened Preflight
  import opened Coverage
  import opened DetailedVerification

  datatype ParserType = SamlRequest | SamlResponse | LogoutRequest | LogoutResponse

  datatype AssertionRequirement = Compatible | Direct

  datatype ResponseRequirement = Optional | RequiredForEncryptedCbc | Required

  /** The local decryption key: whether its use is allowed, whether it loads, and what it decrypts. */
  datatype DecryptionKey = DecryptionKey(
    permitted: Result<(), SamlError>,
    loaded: Result<(), SamlError>,
    decrypt: string -> Result<string, SamlError>)

  /** Foreign code and configuration: the reader, the signature backend, the message profile checks. */
  datatype Setup = Setup(
    read: string -> seq<Token>,
    find: (string, string) -> Finding,
    normalize: string -> string,
    admit: (string, ParserType) -> Result<(), SamlError>,
    certs: seq<string>,
    key: Option<DecryptionKey>,
    limits: Limits)

  datatype Prepared = Prepared(content: string, assertion: Option<string>, responseAuthenticated: bool)

  // ----- the steps

  function RootOf(s: Setup, xml: string): Result<Node, SamlError> {
    ParseDocument(s.read(xml), s.limits)
  }

  function HasXmlSignature(s: Setup, xml: string): Result<bool, SamlError> {
    var root :- RootOf(s, xml);
    var _ :- PreflightFrom([], s.read(xml));
    Ok(SignatureCandidates(root) != [])
  }

  function FindIn(s: Setup, xml: string): string -> Finding {
    cert => s.find(xml, cert)
  }

  ghost function VerifyEmbedded(s: Setup, xml: string): Result<Evidence, SamlError>
    requires Faithful(s.read)
  {
    VerifyDocument(s.read(xml), s.limits, s.certs, s.normalize, FindIn(s, xml))
  }

  const ENC: string := "http://www.w3.org/2001/04/xmlenc#"

  predicate CbcAlgorithm(algorithm: string) {
    algorithm in {ENC + "aes128-cbc", ENC + "aes192-cbc", ENC + "aes256-cbc", ENC + "tripledes-cbc"}
  }

  predicate CbcEncrypted(encrypted: Node) {
    var data := FirstNode(encrypted.children, "EncryptedData");
    data.Some? &&
    var encryption := FirstNode(data.value.children, "EncryptionMethod");
    encryption.Some? && Attr(encryption.value, "Algorithm").Some?
        && CbcAlgorithm(Attr(encryption.value, "Algorithm").value)
  }

  function ResponseSignatureRequired(s: Setup, requirement: ResponseRequirement, xml: string): Result<bool, SamlError> {
    match requirement
    case Optional => Ok(false)
    case Required => Ok(true)
    case RequiredForEncryptedCbc =>
      var root :- RootOf(s, xml);
      Ok(exists e :: e in ChildrenNamed(root, "EncryptedAssertion") && CbcEncrypted(e))
  }

  function SignatureFailure(present: bool): SamlError {
    if present then SignatureInvalid else SignatureMissing
  }

  /** Decrypts a document's first encrypted assertion: the document with the plaintext, and the plaintext. */
  function Decrypt(s: Setup, key: DecryptionKey, xml: string): Result<(string, string), SamlError>
    requires Faithful(s.read)
  {
    var _ :- key.loaded;
    var _ :- key.permitted;
    var root :- RootOf(s, xml);
    ParsedSpansLieInSource(s.read(xml), s.limits);
    DecryptAssertion(xml, root, key.decrypt, s.limits)
  }

  /** Signed, then encrypted: the verified content still holds an encrypted assertion. */
  ghost function DecryptVerified(
      s: Setup, key: DecryptionKey, verified: string, parser: ParserType, direct: AssertionRequirement,
      responseCovered: bool): Result<Prepared, SamlError>
    requires Faithful(s.read)
  {
    var (content, assertion) :- Decrypt(s, key, verified);
    var _ :- s.admit(content, parser);
    if direct.Compatible? then Ok(Prepared(content, Some(assertion), responseCovered))
    else
      var present :- HasXmlSignature(s, assertion);
      var inner :- VerifyEmbedded(s, assertion);
      if !inner.verified then Err(SignatureFailure(present))
      else if !inner.assertionCovered then Err(AssertionSignatureRequired)
      else Ok(Prepared(content, Some(assertion), responseCovered))
  }

  /** Encrypted, then signed: only the decrypted document can be verified. */
  ghost function DecryptThenVerify(
      s: Setup, key: DecryptionKey, xml: string, parser: ParserType, direct: AssertionRequirement)
    : Result<Prepared, SamlError>
    requires Faithful(s.read)
  {
    var (content, assertion) :- Decrypt(s, key, xml);
    var _ :- s.admit(content, parser);
    var signed := if direct.Direct? then assertion else content;
    var present :- HasXmlSignature(s, signed);
    var inner :- VerifyEmbedded(s, signed);
    if !inner.verified then Err(SignatureFailure(present))
    else if direct.Direct? && !inner.assertionCovered then Err(AssertionSignatureRequired)
    else Ok(Prepared(content, if direct.Direct? then Some(assertion) else inner.content, false))
  }

  function TakeVerified(
      xml: string, evidence: Evidence, parser: ParserType, direct: AssertionRequirement): Result<Prepared, SamlError>
  {
    if direct.Direct? && !evidence.assertionCovered then Err(AssertionSignatureRequired)
    else if parser.SamlResponse? then Ok(Prepared(xml, evidence.content, evidence.responseCovered))
    else if evidence.content.None? then Err(SignedReferenceMismatch)
    else Ok(Prepared(evidence.content.value, None, evidence.responseCovered))
  }

  ghost function VerifyAndPrepare(s: Setup, xml: string, parser: ParserType, direct: AssertionRequirement,
                                  response: ResponseRequirement): Result<Prepared, SamlError>
    requires Faithful(s.read)
  {
    var present :- HasXmlSignature(s, xml);
    var evidence :- VerifyEmbedded(s, xml);
    var required :- ResponseSignatureRequired(s, response, xml);
    if required && !evidence.verified then Err(SignatureFailure(present))
    else if required && !evidence.responseCovered then Err(SignedReferenceMismatch)
    else if s.key.Some? && s.key.value.permitted.Err? then s.key.value.permitted.PropagateFailure()
    else if s.key.Some? && evidence.verified && parser.SamlResponse? && evidence.content.Some? then
      DecryptVerified(s, s.key.value, evidence.content.value, parser, direct, evidence.responseCovered)
    else if s.key.Some? && !evidence.verified then DecryptThenVerify(s, s.key.value, xml, parser, direct)
    else if evidence.verified then TakeVerified(xml, evidence, parser, direct)
    else Err(SignatureFailure(present))
  }

  // ----- what stands behind the result

  /** The Response element of the text is named by a validated reference, or the whole document is. */
  ghost predicate ResponseValidated(s: Setup, xml: string) {
    && RootOf(s, xml).Ok?
    && var root := RootOf(s, xml).value;
       && Contains(root.localName, "Response")
       && exists targets :: Validated(targets, s.certs, FindIn(s, xml)) && RootNamed(root, targets)
  }

  /** An Assertion of the text that is itself named by a validated reference. */
  ghost predicate AssertionValidated(s: Setup, xml: string, n: Node) {
    && RootOf(s, xml).Ok?
    && exists targets :: Validated(targets, s.certs, FindIn(s, xml)) && AssertionNamed(RootOf(s, xml).value, n, targets)
  }

  /** The text is an Assertion that a validated reference names, or holds one below another root. */
  ghost predicate SelfValidated(s: Setup, text: string) {
    && RootOf(s, text).Ok?
    && exists n :: && AssertionValidated(s, text, n)
                   && (RootOf(s, text).value.localName == "Assertion" ==> n == RootOf(s, text).value)
  }

  /** The text is cut from a document as an Assertion that a validated reference names. */
  ghost predicate CutValidated(s: Setup, xml: string, text: string) {
    exists n :: AssertionValidated(s, xml, n) && SpanIn(xml, n) && text == Cut(xml, n)
  }

  /** The text is content that a validated reference of a document covers. */
  ghost predicate ContentValidated(s: Setup, xml: string, text: string) {
    && RootOf(s, xml).Ok? && SpansIn(xml, [RootOf(s, xml).value])
    && exists targets ::
         Validated(targets, s.certs, FindIn(s, xml)) && CoveredContent(RootOf(s, xml).value, xml, targets, text)
  }

  lemma EvidenceIsBacked(s: Setup, xml: string)
    requires Faithful(s.read) && VerifyEmbedded(s, xml).Ok? && VerifyEmbedded(s, xml).value.verified
    ensures RootOf(s, xml).Ok? && SpansIn(xml, [RootOf(s, xml).value]) && Distinct(TreeIds(RootOf(s, xml).value))
    ensures Backed(VerifyEmbedded(s, xml).value, RootOf(s, xml).value, xml, s.certs, FindIn(s, xml))
  {
    var tokens := s.read(xml);
    assert WellRead(tokens) && Source(tokens) == xml;
    ParsedSpansLieInSource(tokens, s.limits);
    VerifiedEvidenceIsBacked(RootOf(s, xml).value, tokens, s.certs, s.normalize, FindIn(s, xml));
  }

  lemma UnverifiedShowsNothing(s: Setup, xml: string)
    requires Faithful(s.read) && VerifyEmbedded(s, xml).Ok? && !VerifyEmbedded(s, xml).value.verified
    ensures VerifyEmbedded(s, xml).value == UNVERIFIED
  {
  }

  lemma EvidenceMeans(s: Setup, xml: string, e: Evidence)
    requires Faithful(s.read) && VerifyEmbedded(s, xml) == Ok(e)
    ensures e.responseCovered ==> ResponseValidated(s, xml)
    ensures e.assertionCovered ==> SelfValidated(s, xml) && e.content.Some? && CutValidated(s, xml, e.content.value)
    ensures e.content.Some? ==> ContentValidated(s, xml, e.content.value)
  {
    if !e.verified {
      UnverifiedShowsNothing(s, xml);
    } else {
      EvidenceIsBacked(s, xml);
      var root, find := RootOf(s, xml).value, FindIn(s, xml);
      if e.content.Some? {
        BackedContentIsCovered(e, root, xml, s.certs, find);
      }
      if e.responseCovered {
        BackedResponseIsNamed(e, root, xml, s.certs, find);
      }
      if e.assertionCovered {
        BackedAssertionIsNamed(e, root, xml, s.certs, find);
        var n, targets :| && Validated(targets, s.certs, find) && AssertionNamed(root, n, targets)
                          && (root.localName == "Assertion" ==> n == root)
                          && SpanIn(xml, n) && e.content == Some(Cut(xml, n));
        assert AssertionValidated(s, xml, n);
      }
    }
  }

  // ----- the guarantees, on every path

  /**
   * Under the Direct requirement the returned assertion is itself named by a reference that
   * validated under a metadata certificate: it was cut from the message as such, or it was
   * decrypted and is, as a document of its own, such an Assertion.
   */
  lemma DirectAssertionIsValidated(s: Setup, xml: string, response: ResponseRequirement)
    requires Faithful(s.read)
    ensures var r := VerifyAndPrepare(s, xml, SamlResponse, Direct, response);
            r.Ok? ==>
              && r.value.assertion.Some?
              && (CutValidated(s, xml, r.value.assertion.value) || SelfValidated(s, r.value.assertion.value))
  {
    hide HasXmlSignature, Decrypt, VerifyEmbedded, ResponseSignatureRequired, SelfValidated, CutValidated,
         ResponseValidated, ContentValidated, Faithful;
    var r := VerifyAndPrepare(s, xml, SamlResponse, Direct, response);
    if r.Ok? {
      var e := VerifyEmbedded(s, xml).value;
      EvidenceMeans(s, xml, e);
      if s.key.Some? && (!e.verified || e.content.Some?) {
        EvidenceMeans(s, r.value.assertion.value, VerifyEmbedded(s, r.value.assertion.value).value);
      }
    }
  }

  /**
   * A required Response signature, and a response reported as authenticated, both mean the
   * Response itself is named.
   */
  lemma RequiredResponseIsValidated(s: Setup, xml: string, parser: ParserType, direct: AssertionRequirement,
                                    response: ResponseRequirement)
    requires Faithful(s.read)
    ensures var r := VerifyAndPrepare(s, xml, parser, direct, response);
            r.Ok? ==>
              && (r.value.responseAuthenticated ==> ResponseValidated(s, xml))
              && (ResponseSignatureRequired(s, response, xml) == Ok(true) ==> r.value.responseAuthenticated)
  {
    hide HasXmlSignature, Decrypt, VerifyEmbedded, ResponseSignatureRequired, SelfValidated, CutValidated,
         ResponseValidated, ContentValidated, Faithful;
    if VerifyAndPrepare(s, xml, parser, direct, response).Ok? {
      EvidenceMeans(s, xml, VerifyEmbedded(s, xml).value);
    }
  }

  /** An assertion came out of a decryption, with the local key, of covered text. */
  ghost predicate DecryptedFromCovered(s: Setup, xml: string, assertion: string)
    requires Faithful(s.read)
  {
    exists covered :: ContentValidated(s, xml, covered) && DecryptedFrom(s, covered, assertion)
  }

  predicate DecryptedFrom(s: Setup, text: string, assertion: string)
    requires Faithful(s.read)
  {
    s.key.Some? && Decrypt(s, s.key.value, text).Ok? && Decrypt(s, s.key.value, text).value.1 == assertion
  }

  /** Even without the Direct requirement, nothing is returned that no validated reference covers. */
  lemma ReturnedAssertionIsCovered(s: Setup, xml: string, response: ResponseRequirement)
    requires Faithful(s.read)
    ensures var r := VerifyAndPrepare(s, xml, SamlResponse, Compatible, response);
            r.Ok? && r.value.assertion.Some? ==>
              || ContentValidated(s, xml, r.value.assertion.value)
              || ContentValidated(s, r.value.content, r.value.assertion.value)
              || DecryptedFromCovered(s, xml, r.value.assertion.value)
  {
    hide HasXmlSignature, Decrypt, VerifyEmbedded, ResponseSignatureRequired, SelfValidated, CutValidated,
         ResponseValidated, ContentValidated, Faithful;
    var r := VerifyAndPrepare(s, xml, SamlResponse, Compatible, response);
    if r.Ok? && r.value.assertion.Some? {
      var e := VerifyEmbedded(s, xml).value;
      EvidenceMeans(s, xml, e);
      if s.key.Some? && !e.verified {
        EvidenceMeans(s, r.value.content, VerifyEmbedded(s, r.value.content).value);
      } else if s.key.Some? && e.content.Some? {
        assert DecryptedFrom(s, e.content.value, r.value.assertion.value);
      }
    }
  }

  /** Messages other than responses are returned as the covered text alone, unless they had to be decrypted. */
  lemma ReturnedRequestIsCovered(s: Setup, xml: string, parser: ParserType, direct: AssertionRequirement,
                                 response: ResponseRequirement)
    requires Faithful(s.read) && !parser.SamlResponse?
    ensures var r := VerifyAndPrepare(s, xml, parser, direct, response);
            r.Ok? && (s.key.None? || VerifyEmbedded(s, xml).value.verified) ==>
              r.value.assertion.None? && ContentValidated(s, xml, r.value.content)
  {
    hide HasXmlSignature, Decrypt, VerifyEmbedded, ResponseSignatureRequired, SelfValidated, CutValidated,
         ResponseValidated, ContentValidated, Faithful;
    if VerifyAndPrepare(s, xml, parser, direct, response).Ok? {
      EvidenceMeans(s, xml, VerifyEmbedded(s, xml).value);
    }
  }

  // ----- encryption, read back

  /** A document is read as its own stream, within the limits. */
  ghost predicate ReadsAs(s: Setup, doc: Doc) {
    && s.read(SourceOf(doc.Items())) == Flatten(doc.Items())
    && Shaped(doc.Items()) && DocumentWithin(doc.Items(), s.limits, Document)
  }

  lemma ReadDocumentIsItsRoot(s: Setup, doc: Doc)
    requires doc.WellFormed() && ReadsAs(s, doc)
    ensures RootOf(s, SourceOf(doc.Items())) == Ok(doc.RootNode())
    ensures |SourceOf(doc.Items())| <= s.limits.maxBytes
  {
    hide Build, Flatten, SourceOf, Shaped, ParseAll, Doc.WellFormed;
    DocHasOneRoot(doc);
    ParseBuildsTheTree(doc.Items(), s.limits, Document);
  }

  /**
   * What the decryptor may give back for an element's text: the text itself, or with a
   * declaration and white space before it.
   */
  ghost predicate SpellsOut(plaintext: string, text: string) {
    exists space: string, inside: string, gap: string ::
      && (forall c :: c in space + gap ==> CharWhitespace(c)) && (forall i :: 0 <= i < |inside| ==> inside[i] != '?')
      && (plaintext == space + text || plaintext == space + "<?xml" + inside + "?>" + gap + text)
  }

  lemma SpelledOutIsStripped(plaintext: string, text: string)
    requires SpellsOut(plaintext, text) && |text| > 1 && text[0] == '<' && text[1] != '?'
    ensures StripXmlDeclaration(plaintext) == text
  {
    hide StripXmlDeclaration;
    var space: string, inside: string, gap: string :|
      && (forall c :: c in space + gap ==> CharWhitespace(c)) && (forall i :: 0 <= i < |inside| ==> inside[i] != '?')
      && (plaintext == space + text || plaintext == space + "<?xml" + inside + "?>" + gap + text);
    DeclarationIsStripped(space, inside, gap, text);
  }

  /**
   * Through the parser on both sides: the assertion of a document that is read back is
   * encrypted in place, the sealed document is read back, and decrypting it gives the
   * document and the assertion's text, whether or not the decryptor adds a declaration.
   */
  lemma EncryptedDocumentDecrypts(
    s: Setup, key: DecryptionKey, doc: Doc, k: nat, wrapper: Item, d: nat, wrap: string -> Result<string, SamlError>,
    plaintext: string)
    requires Faithful(s.read) && key.loaded.Ok? && key.permitted.Ok?
    requires doc.WellFormed() && FirstNamed(doc.body, "Assertion") == Some(k)
    requires FirstNamed(doc.body, "EncryptedAssertion").None?
    requires TaggedItem(wrapper) && wrapper.Element? && ElementName(wrapper) == Some("EncryptedAssertion")
    requires FirstNamed(wrapper.body, "EncryptedData") == Some(d)
    requires var text := Source(FlattenItem(doc.body[k]));
             && wrap(text) == Ok(Source(FlattenItem(wrapper)))
             && key.decrypt(Source(FlattenItem(wrapper.body[d]))) == Ok(plaintext)
             && SpellsOut(plaintext, text) && |text| > 1 && text[0] == '<' && text[1] != '?'
    requires ReadsAs(s, doc) && ReadsAs(s, doc.(body := doc.body[k := wrapper]))
    ensures var xml := SourceOf(doc.Items());
            && RootOf(s, xml).Ok? && SpansIn(xml, RootOf(s, xml).value.children)
            && var sealed := EncryptAssertion(xml, RootOf(s, xml).value, wrap);
               sealed.Ok? && Decrypt(s, key, sealed.value) == Ok((xml, Source(FlattenItem(doc.body[k]))))
  {
    hide EncryptAssertion, DecryptAssertion, SpellsOut, ReadsAs, Doc.WellFormed, FirstNamed, StripXmlDeclaration,
         Faithful;
    var sealed := doc.(body := doc.body[k := wrapper]);
    SealedIsWellFormed(doc, k, wrapper);
    ReadDocumentIsItsRoot(s, doc);
    ReadDocumentIsItsRoot(s, sealed);
    SpelledOutIsStripped(plaintext, Source(FlattenItem(doc.body[k])));
    DecryptAfterEncryptRestores(doc, k, wrapper, d, wrap, key.decrypt, plaintext, s.limits);
  }

  lemma SealedIsWellFormed(doc: Doc, k: nat, wrapper: Item)
    requires doc.WellFormed() && k < |doc.body| && TaggedItem(wrapper)
    ensures doc.(body := doc.body[k := wrapper]).WellFormed()
  {
    var body := doc.body[k := wrapper];
    assert forall item :: item in body ==> item == wrapper || item in doc.body;
    assert forall item :: item in body ==> TaggedItem(item);
  }
}
