/**
 * Exactly when an inbound message is prepared, and with what result (src/flow.rs,
 * verify_and_prepare; src/crypto/enc.rs): each path said of the evidence, the requirements,
 * the key and the profile verdict, and every returned assertion traced to its element.
 */
module InboundPaths {
  import opened Prelude
  import opened XmlEvents
  import opened XmlDom
  import opened XmlSpans
  import opened XmlSplice
  import opened XmlEncryption
  import opened Preflight
  import opened Coverage
  import opened DetailedVerification
  import opened DocumentChecks
  import opened VerdictMeaning
  import opened InboundFlow

  // ----- decryption

  /**
   * The first EncryptedAssertion's first EncryptedData decrypts; its plaintext, without a
   * declaration, is the assertion and takes the place of the EncryptedAssertion.
   */
  ghost predicate Decrypts(s: Setup, key: DecryptionKey, xml: string, content: string, assertion: string) {
    && key.loaded.Ok? && key.permitted.Ok? && RootOf(s, xml).Ok?
    && exists encrypted, data, plaintext ::
         && FirstChild(RootOf(s, xml).value, "EncryptedAssertion", encrypted)
         && FirstChild(encrypted, "EncryptedData", data)
         && SpanIn(xml, encrypted) && SpanIn(xml, data)
         && key.decrypt(xml[data.start..data.end]) == Ok(plaintext)
         && assertion == StripXmlDeclaration(plaintext)
         && content == xml[..encrypted.start] + assertion + xml[encrypted.end..]
         && |content| <= s.limits.maxBytes && |assertion| <= s.limits.maxBytes
  }

  lemma DecryptDecrypts(s: Setup, key: DecryptionKey, xml: string, content: string, assertion: string)
    requires Faithful(s.read)
    ensures Decrypt(s, key, xml) == Ok((content, assertion)) <==> Decrypts(s, key, xml, content, assertion)
  {
    hide StripXmlDeclaration, FirstNode, FirstChild, WellRead, RootOf, Decrypt;
    if RootOf(s, xml).Ok? {
      var root := RootOf(s, xml).value;
      DocumentIsDecrypted(s, key, xml);
      forall n: Node, name: string, c: Node
        ensures FirstNode(n.children, name) == Some(c) <==> FirstChild(n, name, c)
      {
        FirstNodeIsFirstChild(n, name, c);
      }
    }
    DecryptNeedsADocument(s, key, xml);
  }

  lemma DecryptNeedsADocument(s: Setup, key: DecryptionKey, xml: string)
    requires Faithful(s.read)
    ensures Decrypt(s, key, xml).Ok? ==> key.loaded.Ok? && key.permitted.Ok? && RootOf(s, xml).Ok?
  {
    hide DecryptAssertion;
  }

  lemma DocumentIsDecrypted(s: Setup, key: DecryptionKey, xml: string)
    requires Faithful(s.read) && RootOf(s, xml).Ok?
    ensures SpansIn(xml, RootOf(s, xml).value.children)
    ensures key.loaded.Ok? && key.permitted.Ok? ==>
        Decrypt(s, key, xml) == DecryptAssertion(xml, RootOf(s, xml).value, key.decrypt, s.limits)
  {
    hide DecryptAssertion;
    ParsedSpansLieInSource(s.read(xml), s.limits);
  }

  // ----- the requirement on the Response signature

  /** An EncryptedAssertion of the root whose encryption method is a CBC block cipher. */
  ghost predicate CbcChild(root: Node) {
    exists encrypted, data, encryption, algorithm ::
      && encrypted in root.children && encrypted.localName == "EncryptedAssertion"
      && FirstChild(encrypted, "EncryptedData", data) && FirstChild(data, "EncryptionMethod", encryption)
      && HasAttribute(encryption, "Algorithm", algorithm)
      && algorithm in {"http://www.w3.org/2001/04/xmlenc#aes128-cbc", "http://www.w3.org/2001/04/xmlenc#aes192-cbc",
                       "http://www.w3.org/2001/04/xmlenc#aes256-cbc", "http://www.w3.org/2001/04/xmlenc#tripledes-cbc"}
  }

  ghost predicate RequirementMet(s: Setup, requirement: ResponseRequirement, xml: string, e: Evidence) {
    match requirement
    case Optional => true
    case Required => e.verified && e.responseCovered
    case RequiredForEncryptedCbc =>
      RootOf(s, xml).Ok? && CbcChild(RootOf(s, xml).value) ==> e.verified && e.responseCovered
  }

  lemma CbcIsCbc(encrypted: Node)
    ensures CbcEncrypted(encrypted) <==>
            exists data, encryption, algorithm ::
              && FirstChild(encrypted, "EncryptedData", data) && FirstChild(data, "EncryptionMethod", encryption)
              && HasAttribute(encryption, "Algorithm", algorithm) && CbcAlgorithm(algorithm)
  {
    hide HasAttribute, AttrIn, FirstNode, CbcAlgorithm;
    forall n: Node, name: string, c: Node
      ensures FirstNode(n.children, name) == Some(c) <==> FirstChild(n, name, c)
    {
      FirstNodeIsFirstChild(n, name, c);
    }
    var data := FirstNode(encrypted.children, "EncryptedData");
    if data.Some? && FirstNode(data.value.children, "EncryptionMethod").Some? {
      AttributesAre(FirstNode(data.value.children, "EncryptionMethod").value, "Algorithm");
    }
  }

  lemma CbcNames(algorithm: string)
    ensures CbcAlgorithm(algorithm) <==>
            algorithm in {"http://www.w3.org/2001/04/xmlenc#aes128-cbc", "http://www.w3.org/2001/04/xmlenc#aes192-cbc",
                          "http://www.w3.org/2001/04/xmlenc#aes256-cbc",
                          "http://www.w3.org/2001/04/xmlenc#tripledes-cbc"}
  {
    assert ENC + "aes128-cbc" == "http://www.w3.org/2001/04/xmlenc#aes128-cbc";
    assert ENC + "aes192-cbc" == "http://www.w3.org/2001/04/xmlenc#aes192-cbc";
    assert ENC + "aes256-cbc" == "http://www.w3.org/2001/04/xmlenc#aes256-cbc";
    assert ENC + "tripledes-cbc" == "http://www.w3.org/2001/04/xmlenc#tripledes-cbc";
  }

  lemma CbcRequirement(s: Setup, xml: string)
    requires RootOf(s, xml).Ok?
    ensures ResponseSignatureRequired(s, RequiredForEncryptedCbc, xml) == Ok(CbcChild(RootOf(s, xml).value))
  {
    hide CbcEncrypted, FirstChild, HasAttribute, NodesNamed;
    var root := RootOf(s, xml).value;
    forall c
      ensures c in ChildrenNamed(root, "EncryptedAssertion") <==>
              c in root.children && c.localName == "EncryptedAssertion"
      ensures CbcEncrypted(c) <==>
              exists data, encryption, algorithm ::
                && FirstChild(c, "EncryptedData", data) && FirstChild(data, "EncryptionMethod", encryption)
                && HasAttribute(encryption, "Algorithm", algorithm) && CbcAlgorithm(algorithm)
    {
      NamedIff(root.children, "EncryptedAssertion", c);
      CbcIsCbc(c);
    }
    forall algorithm {
      CbcNames(algorithm);
    }
  }

  // ----- the paths

  /** The verified content is to be decrypted: a response that hands on content, and a key. */
  predicate HoldsEncrypted(s: Setup, parser: ParserType, e: Evidence) {
    s.key.Some? && parser.SamlResponse? && e.content.Some?
  }

  /** Signed and not to be decrypted: a response with what the verdict hands on, or the handed-on message alone. */
  predicate PreparesSigned(xml: string, parser: ParserType, direct: AssertionRequirement, e: Evidence, p: Prepared) {
    && (direct.Direct? ==> e.assertionCovered)
    && if parser.SamlResponse? then p == Prepared(xml, e.content, e.responseCovered)
       else e.content.Some? && p == Prepared(e.content.value, None, e.responseCovered)
  }

  /** The text verifies; under the Direct requirement a signature stands behind its Assertion. */
  ghost predicate VerifiesAgain(s: Setup, text: string, direct: AssertionRequirement)
    requires Faithful(s.read)
  {
    var inner := VerifyEmbedded(s, text);
    inner.Ok? && inner.value.verified && (direct.Direct? ==> inner.value.assertionCovered)
  }

  /** Signed, then encrypted: the handed-on content decrypts, and what it gives is returned. */
  ghost predicate PreparesDecrypted(
      s: Setup, parser: ParserType, direct: AssertionRequirement, e: Evidence, p: Prepared)
    requires Faithful(s.read) && s.key.Some? && e.content.Some?
  {
    exists content, assertion ::
      && Decrypts(s, s.key.value, e.content.value, content, assertion) && s.admit(content, parser).Ok?
      && (direct.Direct? ==> VerifiesAgain(s, assertion, direct))
      && p == Prepared(content, Some(assertion), e.responseCovered)
  }

  /** Encrypted, then signed: the message decrypts, and the plaintext or the document around it verifies. */
  ghost predicate PreparesThenVerifies(
      s: Setup, xml: string, parser: ParserType, direct: AssertionRequirement, p: Prepared)
    requires Faithful(s.read) && s.key.Some?
  {
    exists content, assertion ::
      && Decrypts(s, s.key.value, xml, content, assertion) && s.admit(content, parser).Ok?
      && VerifiesAgain(s, if direct.Direct? then assertion else content, direct)
      && p == Prepared(content, if direct.Direct? then Some(assertion) else VerifyEmbedded(s, content).value.content,
                       false)
  }

  ghost predicate Prepares(s: Setup, xml: string, parser: ParserType, direct: AssertionRequirement,
                           requirement: ResponseRequirement, p: Prepared)
    requires Faithful(s.read)
  {
    && VerifyEmbedded(s, xml).Ok?
    && var e := VerifyEmbedded(s, xml).value;
       && RequirementMet(s, requirement, xml, e)
       && (s.key.Some? ==> s.key.value.permitted.Ok?)
       && if e.verified then
            if HoldsEncrypted(s, parser, e) then PreparesDecrypted(s, parser, direct, e, p)
            else PreparesSigned(xml, parser, direct, e, p)
          else s.key.Some? && PreparesThenVerifies(s, xml, parser, direct, p)
  }

  lemma VerifiedCanBeRead(s: Setup, xml: string)
    requires Faithful(s.read) && VerifyEmbedded(s, xml).Ok?
    ensures RootOf(s, xml).Ok? && HasXmlSignature(s, xml).Ok?
  {
  }

  lemma RequirementIsMet(s: Setup, xml: string, requirement: ResponseRequirement, e: Evidence)
    requires RootOf(s, xml).Ok?
    ensures ResponseSignatureRequired(s, requirement, xml).Ok?
    ensures (ResponseSignatureRequired(s, requirement, xml).value ==> e.verified && e.responseCovered) <==>
            RequirementMet(s, requirement, xml, e)
  {
    hide CbcChild, CbcEncrypted;
    CbcRequirement(s, xml);
  }

  lemma DecryptVerifiedPrepares(
      s: Setup, parser: ParserType, direct: AssertionRequirement, e: Evidence, p: Prepared)
    requires Faithful(s.read) && s.key.Some? && e.content.Some?
    ensures DecryptVerified(s, s.key.value, e.content.value, parser, direct, e.responseCovered) == Ok(p) <==>
            PreparesDecrypted(s, parser, direct, e, p)
  {
    hide Decrypt, Decrypts, VerifyEmbedded, HasXmlSignature, Faithful;
    var decrypted := Decrypt(s, s.key.value, e.content.value);
    forall content, assertion
      ensures decrypted == Ok((content, assertion)) <==>
              Decrypts(s, s.key.value, e.content.value, content, assertion)
    {
      DecryptDecrypts(s, s.key.value, e.content.value, content, assertion);
    }
    if decrypted.Ok? {
      var (content, assertion) := decrypted.value;
      assert Decrypts(s, s.key.value, e.content.value, content, assertion);
      if VerifyEmbedded(s, assertion).Ok? {
        VerifiedCanBeRead(s, assertion);
      }
    }
  }

  lemma DecryptThenVerifyPrepares(
      s: Setup, xml: string, parser: ParserType, direct: AssertionRequirement, p: Prepared)
    requires Faithful(s.read) && s.key.Some?
    ensures DecryptThenVerify(s, s.key.value, xml, parser, direct) == Ok(p) <==>
            PreparesThenVerifies(s, xml, parser, direct, p)
  {
    hide Decrypt, Decrypts, VerifyEmbedded, HasXmlSignature, Faithful;
    var decrypted := Decrypt(s, s.key.value, xml);
    forall content, assertion
      ensures decrypted == Ok((content, assertion)) <==> Decrypts(s, s.key.value, xml, content, assertion)
    {
      DecryptDecrypts(s, s.key.value, xml, content, assertion);
    }
    if decrypted.Ok? {
      var (content, assertion) := decrypted.value;
      assert Decrypts(s, s.key.value, xml, content, assertion);
      var signed := if direct.Direct? then assertion else content;
      if VerifyEmbedded(s, signed).Ok? {
        VerifiedCanBeRead(s, signed);
      }
    }
  }

  /** A message is prepared exactly by one of these paths, and the result is the path's. */
  lemma PreparedExactlyWhen(s: Setup, xml: string, parser: ParserType, direct: AssertionRequirement,
                            requirement: ResponseRequirement, p: Prepared)
    requires Faithful(s.read)
    ensures VerifyAndPrepare(s, xml, parser, direct, requirement) == Ok(p) <==>
            Prepares(s, xml, parser, direct, requirement, p)
  {
    hide VerifyEmbedded, HasXmlSignature, Faithful, RequirementMet, ResponseSignatureRequired, PreparesDecrypted,
         PreparesThenVerifies, DecryptVerified, DecryptThenVerify;
    if VerifyEmbedded(s, xml).Ok? {
      var e := VerifyEmbedded(s, xml).value;
      VerifiedCanBeRead(s, xml);
      RequirementIsMet(s, xml, requirement, e);
      if HoldsEncrypted(s, parser, e) {
        DecryptVerifiedPrepares(s, parser, direct, e, p);
      }
      if s.key.Some? {
        DecryptThenVerifyPrepares(s, xml, parser, direct, p);
      }
    }
  }

  /** A message that must verify and does not is reported as unsigned or as wrongly signed. */
  lemma UnverifiedIsReported(s: Setup, xml: string, parser: ParserType, direct: AssertionRequirement,
                             requirement: ResponseRequirement)
    requires Faithful(s.read) && VerifyEmbedded(s, xml).Ok? && !VerifyEmbedded(s, xml).value.verified
    requires s.key.None? || !RequirementMet(s, requirement, xml, VerifyEmbedded(s, xml).value)
    ensures RootOf(s, xml).Ok?
    ensures VerifyAndPrepare(s, xml, parser, direct, requirement)
         == Err(if exists n :: Candidate(RootOf(s, xml).value, n) then SignatureInvalid else SignatureMissing)
  {
    hide VerifyEmbedded, Faithful, RequirementMet, ResponseSignatureRequired, Candidate, SignatureCandidates;
    VerifiedCanBeRead(s, xml);
    RequirementIsMet(s, xml, requirement, VerifyEmbedded(s, xml).value);
    var root := RootOf(s, xml).value;
    forall n ensures n in SignatureCandidates(root) <==> Candidate(root, n) {
      CandidatesAreSignatures(root, n);
    }
    if SignatureCandidates(root) != [] {
      assert SignatureCandidates(root)[0] in SignatureCandidates(root);
    }
  }

  // ----- where a returned assertion comes from

  /** The text of the node that a verdict on the document hands on. */
  ghost predicate HandedOnFrom(s: Setup, xml: string, text: string) {
    && RootOf(s, xml).Ok?
    && exists n :: HandedOn(RootOf(s, xml).value, n) && SpanIn(xml, n) && text == Cut(xml, n)
  }

  lemma EvidenceHandsOn(s: Setup, xml: string)
    requires Faithful(s.read) && VerifyEmbedded(s, xml).Ok? && VerifyEmbedded(s, xml).value.verified
    requires VerifyEmbedded(s, xml).value.content.Some?
    ensures HandedOnFrom(s, xml, VerifyEmbedded(s, xml).value.content.value)
  {
    hide HandedOn, VerifyRoot;
    var tokens := s.read(xml);
    assert WellRead(tokens) && Source(tokens) == xml;
    ParsedSpansLieInSource(tokens, s.limits);
    var root := RootOf(s, xml).value;
    VerdictHandsOn(root, tokens, s.certs, s.normalize, FindIn(s, xml));
    var n :| HandedOn(root, n);
  }

  /**
   * Without a key the returned assertion is what the verdict hands on. With one it is the
   * plaintext of what the verdict hands on; of the message, when only the plaintext is
   * signed; or what the verdict on the decrypted document hands on.
   */
  lemma ReturnedAssertionComesFrom(
    s: Setup, xml: string, direct: AssertionRequirement, requirement: ResponseRequirement, p: Prepared, text: string)
    requires Faithful(s.read)
    requires VerifyAndPrepare(s, xml, SamlResponse, direct, requirement) == Ok(p) && p.assertion == Some(text)
    ensures if s.key.None? then HandedOnFrom(s, xml, text)
            else
              || (exists covered, content ::
                    HandedOnFrom(s, xml, covered) && Decrypts(s, s.key.value, covered, content, text))
              || (exists content, plaintext ::
                    && Decrypts(s, s.key.value, xml, content, plaintext)
                    && (text == plaintext || HandedOnFrom(s, content, text)))
  {
    hide VerifyEmbedded, Faithful, RequirementMet, Decrypts, HandedOnFrom;
    PreparedExactlyWhen(s, xml, SamlResponse, direct, requirement, p);
    var e := VerifyEmbedded(s, xml).value;
    if e.verified && e.content.Some? {
      EvidenceHandsOn(s, xml);
    }
    if !e.verified {
      var content, assertion :|
        && Decrypts(s, s.key.value, xml, content, assertion) && s.admit(content, SamlResponse).Ok?
        && VerifiesAgain(s, if direct.Direct? then assertion else content, direct)
        && p == Prepared(content, if direct.Direct? then Some(assertion) else VerifyEmbedded(s, content).value.content,
                         false);
      if direct.Compatible? {
        EvidenceHandsOn(s, content);
      }
    }
  }
}
