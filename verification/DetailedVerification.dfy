/**
 * Signature verification of a whole document (src/crypto/verify.rs,
 * verify_signatures_detailed_with_limits). What the cryptographic backend finds under each
 * certificate is a parameter; what is proved is how those findings become a verdict.
 */
module DetailedVerification {
  import opened Prelude
  import opened XmlEvents
  import opened XmlDom
  import opened XmlSpans
  import opened Preflight
  import opened Coverage

  /** A reference the backend checked: its URI, whether its digest matched, whether it found a node. */
  datatype Reference = Reference(uri: string, digestVerified: bool, resolved: bool)

  datatype Verdict = ValidSignature(references: seq<Reference>) | InvalidSignature

  /** What a metadata certificate yields: it does not load, the backend fails, or each signature is judged. */
  datatype Finding = Unloadable(error: SamlError) | Failed | Judged(verdicts: seq<Verdict>)

  datatype Evidence = Evidence(verified: bool, content: Option<string>, assertionCovered: bool, responseCovered: bool)

  const UNVERIFIED: Evidence := Evidence(false, None, false, false)

  // ----- references to targets

  function ReferenceTarget(reference: Reference): Result<Target, SamlError> {
    if reference.uri != "" && reference.uri[0] != '#' then Err(ReferenceResolution)
    else if !reference.digestVerified then Err(SignatureInvalid)
    else
      match TargetOf(reference.uri)
      case Err(e) => Err(e)
      case Ok(target) => if target.Id? && !reference.resolved then Err(ReferenceResolution) else Ok(target)
  }

  function TargetsFrom(references: seq<Reference>): Result<seq<Target>, SamlError> {
    if references == [] then Ok([])
    else
      match ReferenceTarget(references[0])
      case Err(e) => Err(e)
      case Ok(target) => Prepend([target], TargetsFrom(references[1..]))
  }

  function Prepend(first: seq<Target>, rest: Result<seq<Target>, SamlError>): Result<seq<Target>, SamlError> {
    match rest
    case Err(e) => Err(e)
    case Ok(targets) => Ok(first + targets)
  }

  /** The targets of one signature; a signature without references covers nothing and is an error. */
  function SignatureTargets(references: seq<Reference>): Result<seq<Target>, SamlError> {
    if references == [] then Err(ReferenceResolution) else TargetsFrom(references)
  }

  method VerifiedTargets(references: seq<Reference>) returns (r: Result<seq<Target>, SamlError>)
    ensures r == SignatureTargets(references)
  {
    if references == [] {
      return Err(ReferenceResolution);
    }
    var targets: seq<Target> := [];
    PrependNothing(TargetsFrom(references));
    for i := 0 to |references|
      invariant TargetsFrom(references) == Prepend(targets, TargetsFrom(references[i..]))
    {
      assert references[i..][0] == references[i] && references[i..][1..] == references[i + 1..];
      var reference := references[i];
      if reference.uri != "" && reference.uri[0] != '#' {
        return Err(ReferenceResolution);
      }
      if !reference.digestVerified {
        return Err(SignatureInvalid);
      }
      var target := TargetOf(reference.uri);
      if target.Err? {
        return target.PropagateFailure();
      }
      if target.value.Id? && !reference.resolved {
        return Err(ReferenceResolution);
      }
      PrependTwice(targets, [target.value], TargetsFrom(references[i + 1..]));
      targets := targets + [target.value];
    }
    PrependNothing(Ok(targets));
    r := Ok(targets);
  }

  lemma PrependNothing(rest: Result<seq<Target>, SamlError>)
    ensures Prepend([], rest) == rest
    ensures rest.Ok? ==> Prepend(rest.value, Ok([])) == rest
  {
    if rest.Ok? {
      assert [] + rest.value == rest.value + [] == rest.value;
    }
  }

  lemma PrependTwice(a: seq<Target>, b: seq<Target>, rest: Result<seq<Target>, SamlError>)
    ensures Prepend(a, Prepend(b, rest)) == Prepend(a + b, rest)
  {
    if rest.Ok? {
      assert a + (b + rest.value) == a + b + rest.value;
    }
  }

  // ----- certificates

  function VerdictTargets(verdicts: seq<Verdict>): Result<seq<Target>, SamlError> {
    if verdicts == [] then Ok([])
    else
      match verdicts[0]
      case InvalidSignature => VerdictTargets(verdicts[1..])
      case ValidSignature(references) =>
        match SignatureTargets(references)
        case Err(e) => Err(e)
        case Ok(targets) => Prepend(targets, VerdictTargets(verdicts[1..]))
  }

  function Verdicts(finding: Finding): seq<Verdict> {
    if finding.Judged? then finding.verdicts else []
  }

  /** All targets, certificate by certificate, or the first reference error. */
  function AllTargets(certs: seq<string>, find: string -> Finding): Result<seq<Target>, SamlError> {
    if certs == [] then Ok([])
    else
      match VerdictTargets(Verdicts(find(certs[0])))
      case Err(e) => Err(e)
      case Ok(targets) => Prepend(targets, AllTargets(certs[1..], find))
  }

  predicate HaveKey(certs: seq<string>, find: string -> Finding) {
    exists c :: c in certs && !find(c).Unloadable?
  }

  predicate TriedInvalid(certs: seq<string>, find: string -> Finding) {
    exists c :: c in certs && InvalidSignature in Verdicts(find(c))
  }

  predicate AnyFailed(certs: seq<string>, find: string -> Finding) {
    exists c :: c in certs && find(c).Failed?
  }

  predicate FirstVerified(certs: seq<string>, find: string -> Finding) {
    exists c :: c in certs && Verdicts(find(c)) != [] && Verdicts(find(c))[0].ValidSignature?
  }

  /** The first certificate that does not load says why, should none load. */
  function FirstLoadError(certs: seq<string>, find: string -> Finding): Option<SamlError> {
    if certs == [] then None
    else if find(certs[0]).Unloadable? then Some(find(certs[0]).error)
    else FirstLoadError(certs[1..], find)
  }

  lemma {:induction false} FirstLoadErrorSnoc(certs: seq<string>, c: string, find: string -> Finding)
    ensures FirstLoadError(certs + [c], find)
         == if FirstLoadError(certs, find).Some? then FirstLoadError(certs, find)
            else if find(c).Unloadable? then Some(find(c).error) else None
  {
    if certs == [] {
      assert certs + [c] == [c];
    } else {
      FirstLoadErrorSnoc(certs[1..], c, find);
      assert (certs + [c])[1..] == certs[1..] + [c];
    }
  }

  datatype Tally = Tally(
    haveKey: bool,
    loadError: Option<SamlError>,
    triedInvalid: bool,
    anyFailed: bool,
    firstVerified: bool,
    targets: seq<Target>)

  method TryVerdicts(verdicts: seq<Verdict>, before: seq<Target>, triedBefore: bool)
    returns (r: Result<seq<Target>, SamlError>, triedInvalid: bool)
    ensures r == Prepend(before, VerdictTargets(verdicts))
    ensures r.Ok? ==> triedInvalid == (triedBefore || InvalidSignature in verdicts)
  {
    var targets := before;
    triedInvalid := triedBefore;
    for i := 0 to |verdicts|
      invariant Prepend(before, VerdictTargets(verdicts)) == Prepend(targets, VerdictTargets(verdicts[i..]))
      invariant triedInvalid == (triedBefore || InvalidSignature in verdicts[..i])
    {
      assert verdicts[i..][0] == verdicts[i] && verdicts[i..][1..] == verdicts[i + 1..];
      assert verdicts[..i + 1] == verdicts[..i] + [verdicts[i]];
      if verdicts[i].ValidSignature? {
        var found := VerifiedTargets(verdicts[i].references);
        if found.Err? {
          return found.PropagateFailure(), triedInvalid;
        }
        PrependTwice(targets, found.value, VerdictTargets(verdicts[i + 1..]));
        targets := targets + found.value;
      } else {
        triedInvalid := true;
      }
    }
    assert verdicts[..|verdicts|] == verdicts;
    PrependNothing(Ok(targets));
    r := Ok(targets);
  }

  lemma TargetsStep(certs: seq<string>, i: nat, find: string -> Finding, targets: seq<Target>)
    requires i < |certs|
    requires AllTargets(certs, find) == Prepend(targets, AllTargets(certs[i..], find))
    ensures var more := VerdictTargets(Verdicts(find(certs[i])));
            && (more.Err? ==> AllTargets(certs, find) == Err(more.error))
            && (more.Ok? ==> AllTargets(certs, find) == Prepend(targets + more.value, AllTargets(certs[i + 1..], find)))
    ensures Verdicts(find(certs[i])) == [] ==>
        AllTargets(certs, find) == Prepend(targets, AllTargets(certs[i + 1..], find))
  {
    assert certs[i..][0] == certs[i] && certs[i..][1..] == certs[i + 1..];
    var more := VerdictTargets(Verdicts(find(certs[i])));
    if more.Ok? {
      PrependTwice(targets, more.value, AllTargets(certs[i + 1..], find));
      assert more.value == [] ==> targets + more.value == targets;
    }
  }

  /** The certificate loop: flags and targets gathered over the whole list. */
  method TryCertificates(certs: seq<string>, find: string -> Finding) returns (r: Result<Tally, SamlError>)
    ensures AllTargets(certs, find).Err? ==> r == Err(AllTargets(certs, find).error)
    ensures AllTargets(certs, find).Ok? ==>
              r == Ok(Tally(HaveKey(certs, find), FirstLoadError(certs, find), TriedInvalid(certs, find),
                            AnyFailed(certs, find), FirstVerified(certs, find), AllTargets(certs, find).value))
  {
    hide AllTargets, FirstLoadError, HaveKey, TriedInvalid, AnyFailed, FirstVerified;
    TallyNothing(find);
    var haveKey, triedInvalid, anyFailed, firstVerified := false, false, false, false;
    var loadError: Option<SamlError> := None;
    var targets: seq<Target> := [];
    PrependNothing(AllTargets(certs, find));
    assert certs[0..] == certs;
    for i := 0 to |certs|
      invariant AllTargets(certs, find) == Prepend(targets, AllTargets(certs[i..], find))
      invariant haveKey == HaveKey(certs[..i], find)
      invariant loadError == FirstLoadError(certs[..i], find)
      invariant triedInvalid == TriedInvalid(certs[..i], find)
      invariant anyFailed == AnyFailed(certs[..i], find)
      invariant firstVerified == FirstVerified(certs[..i], find)
    {
      var finding := find(certs[i]);
      TargetsStep(certs, i, find, targets);
      TallySnoc(certs[..i], certs[i], find);
      FirstLoadErrorSnoc(certs[..i], certs[i], find);
      assert certs[..i + 1] == certs[..i] + [certs[i]];
      if finding.Unloadable? {
        loadError := if loadError.Some? then loadError else Some(finding.error);
        continue;
      }
      haveKey := true;
      if finding.Judged? {
        firstVerified := firstVerified || (finding.verdicts != [] && finding.verdicts[0].ValidSignature?);
        var more;
        more, triedInvalid := TryVerdicts(finding.verdicts, targets, triedInvalid);
        if more.Err? {
          return more.PropagateFailure();
        }
        targets := more.value;
      } else {
        anyFailed := true;
      }
    }
    assert certs[..|certs|] == certs && certs[|certs|..] == [];
    PrependNothing(Ok(targets));
    r := Ok(Tally(haveKey, loadError, triedInvalid, anyFailed, firstVerified, targets));
  }

  lemma TallyNothing(find: string -> Finding)
    ensures AllTargets([], find) == Ok([]) && FirstLoadError([], find) == None
    ensures !HaveKey([], find) && !TriedInvalid([], find) && !AnyFailed([], find) && !FirstVerified([], find)
  {
  }

  lemma TallySnoc(certs: seq<string>, c: string, find: string -> Finding)
    ensures HaveKey(certs + [c], find) == (HaveKey(certs, find) || !find(c).Unloadable?)
    ensures TriedInvalid(certs + [c], find) == (TriedInvalid(certs, find) || InvalidSignature in Verdicts(find(c)))
    ensures AnyFailed(certs + [c], find) == (AnyFailed(certs, find) || find(c).Failed?)
    ensures FirstVerified(certs + [c], find)
         == (FirstVerified(certs, find) || (Verdicts(find(c)) != [] && Verdicts(find(c))[0].ValidSignature?))
  {
    var all := certs + [c];
    assert forall x :: x in all <==> x in certs || x == c;
  }

  // ----- what the gathered targets are

  ghost predicate NamesTarget(v: Verdict, t: Target) {
    v.ValidSignature? && exists reference :: reference in v.references && ReferenceTarget(reference) == Ok(t)
  }

  /** A signature that is valid but covers nothing, or has a reference that may not be used. */
  ghost predicate Unusable(v: Verdict) {
    && v.ValidSignature?
    && (v.references == [] || exists reference :: reference in v.references && ReferenceTarget(reference).Err?)
  }

  /** A reference validated under one of the certificates names the target. */
  ghost predicate TargetUnder(certs: seq<string>, find: string -> Finding, t: Target) {
    exists c, v :: c in certs && v in Verdicts(find(c)) && NamesTarget(v, t)
  }

  ghost predicate UnusableUnder(certs: seq<string>, find: string -> Finding) {
    exists c, v :: c in certs && v in Verdicts(find(c)) && Unusable(v)
  }

  lemma {:induction false} TargetsFromMembers(references: seq<Reference>)
    ensures TargetsFrom(references).Err? <==> exists r :: r in references && ReferenceTarget(r).Err?
    ensures TargetsFrom(references).Ok? ==>
              forall t :: t in TargetsFrom(references).value <==>
                  exists r :: r in references && ReferenceTarget(r) == Ok(t)
  {
    if references != [] {
      TargetsFromMembers(references[1..]);
      assert forall r :: r in references <==> r == references[0] || r in references[1..];
    }
  }

  lemma SignatureTargetsMembers(v: Verdict)
    requires v.ValidSignature?
    ensures SignatureTargets(v.references).Err? <==> Unusable(v)
    ensures SignatureTargets(v.references).Ok? ==>
              forall t :: t in SignatureTargets(v.references).value <==> NamesTarget(v, t)
  {
    TargetsFromMembers(v.references);
  }

  lemma {:induction false} VerdictTargetsMembers(verdicts: seq<Verdict>)
    ensures VerdictTargets(verdicts).Err? <==> exists v :: v in verdicts && Unusable(v)
    ensures VerdictTargets(verdicts).Ok? ==>
              forall t :: t in VerdictTargets(verdicts).value <==> exists v :: v in verdicts && NamesTarget(v, t)
  {
    if verdicts != [] {
      VerdictTargetsMembers(verdicts[1..]);
      assert forall v :: v in verdicts <==> v == verdicts[0] || v in verdicts[1..];
      if verdicts[0].ValidSignature? {
        SignatureTargetsMembers(verdicts[0]);
      }
    }
  }

  /** The loop's targets are exactly those named under some certificate; it errs exactly on an unusable signature. */
  lemma {:induction false} AllTargetsMembers(certs: seq<string>, find: string -> Finding)
    ensures AllTargets(certs, find).Err? <==> UnusableUnder(certs, find)
    ensures AllTargets(certs, find).Ok? ==>
              forall t :: t in AllTargets(certs, find).value <==> TargetUnder(certs, find, t)
  {
    if certs != [] {
      AllTargetsMembers(certs[1..], find);
      VerdictTargetsMembers(Verdicts(find(certs[0])));
      assert forall c :: c in certs <==> c == certs[0] || c in certs[1..];
    }
  }

  // ----- checks on the document

  predicate HasDescendant(n: Node, names: set<string>) {
    exists c :: c in n.children && (c.localName in names || HasDescendant(c, names))
  }

  /** An Assertion or Signature hidden in Assertion/Subject/SubjectConfirmation/SubjectConfirmationData. */
  predicate WrappingDetected(root: Node) {
    exists assertion :: assertion in ChildrenNamed(root, "Assertion") &&
      exists subject :: subject in ChildrenNamed(assertion, "Subject") &&
        exists confirmation :: confirmation in ChildrenNamed(subject, "SubjectConfirmation") &&
          exists data :: data in ChildrenNamed(confirmation, "SubjectConfirmationData")
                      && HasDescendant(data, {"Assertion", "Signature"})
  }

  predicate TransformsAllowed(reference: Node) {
    forall transforms :: transforms in ChildrenNamed(reference, "Transforms") ==>
      forall transform :: transform in ChildrenNamed(transforms, "Transform") ==>
        Attr(transform, "Algorithm").Some? && PreservesContent(Attr(transform, "Algorithm").value)
  }

  predicate UriAllowed(reference: Node) {
    TargetOf(if Attr(reference, "URI").Some? then Attr(reference, "URI").value else "").Ok?
  }

  function SignedReferences(signatures: seq<Node>): set<Node> {
    set signature, info, reference |
      signature in signatures && info in ChildrenNamed(signature, "SignedInfo")
      && reference in ChildrenNamed(info, "Reference")
      :: reference
  }

  /** The first certificate text inside a list of nodes. */
  function FirstCertificate(nodes: seq<Node>): Option<string> {
    if nodes == [] then None
    else if CertificateIn(nodes[0]).Some? then CertificateIn(nodes[0])
    else FirstCertificate(nodes[1..])
  }

  function CertificateIn(n: Node): Option<string> {
    if n.localName == "X509Certificate" && n.text != "" then Some(n.text) else FirstCertificate(n.children)
  }

  /** An embedded certificate must be one of the metadata's, unless the metadata has none at all. */
  predicate InlineAccepted(signatures: seq<Node>, certs: seq<string>, normalize: string -> string) {
    var inline := FirstCertificate(signatures);
    inline.None? || certs == [] || exists c :: c in certs && normalize(c) == normalize(inline.value)
  }

  /** What the document itself must satisfy; what remains are the candidate signatures. */
  ghost function CheckDocument(root: Node, tokens: seq<Token>): Result<seq<Node>, SamlError>
  {
    if Contains(root.localName, "Response") && WrappingDetected(root) then Err(PotentialWrappingAttack)
    else if !Distinct(TreeIds(root)) then Err(PotentialWrappingAttack)
    else if PreflightFrom([], tokens).Err? then PreflightFrom([], tokens).PropagateFailure()
    else
      var candidates := SignatureCandidates(root);
      var references := SignedReferences(candidates);
      if exists r :: r in references && !UriAllowed(r) then Err(ReferenceResolution)
      else if exists r :: r in references && !TransformsAllowed(r) then Err(SignedReferenceMismatch)
      else Ok(candidates)
  }

  /** The verdict on what the certificates yielded. */
  function Conclude(root: Node, xml: string, certs: seq<string>, find: string -> Finding): Result<Evidence, SamlError>
    requires SpansIn(xml, [root])
  {
    match AllTargets(certs, find)
    case Err(e) => Err(e)
    case Ok(targets) =>
      if !HaveKey(certs, find) then
        Err(if FirstLoadError(certs, find).Some? then FirstLoadError(certs, find).value else NoTrustedCertificate)
      else if FirstVerified(certs, find) && targets != [] then
        match VerifiedContent(root, xml, targets)
        case Err(e) => Err(e)
        case Ok(content) =>
          Ok(Evidence(true, content, AssertionDirectlyCovered(root, targets), ResponseCovered(root, targets)))
      else if AnyFailed(certs, find) && !TriedInvalid(certs, find) then Err(Crypto)
      else Ok(UNVERIFIED)
  }

  ghost function VerifyRoot(
      root: Node, tokens: seq<Token>, certs: seq<string>, normalize: string -> string, find: string -> Finding)
    : Result<Evidence, SamlError>
    requires SpansIn(Source(tokens), [root])
  {
    Judge(CheckDocument(root, tokens), root, Source(tokens), certs, normalize, find)
  }

  function Judge(
      checked: Result<seq<Node>, SamlError>, root: Node, xml: string, certs: seq<string>,
      normalize: string -> string, find: string -> Finding): Result<Evidence, SamlError>
    requires SpansIn(xml, [root])
  {
    match checked
    case Err(e) => Err(e)
    case Ok(candidates) =>
      if candidates == [] then Ok(UNVERIFIED)
      else if !InlineAccepted(candidates, certs, normalize) then Err(CertificateMismatch)
      else Conclude(root, xml, certs, find)
  }

  ghost function VerifyDocument(tokens: seq<Token>, limits: Limits, certs: seq<string>, normalize: string -> string,
                                find: string -> Finding): Result<Evidence, SamlError>
    requires WellRead(tokens)
  {
    match ParseDocument(tokens, limits)
    case Err(e) => Err(e)
    case Ok(root) =>
      ParsedSpansLieInSource(tokens, limits);
      VerifyRoot(root, tokens, certs, normalize, find)
  }

  method ConcludeFromCertificates(root: Node, xml: string, certs: seq<string>, find: string -> Finding)
    returns (r: Result<Evidence, SamlError>)
    requires SpansIn(xml, [root])
    ensures r == Conclude(root, xml, certs, find)
  {
    var tally := TryCertificates(certs, find);
    if tally.Err? {
      return tally.PropagateFailure();
    }
    var t := tally.value;
    if !t.haveKey {
      return Err(if t.loadError.Some? then t.loadError.value else NoTrustedCertificate);
    }
    if t.firstVerified && t.targets != [] {
      var content := VerifiedContent(root, xml, t.targets);
      if content.Err? {
        return content.PropagateFailure();
      }
      return Ok(Evidence(true, content.value, AssertionDirectlyCovered(root, t.targets),
                         ResponseCovered(root, t.targets)));
    }
    if t.anyFailed && !t.triedInvalid {
      return Err(Crypto);
    }
    r := Ok(UNVERIFIED);
  }

  method CandidateSignatures(root: Node, tokens: seq<Token>) returns (r: Result<seq<Node>, SamlError>)
    ensures r == CheckDocument(root, tokens)
  {
    if Contains(root.localName, "Response") && WrappingDetected(root) {
      return Err(PotentialWrappingAttack);
    }
    var duplicate, _ := DuplicateSamlId(root, {});
    if duplicate.Some? {
      return Err(PotentialWrappingAttack);
    }
    var preflight := PreflightBackendSignatures(tokens);
    if preflight.Err? {
      return preflight.PropagateFailure();
    }
    var candidates := SignatureCandidates(root);
    if candidates == [] {
      return Ok([]);
    }
    var references := SignedReferences(candidates);
    if exists r :: r in references && !UriAllowed(r) {
      return Err(ReferenceResolution);
    }
    if exists r :: r in references && !TransformsAllowed(r) {
      return Err(SignedReferenceMismatch);
    }
    r := Ok(candidates);
  }

  /** `verify_signatures_detailed_with_limits`. */
  method VerifySignaturesDetailed(tokens: seq<Token>, limits: Limits, certs: seq<string>, normalize: string -> string,
                                  find: string -> Finding) returns (r: Result<Evidence, SamlError>)
    requires WellRead(tokens)
    ensures r == VerifyDocument(tokens, limits, certs, normalize, find)
  {
    var roots := ParseRootsInner(tokens, limits, Document);
    if roots.Err? {
      return roots.PropagateFailure();
    }
    if |roots.value| != 1 {
      return Err(Xml);
    }
    var root := roots.value[0];
    ParsedSpansLieInSource(tokens, limits);
    var candidates := CandidateSignatures(root, tokens);
    if candidates.Err? {
      return candidates.PropagateFailure();
    }
    if candidates.value == [] {
      return Ok(UNVERIFIED);
    }
    if !InlineAccepted(candidates.value, certs, normalize) {
      return Err(CertificateMismatch);
    }
    r := ConcludeFromCertificates(root, Source(tokens), certs, find);
  }

  // ----- what the verdict means

  /** Targets of references that validated under one of the certificates. */
  ghost predicate Validated(targets: seq<Target>, certs: seq<string>, find: string -> Finding) {
    targets != [] && forall t :: t in targets ==> TargetUnder(certs, find, t)
  }

  /** The evidence is what these targets show. */
  predicate Shows(e: Evidence, root: Node, xml: string, targets: seq<Target>)
    requires SpansIn(xml, [root])
  {
    && VerifiedContent(root, xml, targets) == Ok(e.content)
    && (e.assertionCovered <==> AssertionDirectlyCovered(root, targets))
    && (e.responseCovered <==> ResponseCovered(root, targets))
  }

  ghost predicate Backed(e: Evidence, root: Node, xml: string, certs: seq<string>, find: string -> Finding)
    requires SpansIn(xml, [root])
  {
    exists targets: seq<Target> :: Validated(targets, certs, find) && Shows(e, root, xml, targets)
  }

  lemma TargetsUnderAreUsable(certs: seq<string>, find: string -> Finding, targets: seq<Target>)
    requires Validated(targets, certs, find)
    ensures UsableTargets(targets)
  {
    forall t | t in targets && t.Id?
      ensures t.id != ""
    {
      var c, v :| c in certs && v in Verdicts(find(c)) && NamesTarget(v, t);
      var reference :| reference in v.references && ReferenceTarget(reference) == Ok(t);
      TargetsAreLocal(reference.uri);
    }
  }

  /** A verified verdict rests on validated references, and the content it hands on is theirs. */
  lemma VerifiedEvidenceIsBacked(root: Node, tokens: seq<Token>, certs: seq<string>, normalize: string -> string,
                                 find: string -> Finding)
    requires SpansIn(Source(tokens), [root])
    requires VerifyRoot(root, tokens, certs, normalize, find).Ok?
    requires VerifyRoot(root, tokens, certs, normalize, find).value.verified
    ensures Distinct(TreeIds(root)) && FirstVerified(certs, find)
    ensures Backed(VerifyRoot(root, tokens, certs, normalize, find).value, root, Source(tokens), certs, find)
  {
    var e := VerifyRoot(root, tokens, certs, normalize, find).value;
    assert e == Conclude(root, Source(tokens), certs, find).value;
    var targets := AllTargets(certs, find).value;
    AllTargetsMembers(certs, find);
    assert Validated(targets, certs, find);
    assert Shows(e, root, Source(tokens), targets);
  }

  /** The document's element is named by a reference, or the whole document is. */
  ghost predicate RootNamed(root: Node, targets: seq<Target>) {
    WholeDocument in targets || Named(root, root, targets)
  }

  lemma MatchedRootIsNamed(root: Node, targets: seq<Target>, certs: seq<string>, find: string -> Finding)
    requires Distinct(TreeIds(root)) && Validated(targets, certs, find) && TargetMatches(targets, root)
    ensures RootNamed(root, targets)
  {
    if WholeDocument !in targets {
      TargetsUnderAreUsable(certs, find, targets);
      assert root in AllNodes(root);
      MatchedNodeIsNamed(root, root, targets);
    }
  }

  lemma BackedContentIsCovered(e: Evidence, root: Node, xml: string, certs: seq<string>, find: string -> Finding)
    requires SpansIn(xml, [root]) && Distinct(TreeIds(root)) && Backed(e, root, xml, certs, find) && e.content.Some?
    ensures exists targets :: Validated(targets, certs, find) && CoveredContent(root, xml, targets, e.content.value)
  {
    var targets: seq<Target> :| Validated(targets, certs, find) && Shows(e, root, xml, targets);
    TargetsUnderAreUsable(certs, find, targets);
    VerifiedContentIsCovered(root, xml, targets);
  }

  lemma BackedResponseIsNamed(e: Evidence, root: Node, xml: string, certs: seq<string>, find: string -> Finding)
    requires SpansIn(xml, [root]) && Distinct(TreeIds(root)) && Backed(e, root, xml, certs, find) && e.responseCovered
    ensures Contains(root.localName, "Response")
    ensures exists targets :: Validated(targets, certs, find) && RootNamed(root, targets)
  {
    var targets: seq<Target> :| Validated(targets, certs, find) && Shows(e, root, xml, targets);
    MatchedRootIsNamed(root, targets, certs, find);
  }

  /** An Assertion that a reference names: a child of the root, or the root of a document. */
  ghost predicate AssertionNamed(root: Node, n: Node, targets: seq<Target>) {
    && n.localName == "Assertion"
    && ((n in root.children && Named(root, n, targets)) || (n == root && RootNamed(root, targets)))
  }

  /** Direct coverage means an Assertion that is itself named, and that the content is its text. */
  lemma BackedAssertionIsNamed(e: Evidence, root: Node, xml: string, certs: seq<string>, find: string -> Finding)
    requires SpansIn(xml, [root]) && Distinct(TreeIds(root)) && Backed(e, root, xml, certs, find) && e.assertionCovered
    ensures exists n, targets ::
              && Validated(targets, certs, find) && AssertionNamed(root, n, targets)
              && (root.localName == "Assertion" ==> n == root)
              && SpanIn(xml, n) && e.content == Some(Cut(xml, n))
  {
    var targets: seq<Target> :| Validated(targets, certs, find) && Shows(e, root, xml, targets);
    assert root in [root];
    if root.localName == "Assertion" {
      MatchedRootIsNamed(root, targets, certs, find);
      assert AssertionNamed(root, root, targets);
    } else {
      var n := ChildrenNamed(root, "Assertion")[0];
      NamedIff(root.children, "Assertion", n);
      ChildrenAreInTree(root.children, n);
      TargetsUnderAreUsable(certs, find, targets);
      MatchedNodeIsNamed(root, n, targets);
      assert AssertionNamed(root, n, targets);
    }
  }

  // ----- certificate order does not matter

  /** The two lists hold the same certificates, apart from ones that do not load. */
  ghost predicate SameLoadable(a: seq<string>, b: seq<string>, find: string -> Finding) {
    forall c :: !find(c).Unloadable? ==> (c in a <==> c in b)
  }

  /** The same verdict, flags and content, or an error on both sides. */
  predicate SameVerdict(a: Result<Evidence, SamlError>, b: Result<Evidence, SamlError>) {
    if a.Ok? then a == b else b.Err?
  }

  lemma SameTargets(a: seq<string>, b: seq<string>, find: string -> Finding)
    requires SameLoadable(a, b, find)
    ensures AllTargets(a, find).Ok? <==> AllTargets(b, find).Ok?
    ensures AllTargets(a, find).Ok? ==> forall t :: t in AllTargets(a, find).value <==> t in AllTargets(b, find).value
  {
    AllTargetsMembers(a, find);
    AllTargetsMembers(b, find);
    assert forall c, v :: v in Verdicts(find(c)) ==> (c in a <==> c in b);
    assert forall t :: TargetUnder(a, find, t) <==> TargetUnder(b, find, t);
  }

  lemma ConcludeIgnoresOrder(root: Node, xml: string, a: seq<string>, b: seq<string>, find: string -> Finding)
    requires SpansIn(xml, [root]) && SameLoadable(a, b, find)
    ensures SameVerdict(Conclude(root, xml, a, find), Conclude(root, xml, b, find))
  {
    SameTargets(a, b, find);
    assert HaveKey(a, find) == HaveKey(b, find);
    assert FirstVerified(a, find) == FirstVerified(b, find);
    assert AnyFailed(a, find) == AnyFailed(b, find);
    assert TriedInvalid(a, find) == TriedInvalid(b, find);
    if AllTargets(a, find).Ok? {
      var ta, tb := AllTargets(a, find).value, AllTargets(b, find).value;
      CoverageReadsTargetsAsASet(root, xml, ta, tb);
      assert ta == [] <==> tb == [] by {
        assert ta != [] ==> ta[0] in tb;
        assert tb != [] ==> tb[0] in ta;
      }
    }
  }

  /** A reference validated under some certificate names the node. */
  ghost predicate IdMatched(n: Node, certs: seq<string>, find: string -> Finding) {
    NodeSamlId(n).Some? && TargetUnder(certs, find, Id(NodeSamlId(n).value))
  }

  ghost predicate Matched(n: Node, certs: seq<string>, find: string -> Finding) {
    TargetUnder(certs, find, WholeDocument) || IdMatched(n, certs, find)
  }

  /** Validated references do not cover what would be handed on. */
  ghost predicate ContentRefused(root: Node, certs: seq<string>, find: string -> Finding) {
    var assertions := ChildrenNamed(root, "Assertion");
    if root.localName == "Assertion" then !Matched(root, certs, find)
    else if Contains(root.localName, "Response") && assertions != [] then
      |assertions| > 1 || !(IdMatched(assertions[0], certs, find) || Matched(root, certs, find))
    else
      && (|| (Contains(root.localName, "Response") && ChildrenNamed(root, "EncryptedAssertion") != [])
          || root.localName == "EntityDescriptor" || root.localName in CONSUMED_ROOTS)
      && !Matched(root, certs, find)
  }

  /** When the certificates yield an error instead of a verdict. */
  ghost predicate Inconclusive(root: Node, certs: seq<string>, find: string -> Finding) {
    || UnusableUnder(certs, find)
    || !HaveKey(certs, find)
    || (if FirstVerified(certs, find) then ContentRefused(root, certs, find)
        else AnyFailed(certs, find) && !TriedInvalid(certs, find))
  }

  lemma RefusedIffUncovered(root: Node, xml: string, certs: seq<string>, find: string -> Finding)
    requires SpansIn(xml, [root]) && AllTargets(certs, find).Ok?
    ensures VerifiedContent(root, xml, AllTargets(certs, find).value).Err? <==> ContentRefused(root, certs, find)
  {
    hide AllTargets, TargetUnder, Contains;
    AllTargetsMembers(certs, find);
  }

  /** A first signature that is valid and usable gives at least one target. */
  lemma FirstVerifiedGivesTargets(certs: seq<string>, find: string -> Finding)
    requires FirstVerified(certs, find) && AllTargets(certs, find).Ok?
    ensures AllTargets(certs, find).value != []
  {
    AllTargetsMembers(certs, find);
    var c :| c in certs && Verdicts(find(c)) != [] && Verdicts(find(c))[0].ValidSignature?;
    var v := Verdicts(find(c))[0];
    assert v in Verdicts(find(c)) && !Unusable(v);
    var reference := v.references[0];
    assert reference in v.references && ReferenceTarget(reference).Ok?;
    assert NamesTarget(v, ReferenceTarget(reference).value);
    assert TargetUnder(certs, find, ReferenceTarget(reference).value);
  }

  lemma ConcludeErrsIffInconclusive(root: Node, xml: string, certs: seq<string>, find: string -> Finding)
    requires SpansIn(xml, [root])
    ensures Conclude(root, xml, certs, find).Err? <==> Inconclusive(root, certs, find)
    ensures Conclude(root, xml, certs, find).Ok? ==>
              (Conclude(root, xml, certs, find).value.verified <==> FirstVerified(certs, find))
  {
    hide AllTargets, VerifiedContent, ContentRefused, HaveKey, FirstVerified, AnyFailed, TriedInvalid, UnusableUnder;
    AllTargetsMembers(certs, find);
    if AllTargets(certs, find).Ok? {
      RefusedIffUncovered(root, xml, certs, find);
      if FirstVerified(certs, find) {
        FirstVerifiedGivesTargets(certs, find);
      }
    }
  }

  lemma JudgeDependsOnLoadableCertificates(
    checked: Result<seq<Node>, SamlError>, root: Node, xml: string, a: seq<string>, b: seq<string>,
    normalize: string -> string, find: string -> Finding)
    requires SpansIn(xml, [root]) && SameLoadable(a, b, find)
    requires checked.Ok? && InlineAccepted(checked.value, a, normalize) ==> InlineAccepted(checked.value, b, normalize)
    ensures SameVerdict(Judge(checked, root, xml, a, normalize, find),
                        Judge(checked, root, xml, b, normalize, find)) <==>
            || checked.Err?
            || InlineAccepted(checked.value, a, normalize) == InlineAccepted(checked.value, b, normalize)
            || Inconclusive(root, a, find)
  {
    hide Conclude, Inconclusive;
    ConcludeIgnoresOrder(root, xml, a, b, find);
    ConcludeErrsIffInconclusive(root, xml, a, find);
    assert checked == Ok([]) ==> InlineAccepted([], a, normalize);
  }

  /**
   * Lists with the same loadable certificates give the same verdict exactly when the document
   * fails its own checks, when they treat the embedded certificate alike, or when the
   * loadable certificates settle nothing.
   */
  lemma VerdictDependsOnLoadableCertificates(
    root: Node, tokens: seq<Token>, a: seq<string>, b: seq<string>, normalize: string -> string,
    find: string -> Finding)
    requires SpansIn(Source(tokens), [root]) && SameLoadable(a, b, find)
    requires InlineAccepted(SignatureCandidates(root), a, normalize) ==>
        InlineAccepted(SignatureCandidates(root), b, normalize)
    ensures SameVerdict(VerifyRoot(root, tokens, a, normalize, find), VerifyRoot(root, tokens, b, normalize, find)) <==>
            || CheckDocument(root, tokens).Err?
            || InlineAccepted(SignatureCandidates(root), a, normalize)
                 == InlineAccepted(SignatureCandidates(root), b, normalize)
            || Inconclusive(root, a, find)
  {
    hide Inconclusive, CheckDocument, Judge, InlineAccepted, SignatureCandidates, SameVerdict;
    var checked := CheckDocument(root, tokens);
    CheckedAreCandidates(root, tokens);
    JudgeDependsOnLoadableCertificates(checked, root, Source(tokens), a, b, normalize, find);
  }

  /**
   * Otherwise the verdicts differ like this: the list without the embedded certificate errs
   * for the mismatch, and the other gives whatever the loadable certificates say.
   */
  lemma AcceptingTheEmbeddedCertificateLiftsTheMismatch(
    root: Node, tokens: seq<Token>, a: seq<string>, b: seq<string>, normalize: string -> string,
    find: string -> Finding)
    requires SpansIn(Source(tokens), [root]) && SameLoadable(a, b, find) && CheckDocument(root, tokens).Ok?
    requires !InlineAccepted(SignatureCandidates(root), a, normalize)
    requires InlineAccepted(SignatureCandidates(root), b, normalize)
    ensures VerifyRoot(root, tokens, a, normalize, find) == Err(CertificateMismatch)
    ensures SameVerdict(Conclude(root, Source(tokens), a, find), VerifyRoot(root, tokens, b, normalize, find))
    ensures !Inconclusive(root, a, find) && FirstVerified(a, find) ==>
              && VerifyRoot(root, tokens, b, normalize, find).Ok?
              && VerifyRoot(root, tokens, b, normalize, find).value.verified
  {
    hide Inconclusive, CheckDocument, Conclude;
    CheckedAreCandidates(root, tokens);
    ConcludeIgnoresOrder(root, Source(tokens), a, b, find);
    ConcludeErrsIffInconclusive(root, Source(tokens), a, find);
    assert FirstCertificate([]) == None;
  }

  lemma CheckedAreCandidates(root: Node, tokens: seq<Token>)
    ensures CheckDocument(root, tokens).Ok? ==> CheckDocument(root, tokens).value == SignatureCandidates(root)
    ensures CheckDocument(root, tokens).Ok? ==> Distinct(TreeIds(root))
  {
  }

  lemma PermutationsShareElements(a: seq<string>, b: seq<string>)
    requires multiset(a) == multiset(b)
    ensures (a == [] <==> b == []) && forall c :: c in a <==> c in b
  {
    assert forall c :: c in a <==> c in multiset(a);
    assert forall c :: c in b <==> c in multiset(b);
    assert a != [] ==> a[0] in b;
    assert b != [] ==> b[0] in a;
  }

  /** Permuting the metadata certificates changes nothing. */
  lemma PermutedCertificatesAgree(root: Node, tokens: seq<Token>, a: seq<string>, b: seq<string>,
                                  normalize: string -> string, find: string -> Finding)
    requires SpansIn(Source(tokens), [root]) && multiset(a) == multiset(b)
    ensures SameVerdict(VerifyRoot(root, tokens, a, normalize, find), VerifyRoot(root, tokens, b, normalize, find))
  {
    PermutationsShareElements(a, b);
    VerdictDependsOnLoadableCertificates(root, tokens, a, b, normalize, find);
  }

  lemma NoKeyIsAnError(root: Node, xml: string, certs: seq<string>, find: string -> Finding)
    requires SpansIn(xml, [root]) && !HaveKey(certs, find)
    ensures Conclude(root, xml, certs, find).Err?
  {
  }

  /** Neither does adding entries that do not load and are not the embedded certificate. */
  lemma UnloadableEntriesAreIgnored(root: Node, tokens: seq<Token>, a: seq<string>, b: seq<string>,
                                    normalize: string -> string, find: string -> Finding)
    requires SpansIn(Source(tokens), [root])
    requires forall c :: c in a ==> c in b
    requires forall c :: c in b && c !in a ==>
               && find(c).Unloadable?
               && var inline := FirstCertificate(SignatureCandidates(root));
                  inline.Some? ==> normalize(c) != normalize(inline.value)
    ensures SameVerdict(VerifyRoot(root, tokens, a, normalize, find), VerifyRoot(root, tokens, b, normalize, find))
  {
    if a == [] {
      NoKeyIsAnError(root, Source(tokens), a, find);
      NoKeyIsAnError(root, Source(tokens), b, find);
    } else {
      assert a[0] in b;
      VerdictDependsOnLoadableCertificates(root, tokens, a, b, normalize, find);
    }
  }
}
