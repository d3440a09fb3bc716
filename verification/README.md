# Verified model of a SAML library

This project models the hard parts of a SAML 2.0 service-provider and identity-provider
library and proves properties of them with Dafny. `dafny verify dfyconfig.toml` checks
everything.

The XML reader is assumed to spell out what it reads: the slices of its events, put
together, are the source, end tags match the innermost open element, and anything it cannot
read is a malformed event. The signature backend, the decryptor and the clock are
parameters.

Text is a sequence of bytes, written as `string` with one character per byte. Instants are
integer nanoseconds within the range the `time` crate can hold; drifts are 64-bit
milliseconds; `SystemTime` has a platform range that is a parameter. Errors are the cases
of the library's error type that the modelled code tells apart, without their texts.

The parts, and what is proved of each:

- **Replay and one-time completion** (`Instants`, `ReplayKeys`, `Validation`, `SsoSession`,
  `AcceptanceWindow`, `ResponseChecks`, `Pending`, `WebSso`, `SingleLogout`,
  `ReplayProtocol`, `Correlation`). The browser flows are methods over a mutable replay
  cache, proved equal to outcome functions, and these succeed exactly when the message
  answers the pending request, spelled out in plain comparisons of identifiers, endpoints
  and instants, and the keys can be stored. A state machine interleaves them with the clock
  moving and with the cache forgetting entries whose stored expiry has come; any call's
  cache accesses may fail. Over every run an assertion is accepted at most once and a
  pending request completes at most once. For IdP-initiated responses the condition under
  which a second acceptance is possible is exact, counting the windows of the response and
  of both sides' metadata; a caller that widens its skew between calls meets it, and a
  concrete family of such runs is given.
- **XML** (`XmlEvents`, `XmlDom`, `XmlDomProofs`, `XmlSpans`, `XmlSplice`, `XmlEncryption`).
  The reader is an event stream with source slices. The DOM builder's loop builds exactly
  the tree whose flattening is the stream, and succeeds exactly when the tree's own measures
  are within the limits. Spans nest and cut out exactly each element's text, so splicing at
  a span is surgery on the tree, and decryption after encryption restores the document, both
  on trees and through the parser on text.
- **Signatures** (`Preflight`, `SignaturePlaces`, `Coverage`, `DetailedVerification`,
  `DocumentChecks`, `VerdictMeaning`, `Markup`, `SignedDocument`, `EmbeddedCertificate`,
  `InboundFlow`, `InboundPaths`). The streaming preflight accepts exactly the documents in
  which the chain of tags from the root to every element is allowed, after which every XML
  signature is a candidate. When a document verifies is spelled out on its tree and on the
  references that validated, as is the one node whose source is handed on; that node is one
  a validated reference names alone, or lies in a covered root. The verdict depends only on
  the set of loadable certificates. The inbound flow succeeds exactly on its three paths,
  and on every one the Direct and the Response requirements mean what they say.
- **Detached signatures** (`Redirect`, `Detached`, `SignedFields`). Over a redirect, sender
  and receiver agree on the signed octet string exactly when the base URL's own query leaves
  the binding's field names alone; over a SimpleSign post, exactly when the form has no
  further field with such a name and the message reads back.
- **Dates** (`DateTimes`, `Calendar`, `IssuanceWindow`). The 16-bit year folds decide the
  Gregorian rule for years of any length and sign; the parser accepts exactly the SAML UTC
  lexical form; moments and nanosecond counts correspond one to one; the printers are read
  back exactly from year 1 on; an issuance window spans its lifetime.
- **Text and bytes** (`Templates`, `OptionalRanges`, `Extraction`, `FieldValues`,
  `FieldMeaning`, `Decoding`). Placeholder substitution is simultaneous and escaping is
  undone by entity decoding; exactly which absent placeholders are removed alone; path
  selection, aggregation and the one-entry parse cache; the bounded base64 and inflate
  decoders.

Places where the code does something other than one might expect from its documentation:

- A pending state with an expiration and no issue instant can be stored as a snapshot but
  not restored; `Pending.AuthnSnapshotRoundTrip` says exactly when.
- Printing a year from -999 to 0 gives text that the library's own parser rejects. From year
  -1000 downwards the text reads as the following year, where that year has the day, and is
  rejected where it does not (`IssuanceWindow.PrintedBeforeYearOneDenotesTheNextYear`).
- A base URL whose query carries a `RelayState`, however spelled, breaks a signed redirect,
  even when the sender adds none (`Redirect.CarriedRelayStateBreaksAgreement`, and an
  ordinary endpoint in `Redirect.AnEndpointThatCarriesARelayState`).
- Older senders' SimpleSign messages, whose signed octet string has an empty `RelayState`
  that the form lacks, pass the consumed-field check only in a request whose octet string the
  caller supplies. Form input is rebuilt without the empty field
  (`Detached.UnpostedEmptyRelayStateIsRebuiltWithoutIt`).
- An unloadable certificate entry that equals the embedded certificate changes the verdict
  from a certificate mismatch to whatever the loadable ones say
  (`DetailedVerification.AcceptingTheEmbeddedCertificateLiftsTheMismatch`); assertions that
  are thereby verified, spelled out with a full enveloped signature, are those of
  `EmbeddedCertificate.UnloadableEntryFlipsTheVerdict`.
- A vertical tab counts towards the base64 length check, although it is dropped before
  decoding when another white-space character is present; so input whose bytes fit the limit
  can be refused (`Decoding.CountedVerticalTabRefusesFittingInput`).
- Removing an absent optional element can take two overlapping placeholders with it. An
  attribute never does; an element can exactly when the placeholder, moved on, agrees with
  itself and what it then lacks begins the closing tag of a possible element
  (`OptionalRanges.ElementsHoldOneIffNeverRunningOn`, with an instance in
  `OptionalRanges.BracedKeyRemovesTwo`). Keys without `{` are safe
  (`OptionalRanges.OpenBracesAreNeeded`).

## Model

| member | source | states |
|---|---|---|
| ReplayKeys.CacheKeyInjective | src/model/validation.rs:91-121 | Two replay keys share a cache slot only when they are the same key, whatever characters the identifiers contain, so key families never collide |
| Validation.ReplayCache.CheckAndStore | src/model/validation.rs:183-212 | The documented cache contract: a held key is rejected and nothing changes, another is held until its expiry; where storage fails its error is returned, whether or not the key was stored |
| Validation.SamlValidationContext.CheckAndStoreMessageReplay | src/model/validation.rs:262-274 | The mutating check leaves the cache and the result that the outcome function gives, under both replay policies |
| Validation.SamlValidationContext.CheckAndStoreMessageReplayUntil | src/model/validation.rs:276-310 | Same for a key with a derived deadline, falling back to the configured retention |
| SsoSession.EarliestAuthnSessionExpiration | src/model/session.rs:24-37 | The loop yields the earliest instant, none for no value, and an error as soon as a value does not parse |
| SsoSession.MinimumIsLeast | src/model/session.rs:24-37 | The minimum used by the deadlines is a member of the list and below all others |
| SsoSession.ValidateSubjectConfirmation | src/flow.rs:887-902 | The loop returns at the first valid bearer confirmation, and otherwise the last reason, with unreadable elements as errors |
| SsoSession.BearerSubjectConfirmationExpiresAt | src/model/sso.rs:377-404 | The loop over bearer confirmations yields the latest deadline or the first error |
| SsoSession.LatestBearerIsMaximum | src/model/sso.rs:377-404 | That deadline is the maximum over all bearer confirmations that carry one |
| SsoSession.ComputeReplayExpiresAt | src/model/sso.rs:336-375 | The replay expiry is the bounded minimum plus skew, and an error when it has passed |
| AcceptanceWindow.AcceptanceIsAWindow | src/flow.rs:922-1002 | The whole clock-dependent validation of a response is one half-open interval of instants, NotBefore aside |
| AcceptanceWindow.ConfirmationVerdictIsAWindow | src/flow.rs:831-902 | Some reachable bearer confirmation is valid exactly until the latest of their ends |
| AcceptanceWindow.StoredExpiryIsTheMinimum | src/model/sso.rs:336-404 | The stored expiry is the least of the Conditions bound, the earliest session bound and the latest bearer bound, plus skew |
| AcceptanceWindow.AcceptanceEndsBeforeRetention | src/model/sso.rs:300-404 | Retention covers acceptance: the flow stops accepting no later than the stored expiry |
| ResponseChecks.ValidContextIsAcceptable | src/flow.rs:831-1002 | A response passes exactly when it answers the request, its Destination is the recipient (absent only from an unauthenticated response), a bearer confirmation with one data element names recipient and request in time with all before it readable, the audience is accepted, every session bound lies ahead and at most one Conditions element holds |
| ResponseChecks.RetentionIsKeptUntil | src/model/sso.rs:336-404 | The stored expiry exists, and is this instant, exactly when everything retention reads can be read and the instant is the drift after the least of the Conditions bounds, the session bounds and the latest bearer deadline |
| Pending.WithLocalLifetime | src/browser/pending.rs:209-241 | Adding a local lifetime sets issue instant and the earlier of the two deadlines, with the source's checks and conversions |
| Pending.LifetimesLeaveTheEarliestDeadline | src/browser/pending.rs:209-241 | However many lifetimes are added, the request ends at the earliest deadline ever given |
| Pending.AuthnSnapshotRoundTrip | src/browser/pending.rs:404-454 | A restored AuthnRequest is the stored one, field for field, exactly unless it has an expiration without an issue instant |
| Pending.LogoutSnapshotRoundTrip | src/browser/pending.rs:531-570 | The same for LogoutRequests |
| Pending.LocalLifetimeIsRestorable | src/browser/pending.rs:209-261 | A pending AuthnRequest that was given a local lifetime comes back from a store and restore unchanged |
| Pending.LogoutLifetimeIsRestorable | src/browser/pending.rs:209-261 | So does a pending LogoutRequest |
| Pending.ReadBindingInvertsShortName | src/browser/pending.rs:583-602 | Reading back a stored binding keyword gives the binding when its role allows it |
| WebSso.CheckAndStoreReplay | src/model/sso.rs:300-329 | The loop over the response and assertion keys leaves exactly the entries and result of the outcome function |
| WebSso.FinishSso | src/api/sp.rs:146-180 | SP-initiated completion, its steps in order: the cache afterwards and the result are those of the outcome function, whose success `Correlation.FinishedLoginAnswersItsRequest` spells out |
| WebSso.AcceptUnsolicitedSso | src/api/sp.rs:191-212 | IdP-initiated acceptance likewise, spelled out by `Correlation.AcceptedLoginAnswersNothing` |
| SingleLogout.ReceiveSlo | src/api/slo.rs:454-485 | Receiving a LogoutRequest likewise, spelled out by `Correlation.ReceivedLogoutIsReceivable` |
| SingleLogout.FinishSlo | src/api/slo.rs:512-553 | Completing a logout likewise, spelled out by `Correlation.FinishedLogoutAnswersItsRequest` |
| Correlation.FinishedLoginAnswersItsRequest | src/api/sp.rs:146-180 | SP-initiated login succeeds if and only if the request is outstanding, peer, binding and relay state are the pending ones, both metadata are current, the response meets `ValidContextIsAcceptable` for the pending identifier and endpoint, both identifiers are not blank, and the three keys can be stored; it then leaves exactly these keys until their deadlines, and a response that does not answer leaves the cache alone |
| Correlation.AcceptedResponseAnswers | src/flow.rs:922-1002 | Over every step that accepts an SP-initiated response: its InResponseTo is the pending identifier, its Destination if present the pending endpoint, and a live bearer confirmation names both |
| Correlation.FailedLoginStaysOpen | src/api/sp.rs:173-178 | A login that fails, at whatever step, leaves its pending request open unless the storage failed for that very key |
| Correlation.AcceptedLoginAnswersNothing | src/sp.rs:151-178 | IdP-initiated login succeeds if and only if the response came over a binding for responses, is acceptable, answers no request anywhere, and its two keys can be stored |
| Correlation.FinishedLogoutAnswersItsRequest | src/api/slo.rs:512-553 | A logout completes if and only if the response's InResponseTo is the outstanding logout's identifier, its Destination is absent or the endpoint declared for the pending binding, peer, binding and relay state are the pending ones, both metadata are current, and both keys can be stored; the entries it leaves are exactly those |
| Correlation.CompletedLogoutAnswers | src/api/slo.rs:512-553 | Over every step that completes a logout: InResponseTo, Destination, binding, relay state and peer are the pending ones |
| Correlation.FailedLogoutStaysOpen | src/api/slo.rs:543-548 | So does a logout |
| Correlation.ReceivedLogoutIsReceivable | src/api/slo.rs:454-485 | A LogoutRequest is received if and only if it is in time, addressed to the endpoint of its binding if to any, not blank and new; its key is kept until its own deadline with the drift, or for the retention |
| ReplayProtocol.CallsOnlyAddEntries | src/model/validation.rs:183-292 | No API call drops or changes a cache entry |
| ReplayProtocol.RunKeepsHeld | src/model/validation.rs:183-212 | Over every run a stored key stays held until its expiry |
| ReplayProtocol.AssertionAcceptedAtMostOnce | src/model/sso.rs:300-404 | Over every run of both SSO flows on one cache, with skews that never grow and identifiers that fix content, each assertion is accepted at most once |
| ReplayProtocol.SecondAcceptanceNeedsALaterBound | src/model/sso.rs:300-375 | Without those assumptions, a second acceptance needs a clock past the first stored expiry and a later bound of its own |
| ReplayProtocol.MetadataVerdictIsAWindow | src/metadata/mod.rs:203-211 | Metadata is valid exactly before its `validUntil`, at every instant the library can represent |
| ReplayProtocol.AcceptedAgainIffWindowOutlivesRetention | src/flow.rs:922-1002 | An accepted IdP-initiated response can be accepted again in some run if and only if the second call can read it and store an expiry, and its window - of the response and of both sides' metadata - reaches beyond the first stored expiry to an instant at which NotBefore is met |
| ReplayProtocol.GrowingSkewReadmits | src/model/sso.rs:336-375 | A bearer assertion accepted strictly and then under a minute of skew is accepted twice in some run |
| ReplayProtocol.PendingAuthnRequestCompletesAtMostOnce | src/api/sp.rs:153-179 | Over every run a pending AuthnRequest completes at most once |
| ReplayProtocol.SecondSsoCompletionNeedsALaterDeadline | src/browser/pending.rs:302-334 | Two completions with one identifier need a later second deadline and a clock past the first |
| ReplayProtocol.PendingLogoutRequestCompletesAtMostOnce | src/api/slo.rs:521-548 | Over every run a pending LogoutRequest completes at most once |
| ReplayProtocol.SecondSloCompletionNeedsALaterDeadline | src/api/slo.rs:521-548 | The general form for logout |
| ReplayProtocol.LogoutRequestReceivedAgainOnlyAfterRetention | src/api/slo.rs:454-485 | A LogoutRequest is received again only after the deadline or retention of the first time |
| ReplayProtocol.BoundedLogoutRequestReceivedAtMostOnce | src/validator.rs:35-61 | One with a NotOnOrAfter is received at most once, under a skew that does not grow |
| XmlEvents.BalancedIffTree | src/xml/dom.rs:268-362 | A stream is the flattening of a tree exactly when its tags balance |
| XmlDom.ReadAttrs | src/xml/dom.rs:156-186 | The attribute loop keeps what the recursive definition keeps, and fails at the first attribute beyond a limit |
| XmlDom.ParseRootsInner | src/xml/dom.rs:268-362 | The event loop over stack, roots and node count computes the step-by-step parse, every error case included |
| XmlDomProofs.ParseBuildsTheTree | src/xml/dom.rs:123-362 | A tree's stream parses exactly when node, depth, attribute, text and byte measures are within the limits, and then to the tree's nodes with their spans |
| XmlDomProofs.AcceptedStreamIsATree | src/xml/dom.rs:268-362 | Whatever the loop accepts is the stream of some tree within the limits |
| XmlSpans.SpansNest | src/xml/dom.rs:188-362 | Every node's span strictly contains its children's; siblings are disjoint and in source order |
| XmlSpans.DocumentSpansCutElements | src/xml/dom.rs:188-362 | Every span, at every depth, cuts out exactly its element's source text |
| XmlSpans.ParsedSpansLieInSource | src/xml/dom.rs:246-256 | Spans of a parsed document lie in its source |
| XmlSplice.ResolvePath | src/crypto/sign.rs:54-64 | The path loop finds the chain of first children with the given names, starting at the root's own |
| XmlSplice.InsertionIsSurgery | src/crypto/sign.rs:54-80 | Inserting at a resolved node's end or start gives the source of the tree with one new sibling there |
| XmlSplice.DefaultSignatureIsSurgery | src/crypto/sign.rs:89-163 | Default placement inserts the signature as the Issuer's next sibling, and cutting it gives back the source |
| XmlSplice.PlacementFollowsTheIssuer | src/crypto/sign.rs:27-32 | That place is the end of the first Issuer of the signed element, the root or its first Assertion, and there is none exactly without one |
| XmlEncryption.DecryptAfterEncryptRestores | src/crypto/enc.rs:66-155 | For a root without another EncryptedAssertion and a cipher that inverts up to what stripping removes, decrypting after encrypting restores the document byte for byte |
| XmlEncryption.EncryptsTheFirstAssertion | src/crypto/enc.rs:66-104 | Encryption succeeds exactly when there is an Assertion child and the cipher takes its text, and replaces the first one alone |
| XmlEncryption.DeclarationIsStripped | src/crypto/enc.rs:158-167 | A leading XML declaration and the white space around it are dropped from decrypted text |
| InboundFlow.EncryptedDocumentDecrypts | src/crypto/enc.rs:66-167 | Through the parser on both sides: the sealed text, read back and decrypted, gives the document and its assertion, whether or not the decryptor adds a declaration |
| Preflight.SignatureAttribute | src/crypto/verify.rs:439-467 | The loop yields the last unqualified attribute of a name and rejects qualified aliases |
| SignaturePlaces.TargetIsDesignated | src/crypto/verify.rs:100-130 | A reference URI names the whole document exactly when it is empty or the whole-document pointer, and an identifier exactly when it is that non-empty identifier as a fragment or in an id pointer; any other is an error |
| SignaturePlaces.SignatureAttributeIsTheLast | src/crypto/verify.rs:439-467 | An attribute of a signature element is read exactly when no attribute is malformed and none has the name behind a prefix or an undecodable value; the last one counts |
| Preflight.PreflightBackendSignatures | src/crypto/verify.rs:509-555 | The streaming loop pushes and pops frames as the step function says, errors included |
| SignaturePlaces.PreflightIsTreeSafety | src/crypto/verify.rs:366-555 | The streaming check accepts a document exactly when nothing in it is malformed and every chain of tags from the root is allowed: a Signature only directly below a message root or below an Assertion directly in a Response, no Object below a Signature, every Signature/SignedInfo/Reference with a readable local URI, every Transforms/Transform below one with an algorithm that keeps the content |
| Preflight.AcceptedSignaturesAreCandidates | src/crypto/verify.rs:42-48 | After it accepts, every XML signature anywhere in the tree is one of the candidates |
| Coverage.DuplicateSamlId | src/crypto/verify.rs:76-88 | The walk passes exactly when all non-empty identifiers of the tree are new and pairwise distinct, and then has recorded them all |
| Coverage.DistinctIdsNameOnePlace | src/crypto/verify.rs:76-88 | With distinct identifiers no two places of the tree carry the same one |
| Coverage.MatchedNodeIsNamed | src/crypto/verify.rs:162-178 | A node whose identifier a target matches stands at the only place that carries it |
| Coverage.VerifiedContentIsCovered | src/crypto/verify.rs:248-313 | Returned content is the source of the only node a reference names, or of a node inside a covered root or document |
| Coverage.CoverageReadsTargetsAsASet | src/crypto/verify.rs:162-313 | Order and repetition of targets do not matter to content or coverage flags |
| DetailedVerification.VerifiedTargets | src/crypto/verify.rs:132-160 | The reference loop yields all targets or the first error in the source's order of checks |
| DetailedVerification.TryCertificates | src/crypto/verify.rs:777-832 | After the certificate loop each flag says what some certificate yielded, and the targets are those of every valid signature |
| DetailedVerification.AllTargetsMembers | src/crypto/verify.rs:777-832 | A target is gathered exactly when a reference validated under some certificate names it; the loop fails exactly on an unusable signature |
| DetailedVerification.VerifySignaturesDetailed | src/crypto/verify.rs:747-854 | The whole procedure, from parsing to verdict, equals the verification function |
| DetailedVerification.VerifiedEvidenceIsBacked | src/crypto/verify.rs:747-854 | A verified verdict rests on validated references, and flags and content are what those references show |
| DetailedVerification.BackedContentIsCovered | src/crypto/verify.rs:262-302 | Content of a verified verdict is named by, or lies in what is named by, a reference that validated under a metadata certificate |
| DetailedVerification.BackedAssertionIsNamed | src/crypto/verify.rs:304-313 | The direct-coverage flag means that an Assertion is itself named and that the content is its text |
| DetailedVerification.BackedResponseIsNamed | src/crypto/verify.rs:834-840 | The response-coverage flag means that the Response element is named |
| DetailedVerification.ConcludeErrsIffInconclusive | src/crypto/verify.rs:777-854 | The certificates yield an error exactly when a signature is unusable, none loads, validated references do not cover the content, or a provider failed and none was judged invalid |
| DetailedVerification.VerdictDependsOnLoadableCertificates | src/crypto/verify.rs:763-854 | Two lists with the same loadable certificates agree exactly when the document fails its own checks, when they treat the embedded certificate alike, or when the loadable certificates are inconclusive |
| DetailedVerification.AcceptingTheEmbeddedCertificateLiftsTheMismatch | src/crypto/verify.rs:763-854 | Otherwise the list without the embedded certificate errs for the mismatch and the other gives what the loadable certificates say, which is a verified verdict when they verify and cover |
| EmbeddedCertificate.UnloadableEntryFlipsTheVerdict | src/crypto/verify.rs:747-854 | For every assertion with an enveloped signature over it and an embedded certificate, and every backend that validates that reference under a loadable certificate: verification errs for the mismatch under that certificate alone, and is verified when the unloadable embedded one is added |
| SignedDocument.ShortTextsMeetTheDefaultLimits | src/xml/dom.rs:14-75 | Such documents are within the default limits whenever their texts have at most 13 000 bytes |
| DetailedVerification.PermutedCertificatesAgree | src/crypto/verify.rs:777-854 | Permuting the certificates changes neither verdict, flags, content nor whether it errs |
| DetailedVerification.UnloadableEntriesAreIgnored | src/crypto/verify.rs:777-854 | Adding unloadable entries other than the embedded certificate changes nothing either |
| DocumentChecks.WrappingIsWrapped | src/crypto/verify.rs:50-70 | Wrapping is detected exactly when a path of children leads from the root through Assertion, Subject, SubjectConfirmation and SubjectConfirmationData to an Assertion or Signature below |
| DocumentChecks.CheckedIsWellSigned | src/crypto/verify.rs:747-771 | A document passes its own checks exactly when it is not a wrapped response, no two identifier attributes anywhere share a value, the preflight accepts it, and every reference of a candidate has a local URI and transforms that keep the content |
| DocumentChecks.InlineIsTrusted | src/crypto/verify.rs:568-596 | The embedded certificate is the first in document order below the candidates, and must equal one of the list after normalization unless the list is empty |
| VerdictMeaning.VerifiesExactlyWhen | src/crypto/verify.rs:747-854 | A document verifies if and only if it passes its own checks, has a candidate, its embedded certificate is trusted, some certificate validates the first signature, no valid signature is without references or has one that points nowhere, and what is handed on is signed itself or with the root; a Response with several Assertions never does |
| VerdictMeaning.VerdictHandsOn | src/crypto/verify.rs:248-313 | The content of a verified verdict is the source of an Assertion root, of a Response's only Assertion, or of the root itself for a Response with encrypted assertions alone and the other consumed roots, and there is none otherwise; the flags say whether that Assertion, and whether the Response, is signed |
| InboundFlow.DirectAssertionIsValidated | src/flow.rs:551-674 | Under the Direct requirement the returned assertion is itself named by a reference validated under a metadata certificate, on every path |
| InboundFlow.RequiredResponseIsValidated | src/flow.rs:530-674 | A required Response signature, and a response reported as authenticated, mean that the Response root is covered |
| InboundFlow.ReturnedAssertionIsCovered | src/flow.rs:551-674 | Without the Direct requirement the returned assertion is still covered content, or was decrypted from covered content |
| InboundFlow.ReturnedRequestIsCovered | src/flow.rs:645-672 | A request is returned as the covered text alone |
| InboundPaths.DecryptDecrypts | src/crypto/enc.rs:113-155 | Decryption succeeds exactly when the key loads and is permitted and the first EncryptedData of the first EncryptedAssertion decrypts within the limits; the stripped plaintext is the assertion and stands in place of the EncryptedAssertion |
| InboundPaths.PreparedExactlyWhen | src/flow.rs:551-674 | A message is prepared, with this result, if and only if the Response requirement is met, a key is permitted, and one path holds: signed and taken as it is; signed, then encrypted, and decrypted from what the verdict hands on; or encrypted, then signed, and verified after decryption; with the Direct requirement and the profile verdict on each |
| InboundPaths.UnverifiedIsReported | src/flow.rs:575-581 | A message that must verify and does not is reported as wrongly signed when it has a candidate signature, and as unsigned otherwise |
| InboundPaths.ReturnedAssertionComesFrom | src/flow.rs:575-674 | A returned assertion is the source of the node the verdict hands on when there is no key, and otherwise the plaintext of that node's text, of the message, or what the verdict on the decrypted document hands on |
| Redirect.DecodeUndoesEncode | src/binding/redirect.rs:9-11 | Form decoding undoes URL encoding, byte for byte |
| Redirect.BuildRedirectOctet | src/binding/redirect.rs:57-71 | The appended buffer is the octet string of section 3.4.4.1 of SAML Bindings 2.0 |
| Redirect.OctetParams | src/browser/input.rs:277-291 | Reading the octet string as a query gives back the encoded fields, in order |
| Redirect.ReceivedQuery | src/binding/redirect.rs:13-80 | The receiver's query is the base URL's own, then the sender's, whatever question marks the base ends in |
| Redirect.ReceiverRebuildsTheSignedOctet | src/browser/input.rs:233-356 | For all messages, relay states, algorithms, signatures and fragment-free base URLs: the receiver rebuilds the signed octet string and the consumed-field check accepts it, if and only if the base query leaves the field names alone |
| Redirect.CleanFieldsMatch | src/flow.rs:326-363 | Under that condition the check of consumed fields against the octet string passes |
| Redirect.SignedOctetMatchesItsFields | src/flow.rs:326-363 | The consumed-field check lets a sender's octet string pass for exactly the requests with the signed message, relay state and algorithm |
| Redirect.CarriedRelayStateBreaksAgreement | src/browser/input.rs:329-356 | A relay state in the base URL, at any place and however spelled, breaks agreement for every message of either kind |
| Redirect.AnEndpointThatCarriesARelayState | src/browser/input.rs:329-356 | An ordinary https endpoint is such a base |
| Detached.ReceiverRebuildsThePostedOctet | src/browser/input.rs:256-425 | For all messages, relay states, algorithms, signatures and bodies that decode to the sender's fields among others: the receiver rebuilds the signed octet string and consumes what was sent, if and only if no other field has a name of the binding and the base64 reads as the message within both limits |
| Detached.ReceivedPostPassesItsCheck | src/flow.rs:370-400 | Every form that is read passes the consumed-field check, so only a missing or ambiguous signature keeps it from being verified |
| Detached.SignedPostMatchesItsFields | src/flow.rs:370-400 | With two of message, relay state and algorithm as signed, the check passes exactly when the third is too, but for the empty relay state that older senders sign |
| Detached.UnpostedEmptyRelayStateIsRebuiltWithoutIt | src/flow.rs:377-400 | The octet string of older senders passes the check, but is not the one rebuilt from their form |
| Detached.VerifyDetached | src/flow.rs:700-747 | Over either binding any one certificate suffices, whatever the others do; otherwise a provider failure is reported only when nothing was judged invalid |
| SignedFields.AcceptedExactlyWhenSigned | src/flow.rs:700-747 | Over either binding a detached signature is accepted, with this algorithm, if and only if some certificate validates it over an octet string that spells the fields the flow consumes: each of signature and algorithm there once, message and relay state as signed |
| DateTimes.YearModuloIsModulo | src/xml/date_time.rs:7-12 | On digits of any length the 16-bit fold is the value modulo the modulus, without overflow; other text has none |
| DateTimes.SignedIsModulo | src/xml/date_time.rs:14-23 | The signed fold is the astronomical year (N, or 1 - N) modulo the modulus, without underflow |
| DateTimes.LeapYearIsGregorian | src/xml/date_time.rs:25-29 | The leap-year test is the Gregorian rule on the astronomical year, for every length and sign |
| DateTimes.ParserAcceptsTheLexicalSet | src/xml/date_time.rs:58-117 | The parser accepts exactly the SAML UTC lexical form of section 3.2.7 of XML Schema Part 2, second 60 and 24:00:00 included, and returns the trimmed text |
| DateTimes.ParsingIsIdempotent | src/xml/date_time.rs:47-56 | What the parsers return they accept again unchanged |
| DateTimes.TextIsUnambiguous | src/xml/date_time.rs:58-117 | No two date-times share a text |
| IssuanceWindow.PrintedReadsBackIffYearIsPositive | src/entity.rs:341-370 | Over every moment the time crate holds, printed text is read back as that moment if and only if the year is 1 or later |
| IssuanceWindow.PrintedIsAcceptedAsGenerated | src/entity.rs:341-370 | From year 1 on, printed text is accepted as generated text, unchanged |
| IssuanceWindow.WindowSpansTheLifetime | src/entity.rs:325-339 | A window is captured exactly when its end is in the calendar; its two printed instants then differ by exactly the lifetime, subseconds kept or not, and each text denotes its instant if and only if the year is 1 or later |
| Calendar.YearsFollowEachOther | src/entity.rs:325-370 | The day count behind those instants agrees with the calendar at every year's end |
| Calendar.MomentAt | src/entity.rs:325-333 | Every nanosecond count between the first and the last moment of the calendar is some moment's |
| Calendar.MomentsAreDistinct | src/entity.rs:325-333 | No two moments share a count, so checked addition has one result |
| Calendar.InstantsSpanTheCalendar | src/validator.rs:14-28 | The range of instants used by all time checks is exactly the calendar of the `time` crate, counted from the Unix epoch |
| IssuanceWindow.PrintedBeforeYearOneDenotesTheNextYear | src/entity.rs:341-370 | Before year 1 printed text is accepted exactly from year -1000 downwards where the following year has the day, and then denotes that year |
| Templates.EscapingIsACharacterMap | src/binding/escape.rs:4-11 | The five sequential replacements are one per-character map |
| Templates.UnescapeUndoesEscape | src/binding/escape.rs:4-11 | Decoding the predefined entities gives the text back |
| Templates.ReplaceAllOccurrences | src/template.rs:105-115 | The find loop is left-to-right replacement of every non-overlapping occurrence |
| Templates.ReplaceTagsByValue | src/template.rs:71-77 | The loop over tags replaces key after key |
| Templates.SequentialReplacementIsSimultaneous | src/template.rs:71-115 | On templates of brace-free text and placeholders, key by key equals filling all placeholders at once with escaped values |
| Templates.TagOrderIsIrrelevant | src/template.rs:71-115 | With distinct keys the order of the tags does not matter |
| OptionalRanges.OptionalAttributeRange | src/template.rs:149-192 | The backward scans, in bounds on every input, compute the attribute range |
| OptionalRanges.AttributeRangeFindsTheAttribute | src/template.rs:149-196 | A range is found exactly when the placeholder is the whole value of an attribute, and is that attribute with the white space before it |
| OptionalRanges.OptionalElementRange | src/template.rs:198-236 | The element scan, in bounds on every input, computes the element range |
| OptionalRanges.ElementRangeFindsTheElement | src/template.rs:198-236 | A range is found exactly when the placeholder is the whole body of an element, and is that element |
| OptionalRanges.RemoveOptionalRanges | src/template.rs:125-147 | Terminates on every input, takes out disjoint increasing ranges and keeps every other byte in order |
| OptionalRanges.RemovedRangesHoldOne | src/template.rs:125-147 | Every removed range surrounds a placeholder, the first in it; a removed attribute holds no other, and a removed element holds none when the placeholder cannot run into a closing tag |
| OptionalRanges.ElementsHoldOneIffNeverRunningOn | src/template.rs:125-147 | For each key: in every text every removed element holds exactly one placeholder, if and only if the placeholder cannot overlap itself by running into a closing tag |
| OptionalRanges.OpenBracesAreNeeded | src/template.rs:125-147 | Placeholders of keys without an opening brace cannot |
| OptionalRanges.BracedKeyRemovesTwo | src/template.rs:125-147 | A key whose placeholder can, and the element that is removed with two of them |
| Extraction.SelectPath | src/xml/extract.rs:106-122 | The level-by-level loop is the depth-first search |
| Extraction.SelectionIsExact | src/xml/extract.rs:98-135 | Exactly the nodes whose chain of names from the root matches the path are selected |
| Extraction.SelectionIsInDocumentOrder | src/xml/extract.rs:106-122 | They come once each and in document order |
| FieldValues.UniqueStrings | src/util.rs:141-154 | The loop keeps each string where it is first seen |
| FieldValues.UniqKeepsEachOnce | src/util.rs:141-154 | The result has the same strings, each once |
| FieldValues.ZipObject | src/util.rs:212-236 | The loop that merges duplicate keys builds the entries of the recursive definition |
| FieldValues.AggregationConservesLeaves | src/util.rs:212-236 | Every key holds exactly the strings given for it, in order, and keys stand as first seen |
| FieldValues.Aggregate | src/xml/extract.rs:146-171 | The node loop collects keys and values and zips them |
| FieldValues.AggregatedFieldConservesStrings | src/xml/extract.rs:146-171 | An aggregated field holds under each key exactly the strings below the nodes with that key |
| FieldValues.ExtractWithLimits | src/xml/extract.rs:173-272 | With the one-entry cache of parsed sources, result and error are those of parsing anew for every field |
| FieldMeaning.PlainFieldListsTexts | src/xml/extract.rs:232-237 | A plain field is nothing, the one text or the list of texts of the selected nodes |
| FieldMeaning.ContextFieldListsSources | src/xml/extract.rs:193-205 | A context field likewise with their sources |
| FieldMeaning.AttributeFieldIsTheFirst | src/xml/extract.rs:224-231 | A field of one attribute is its value on the first selected node that has it |
| FieldMeaning.ObjectFieldDescribesNodes | src/xml/extract.rs:206-223 | A field of several attributes is an object per selected node, with an entry for each attribute that it has |
| FieldMeaning.MultiFieldListsTextsOnce | src/xml/extract.rs:173-184 | A field of several paths lists each text that some path selects, once |
| FieldMeaning.UniqKeepsOrder | src/util.rs:141-154 | What stands earlier in such a list is seen before what stands later |
| FieldValues.BothSidesSeeTheSameBounds | src/model/extract.rs:135-197 | The time checks and the replay expiry read the same session bounds, in the same order |
| FieldMeaning.SessionBoundsAreTheAttributes | src/model/extract.rs:135-165 | For none, one or several AuthnStatements, the time checks read exactly the SessionNotOnOrAfter attributes of those that have one, in document order |
| Decoding.Base64DecodeWithLimit | src/binding/encoding.rs:28-53 | The counting loop and the choice of normalization compute the bounded decoder |
| Decoding.BoundedIsUnboundedWithinLimit | src/binding/encoding.rs:18-53 | On ASCII input the bounded decoder succeeds exactly when the unbounded one does within the limit and the counted characters pass the saturating check, which without vertical tabs follows; the bytes are the same |
| Decoding.CountedVerticalTabRefusesFittingInput | src/binding/encoding.rs:18-53 | Beside a space, a vertical tab is dropped before decoding yet counted, so three bytes are refused under a limit of three |
| Decoding.DeflateRawDecodeWithLimit | src/binding/deflate.rs:35-76 | The loop terminates, never holds more than one byte over the limit, and returns the whole stream exactly when it is complete and within the limit |

## Left out

- Cryptography: key loading, signature and digest computation, decryption and provider start-up are parameters that say what the backend finds.
- The XML reader: tokenizing, entity decoding, attribute normalization and namespace resolution yield the event stream that is the model's input; reader failures are malformed events in that stream.
- DEFLATE and the base64 table: a stepwise decompressor and a decoder with stated contracts; the message before URL encoding is arbitrary text.
- Checks that read no clock, cache or pending state are verdicts that come with the input: reading the request; decoding, status, message profile, schema validity, signature and issuer together; the audience check on its own, between the clock checks.
- Caches that forget entries before their expiry, and workers whose calls interleave between two cache accesses of one call: each call is one step.
- `insert_position` for Append and Prepend, which searches raw text and is not span surgery in general.
- Non-ASCII white space and ill-formed UTF-8: text is bytes, so lossy decoding of query names and values, and trimming by Unicode white space, are not modelled.
- Fragments in the redirect base URL, which make the query end before the sender's part.
- POST without a detached signature, and the rendering of forms as HTML.
- The name-path syntax of signature placement (`parse_local_names`): the path is given as a list of names.
- Starting SSO or logout, message rendering, reading metadata, HTML forms and configuration: field copying and writing.
- `camel_case` and the dotted path lookup of extracted values: the key spelling is a parameter, lookups are by single key.
- `verify_signature` and the metadata variants, which repeat the detailed verification with a first-match loop.
