/**
 * Detached message signatures: the HTTP-POST-SimpleSign binding, whose octet string is built
 * from decoded fields (src/binding/post_form.rs, src/browser/input.rs), and their
 * verification for both bindings under the metadata certificates (src/flow.rs).
 */
module Detached {
  import opened Prelude
  import opened Redirect
  import Decoding

  // ----- the sender

  /** What is posted: the message's base64, relay state, algorithm and signature; `xml` is the message itself. */
  datatype Post = Post(xml: string, encoded: string, relayState: Option<string>, sigAlg: string, signature: string)

  /** `build_simplesign_octet`: the octet string is built from the values as they are. */
  function PostOctet(kind: Kind, xml: string, relayState: Option<string>, sigAlg: string): string {
    kind.Name() + "=" + xml + (if relayState.Some? then "&RelayState=" + relayState.value else "")
    + "&SigAlg=" + sigAlg
  }

  function SignedOctet(kind: Kind, p: Post): string {
    PostOctet(kind, p.xml, p.relayState, p.sigAlg)
  }

  /** `binding_fields`: the hidden fields of the form. */
  function PostFields(kind: Kind, p: Post): Params {
    Fields(kind, Values(p.encoded, p.relayState, p.sigAlg, Some(p.signature)))
  }

  // ----- the receiver

  const DEFAULT_MAX_BYTES: nat := 1024 * 1024

  /** The base64 table, and what the UTF-8 conversion makes of the bytes. */
  datatype Reader = Reader(decode: Decoding.Decoder, text: Decoding.Bytes -> Result<string, SamlError>)

  function Opened(reader: Reader, encoded: string, limit: nat): Result<string, SamlError> {
    var bytes :- Decoding.Base64DecodeBounded(encoded, limit, reader.decode);
    reader.text(bytes)
  }

  /** The fields given, or else those of the raw body. */
  function PostedFields(rawBody: string, fields: Params): Params {
    if fields == [] then Decoded(RawParams(rawBody)) else fields
  }

  /** `http_request_from_input` for a SimpleSign post. */
  function ReceivePost(rawBody: string, fields: Params, kind: Kind, reader: Reader): Result<HttpRequest, SamlError> {
    var body := PostedFields(rawBody, fields);
    var encoded :- MessageValue(body, kind);
    var xml :- Opened(reader, encoded, DEFAULT_MAX_BYTES);
    var sigAlg :- Single(body, "SigAlg");
    if sigAlg.None? then Err(MissingSigAlg)
    else
      var relayState :- Single(body, "RelayState");
      Ok(HttpRequest([], body, Some(PostOctet(kind, xml, relayState, sigAlg.value))))
  }

  /** `decode_message` for a SimpleSign post, under the flow's own limit. */
  function Consumed(kind: Kind, request: HttpRequest, limit: nat, reader: Reader): Result<string, SamlError> {
    var encoded :- Needed(Single(request.body, kind.Name()));
    Opened(reader, encoded, limit)
  }

  /** `ensure_simplesign_octet_matches_consumed_fields`. */
  function PostOctetMatches(kind: Kind, request: HttpRequest, xml: string, sigAlg: string, octet: string)
    : Result<(), SamlError>
  {
    var _ :- Needed(Single(request.body, kind.Name()));
    var relayState :- Single(request.body, "RelayState");
    if octet == PostOctet(kind, xml, relayState, sigAlg)
       || (relayState.None? && octet == PostOctet(kind, xml, Some(""), sigAlg)) then Ok(())
    else Err(SignatureInvalid)
  }

  /** What `verify_detached` verifies of a SimpleSign post. */
  function PostInputs(kind: Kind, request: HttpRequest, xml: string): Result<(string, string, string), SamlError> {
    var signature :- Single(request.body, "Signature");
    if signature.None? then Err(SignatureMissing)
    else
      var sigAlg :- Needed(Single(request.body, "SigAlg"));
      var octet :- Needed(Ok(request.octet));
      var _ :- PostOctetMatches(kind, request, xml, sigAlg, octet);
      Ok((signature.value, sigAlg, octet))
  }

  lemma SameAround(a: string, x: string, y: string, b: string)
    requires a + x + b == a + y + b
    ensures x == y
  {
    assert |x| == |y|;
    assert x == (a + x + b)[|a|..|a| + |x|] && y == (a + y + b)[|a|..|a| + |y|];
  }

  function RelayField(relayState: Option<string>): string {
    if relayState.Some? then "&RelayState=" + relayState.value else ""
  }

  lemma RelayFieldsDiffer(a: Option<string>, b: Option<string>)
    requires RelayField(a) == RelayField(b)
    ensures a == b
  {
    if a.Some? && b.Some? {
      assert a.value == RelayField(a)[12..] && b.value == RelayField(b)[12..];
    }
  }

  lemma PostOctetAround(kind: Kind, p: Post)
    ensures var name, algorithm := kind.Name() + "=", "&SigAlg=" + p.sigAlg;
            && SignedOctet(kind, p) == name + p.xml + (RelayField(p.relayState) + algorithm)
            && SignedOctet(kind, p) == (name + p.xml) + RelayField(p.relayState) + algorithm
            && SignedOctet(kind, p) == (name + p.xml + RelayField(p.relayState) + "&SigAlg=") + p.sigAlg + ""
  {
    var name, relay := kind.Name() + "=", RelayField(p.relayState);
    Associate(name + p.xml, relay, "&SigAlg=" + p.sigAlg);
    Associate(name + p.xml + relay, "&SigAlg=", p.sigAlg);
    NothingAfter(name + p.xml + relay + "&SigAlg=" + p.sigAlg);
  }

  /** With the other two fields the same, the octet string determines the third. */
  lemma PostOctetTellsApart(kind: Kind, a: Post, b: Post)
    requires SignedOctet(kind, a) == SignedOctet(kind, b)
    ensures a.relayState == b.relayState && a.sigAlg == b.sigAlg ==> a.xml == b.xml
    ensures a.xml == b.xml && a.sigAlg == b.sigAlg ==> a.relayState == b.relayState
    ensures a.xml == b.xml && a.relayState == b.relayState ==> a.sigAlg == b.sigAlg
  {
    hide PostOctet, SignedOctet, RelayField;
    var name, relay := kind.Name() + "=", RelayField(a.relayState);
    PostOctetAround(kind, a);
    PostOctetAround(kind, b);
    if a.relayState == b.relayState && a.sigAlg == b.sigAlg {
      SameAround(name, a.xml, b.xml, relay + ("&SigAlg=" + a.sigAlg));
    }
    if a.xml == b.xml && a.sigAlg == b.sigAlg {
      SameAround(name + a.xml, relay, RelayField(b.relayState), "&SigAlg=" + a.sigAlg);
      RelayFieldsDiffer(a.relayState, b.relayState);
    }
    if a.xml == b.xml && a.relayState == b.relayState {
      SameAround(name + a.xml + relay + "&SigAlg=", a.sigAlg, b.sigAlg, "");
    }
  }

  /** The empty relay state that older senders sign reads like a message that ends in the field's name. */
  lemma EmptyRelayStateIsPartOfTheMessage(kind: Kind, xml: string, sigAlg: string)
    ensures PostOctet(kind, xml, Some(""), sigAlg) == PostOctet(kind, xml + "&RelayState=", None, sigAlg)
  {
  }

  /**
   * What the consumed-field check refuses: with two of message, relay state and algorithm as
   * signed, the third must be as signed too, but for the empty relay state of older senders.
   */
  lemma SignedPostMatchesItsFields(
    kind: Kind, request: HttpRequest, p: Post, xml: string, relayState: Option<string>, sigAlg: string)
    requires Single(request.body, kind.Name()).Ok? && Single(request.body, kind.Name()).value.Some?
    requires Single(request.body, "RelayState") == Ok(relayState)
    ensures var ok := PostOctetMatches(kind, request, xml, sigAlg, SignedOctet(kind, p)).Ok?;
            && (relayState == p.relayState && sigAlg == p.sigAlg ==>
                  (ok <==> xml == p.xml || (relayState.None? && p.xml == xml + "&RelayState=")))
            && (xml == p.xml && sigAlg == p.sigAlg ==>
                  (ok <==> relayState == p.relayState || (relayState.None? && p.relayState == Some(""))))
            && (xml == p.xml && relayState == p.relayState ==> (ok <==> sigAlg == p.sigAlg))
  {
    hide Single, PostOctet;
    var plain := p.(xml := xml, relayState := relayState, sigAlg := sigAlg);
    var empty := plain.(relayState := Some(""));
    if SignedOctet(kind, p) == SignedOctet(kind, plain) {
      PostOctetTellsApart(kind, p, plain);
    }
    EmptyRelayStateIsPartOfTheMessage(kind, xml, sigAlg);
    if SignedOctet(kind, p) == SignedOctet(kind, empty) {
      PostOctetTellsApart(kind, p, empty);
      PostOctetTellsApart(kind, p, plain.(xml := xml + "&RelayState=", relayState := None));
      if p.relayState.None? && xml == p.xml {
        SignedAlgorithmFollows(kind, p, sigAlg);
      }
    }
  }

  lemma SignedAlgorithmFollows(kind: Kind, p: Post, sigAlg: string)
    requires p.relayState.None?
    ensures SignedOctet(kind, p) != PostOctet(kind, p.xml, Some(""), sigAlg)
  {
    var before := kind.Name() + "=" + p.xml;
    assert SignedOctet(kind, p) == before + ("&SigAlg=" + p.sigAlg);
    assert PostOctet(kind, p.xml, Some(""), sigAlg) == before + ("&RelayState=" + "&SigAlg=" + sigAlg);
    assert SignedOctet(kind, p)[|before| + 1] == 'S';
    assert PostOctet(kind, p.xml, Some(""), sigAlg)[|before| + 1] == 'R';
  }

  // ----- agreement

  /** The receiver ends up with exactly what was signed, and consumes the message and relay state that were sent. */
  predicate PostDelivered(kind: Kind, p: Post, received: Result<HttpRequest, SamlError>, limit: nat, reader: Reader) {
    && received.Ok?
    && Consumed(kind, received.value, limit, reader) == Ok(p.xml)
    && PostInputs(kind, received.value, p.xml) == Ok((p.signature, p.sigAlg, SignedOctet(kind, p)))
    && Single(received.value.body, "RelayState") == Ok(p.relayState)
  }

  /** No other field bears a name of the binding. */
  predicate CleanForm(params: Params, kind: Kind) {
    forall i :: 0 <= i < |params| ==> !Used(params[i].0, kind) && params[i].0 != kind.Opposite()
  }

  lemma CleanFormIff(params: Params, kind: Kind)
    ensures CleanForm(params, kind) <==>
            && ValuesOf(params, kind.Name()) == [] && ValuesOf(params, "RelayState") == []
            && ValuesOf(params, "SigAlg") == [] && ValuesOf(params, "Signature") == []
            && ValuesOf(params, kind.Opposite()) == []
  {
    hide ValuesOf;
    NoValuesIff(params, kind.Name());
    NoValuesIff(params, "RelayState");
    NoValuesIff(params, "SigAlg");
    NoValuesIff(params, "Signature");
    NoValuesIff(params, kind.Opposite());
  }

  /** A field read from the sender's fields with others before and after them. */
  lemma SingleAmong(before: Params, sent: Params, after: Params, name: string)
    ensures var all := Single(before + sent + after, name);
            var alone := ValuesOf(before, name) == [] && ValuesOf(after, name) == [];
            && (alone ==> all == Single(sent, name))
            && (all.Ok? && ValuesOf(sent, name) != [] ==> alone)
            && (all == Ok(None) ==> alone)
  {
    hide ValuesOf;
    ValuesConcat(before + sent, after, name);
    ValuesConcat(before, sent, name);
    NothingBefore(ValuesOf(sent, name));
    NothingAfter(ValuesOf(sent, name));
  }

  /** A limit decides whether a message is read, not what is read. */
  lemma LimitsDecideOnlySuccess(reader: Reader, encoded: string, a: nat, b: nat)
    requires Opened(reader, encoded, a).Ok? && Opened(reader, encoded, b).Ok?
    ensures Opened(reader, encoded, a) == Opened(reader, encoded, b)
  {
  }

  /** Both limits let the message through, and it is the one that was signed. */
  predicate Readable(p: Post, limit: nat, reader: Reader) {
    Opened(reader, p.encoded, DEFAULT_MAX_BYTES) == Ok(p.xml) && Opened(reader, p.encoded, limit) == Ok(p.xml)
  }

  /**
   * Sender and receiver agree exactly when the posted base64 reads as the message within both
   * limits and the form has no other field with a name of the binding. The body may be
   * spelled in any way that decodes to the fields.
   */
  lemma ReceiverRebuildsThePostedOctet(
    kind: Kind, p: Post, rawBody: string, fields: Params, before: Params, after: Params, limit: nat, reader: Reader)
    requires PostedFields(rawBody, fields) == before + PostFields(kind, p) + after
    ensures PostDelivered(kind, p, ReceivePost(rawBody, fields, kind, reader), limit, reader) <==>
            CleanForm(before, kind) && CleanForm(after, kind) && Readable(p, limit, reader)
  {
    hide ValuesOf, Fields, CleanForm, Single, Opened, PostOctet, PostedFields;
    var sent := PostFields(kind, p);
    var v := Values(p.encoded, p.relayState, p.sigAlg, Some(p.signature));
    CleanFormIff(before, kind);
    CleanFormIff(after, kind);
    FieldsHoldTheirValues(kind, v);
    SentFields(kind, v);
    SingleAmong(before, sent, after, kind.Name());
    SingleAmong(before, sent, after, kind.Opposite());
    SingleAmong(before, sent, after, "RelayState");
    SingleAmong(before, sent, after, "SigAlg");
    SingleAmong(before, sent, after, "Signature");
    var received := ReceivePost(rawBody, fields, kind, reader);
    if PostDelivered(kind, p, received, limit, reader) {
      LimitsDecideOnlySuccess(reader, p.encoded, DEFAULT_MAX_BYTES, limit);
    }
  }

  /**
   * Whatever form is read, its consumed-field check passes: the octet string verified is the
   * one rebuilt from the fields, and only the signature can be missing or ambiguous.
   */
  lemma ReceivedPostPassesItsCheck(rawBody: string, fields: Params, kind: Kind, limit: nat, reader: Reader)
    requires ReceivePost(rawBody, fields, kind, reader).Ok?
    requires Consumed(kind, ReceivePost(rawBody, fields, kind, reader).value, limit, reader).Ok?
    ensures var request := ReceivePost(rawBody, fields, kind, reader).value;
            var inputs := PostInputs(kind, request, Consumed(kind, request, limit, reader).value);
            var signature := Single(PostedFields(rawBody, fields), "Signature");
            && request.octet.Some?
            && (inputs.Ok? <==> signature.Ok? && signature.value.Some?)
            && (inputs.Ok? ==> inputs.value.0 == signature.value.value && inputs.value.2 == request.octet.value)
  {
    hide Single, Opened, PostOctet, PostedFields;
    var body := PostedFields(rawBody, fields);
    LimitsDecideOnlySuccess(reader, MessageValue(body, kind).value, DEFAULT_MAX_BYTES, limit);
  }

  lemma SomeFieldIsPosted(kind: Kind, p: Post)
    ensures PostFields(kind, p) != []
  {
    assert PostFields(kind, p)[0] == (kind.Name(), p.encoded);
  }

  /**
   * Older senders signed an empty relay state that they did not post. The check lets their
   * octet string pass, yet a receiver that reads the form rebuilds another one, so it passes
   * only in a request whose octet string the caller supplies.
   */
  lemma UnpostedEmptyRelayStateIsRebuiltWithoutIt(kind: Kind, p: Post, rawBody: string, limit: nat, reader: Reader)
    requires p.relayState.None? && Readable(p, limit, reader)
    ensures var signed := PostOctet(kind, p.xml, Some(""), p.sigAlg);
            var fields := PostFields(kind, p);
            && PostInputs(kind, HttpRequest([], fields, Some(signed)), p.xml) == Ok((p.signature, p.sigAlg, signed))
            && ReceivePost(rawBody, fields, kind, reader).Ok?
            && ReceivePost(rawBody, fields, kind, reader).value.octet == Some(SignedOctet(kind, p))
            && SignedOctet(kind, p) != signed
  {
    hide ValuesOf, Fields, Single, Opened;
    SentFields(kind, Values(p.encoded, p.relayState, p.sigAlg, Some(p.signature)));
    FieldsHoldTheirValues(kind, Values(p.encoded, p.relayState, p.sigAlg, Some(p.signature)));
    SomeFieldIsPosted(kind, p);
    assert |PostOctet(kind, p.xml, Some(""), p.sigAlg)| == |SignedOctet(kind, p)| + |"&RelayState="|;
  }

  // ----- verifying under the metadata certificates

  datatype Channel = RedirectQuery | SimpleSignForm

  /** What the backend says of a detached signature under one certificate. */
  datatype DetachedFinding = GoodSignature | BadSignature | ProviderFailed | UnusableCertificate

  function InputsOf(channel: Channel, kind: Kind, request: HttpRequest, xml: string)
    : Result<(string, string, string), SamlError>
  {
    if channel.RedirectQuery? then DetachedInputs(kind, request) else PostInputs(kind, request, xml)
  }

  function DetachedOutcome(
      channel: Channel, kind: Kind, request: HttpRequest, xml: string, certs: seq<string>,
      verify: (string, string, string, string) -> DetachedFinding): Result<string, SamlError>
  {
    var (signature, sigAlg, octet) :- InputsOf(channel, kind, request, xml);
    if exists c :: c in certs && verify(octet, signature, c, sigAlg).GoodSignature? then Ok(sigAlg)
    else if (exists c :: c in certs && verify(octet, signature, c, sigAlg).ProviderFailed?)
         && !(exists c :: c in certs && verify(octet, signature, c, sigAlg).BadSignature?) then Err(Crypto)
    else Err(SignatureInvalid)
  }

  /** `verify_detached`: any metadata certificate may verify, whatever the others do. */
  method VerifyDetached(
      channel: Channel, kind: Kind, request: HttpRequest, xml: string, certs: seq<string>,
      verify: (string, string, string, string) -> DetachedFinding) returns (r: Result<string, SamlError>)
    ensures r == DetachedOutcome(channel, kind, request, xml, certs, verify)
  {
    var inputs := InputsOf(channel, kind, request, xml);
    if inputs.Err? {
      return inputs.PropagateFailure();
    }
    var (signature, sigAlg, octet) := inputs.value;
    var providerError, triedInvalid := false, false;
    for i := 0 to |certs|
      invariant !exists c :: c in certs[..i] && verify(octet, signature, c, sigAlg).GoodSignature?
      invariant providerError <==> exists c :: c in certs[..i] && verify(octet, signature, c, sigAlg).ProviderFailed?
      invariant triedInvalid <==> exists c :: c in certs[..i] && verify(octet, signature, c, sigAlg).BadSignature?
    {
      TakeOneMore(certs, i);
      var finding := verify(octet, signature, certs[i], sigAlg);
      if finding.GoodSignature? {
        return Ok(sigAlg);
      }
      providerError := providerError || finding.ProviderFailed?;
      triedInvalid := triedInvalid || finding.BadSignature?;
    }
    assert certs[..|certs|] == certs;
    r := Err(if providerError && !triedInvalid then Crypto else SignatureInvalid);
  }
}
