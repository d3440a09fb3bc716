/**
 * Completing Web SSO on the service provider: `finish_sso` and `accept_unsolicited_sso`
 * (src/api/sp.rs) with the session's replay check (src/model/sso.rs).
 *
 * Each method is proved to be the function of the same purpose, which gives its result and
 * the replay entries it leaves. Reading the HTTP request and the peer's metadata is the
 * `request` verdict of the input; decoding, signature and issuer checks, none of which reads
 * the clock, are its `content` verdict. The audience check, which comes between clock checks,
 * has a verdict of its own.
 */
module WebSso {
  import opened Prelude
  import opened Instants
  import opened ReplayKeys
  import opened Validation
  import opened SsoSession
  import opened Pending

  /** A response whose content passed every check before those that read the clock, and its audience verdict. */
  datatype Authenticated = Authenticated(
    response: Response,
    responseAuthenticated: bool,
    audience: Result<(), SamlError>)

  datatype SsoInput = SsoInput(
    binding: Binding,
    relayState: Result<RelayState, SamlError>,
    request: Result<(), SamlError>,
    content: Result<Authenticated, SamlError>)

  datatype Outcome = Outcome(result: Result<Response, SamlError>, entries: Entries)

  // ----- the session's replay check

  function ReplayKeysOf(resp: Response): seq<ReplayKey> {
    [ResponseId(resp.id), AssertionId(resp.assertion.id)]
  }

  function StoreAll(outage: Outage, entries: Entries, keys: seq<ReplayKey>, expiresAt: SystemTime): Stored
    decreases |keys|
  {
    if keys == [] then Stored(Ok(()), entries)
    else
      var first := Store(outage, entries, keys[0], expiresAt);
      if first.result.Err? then first else StoreAll(outage, first.entries, keys[1..], expiresAt)
  }

  function SessionReplay(resp: Response, ctx: Context, entries: Entries): Stored {
    match NowOffset(ctx)
    case Err(e) => Stored(Err(e), entries)
    case Ok(now) =>
      if ctx.policy.DisabledForCompatibility? then
        Stored(if resp.assertion.oneTimeUse then Err(ProtocolProfile) else Ok(()), entries)
      else
        match ReplayExpiresAt(resp.assertion, now, ctx.skew.notOnOrAfter)
        case Err(e) => Stored(Err(e), entries)
        case Ok(deadline) =>
          match SystemFromInstant(deadline, ctx.platform)
          case Err(e) => Stored(Err(e), entries)
          case Ok(expiresAt) => StoreAll(ctx.outage, entries, ReplayKeysOf(resp), expiresAt)
  }

  method CheckAndStoreReplay(resp: Response, validation: SamlValidationContext) returns (r: Result<(), SamlError>)
    requires validation.Valid()
    modifies validation.cache
    ensures validation.Valid()
    ensures Stored(r, validation.Cached()) == SessionReplay(resp, validation.view, old(validation.Cached()))
  {
    var now := NowOffset(validation.view);
    if now.Err? {
      return Err(now.error);
    }
    match validation.view.policy {
      case DisabledForCompatibility =>
        if resp.assertion.oneTimeUse {
          return Err(ProtocolProfile);
        }
        return Ok(());
      case RequireCache =>
        var deadline := ComputeReplayExpiresAt(resp.assertion, now.value, validation.view.skew.notOnOrAfter);
        if deadline.Err? {
          return Err(deadline.error);
        }
        var expiresAt := SystemFromInstant(deadline.value, validation.view.platform);
        if expiresAt.Err? {
          return Err(expiresAt.error);
        }
        var keys := ReplayKeysOf(resp);
        for i := 0 to |keys|
          invariant validation.Valid()
          invariant StoreAll(validation.view.outage, old(validation.Cached()), keys, expiresAt.value)
                 == StoreAll(validation.view.outage, validation.Cached(), keys[i..], expiresAt.value)
        {
          assert keys[i..][0] == keys[i] && keys[i..][1..] == keys[i + 1..];
          var stored := validation.cache.CheckAndStore(keys[i], expiresAt.value);
          if stored.Err? {
            return stored;
          }
        }
        r := Ok(());
    }
  }

  /** `SsoSession::try_from`: both identifiers must be present and not blank. */
  function SessionFromFlow(resp: Response): Result<Response, SamlError> {
    if Blank(resp.id) || Blank(resp.assertion.id) then Err(Invalid) else Ok(resp)
  }

  /** `parse_login_response_inner`: metadata of both sides, then the message, then the clock-dependent checks. */
  function FlowVerdict(
      input: SsoInput, metadata: MetadataBounds, recipient: string, inResponseTo: Option<string>, ctx: Context)
    : Result<Response, SamlError>
  {
    var _ :- input.request;
    if inResponseTo == Some("") then Err(InvalidInResponseTo)
    else
      var _ :- MetadataVerdict(metadata.local, ctx.now);
      var _ :- MetadataVerdict(metadata.peer, ctx.now);
      var auth :- input.content;
      var now :- NowOffset(ctx);
      var expected := Expectation(recipient, inResponseTo, auth.responseAuthenticated, auth.audience);
      var _ :- ValidateContext(auth.response, expected, ctx.skew, now);
      Ok(auth.response)
  }

  // ----- SP-initiated

  /** Checks of the pending request against the input, in source order. */
  function PendingVerdict(p: Pending<AuthnDetails>, idp: string, input: SsoInput, ctx: Context): Result<(), SamlError> {
    if ValidateAt(p, ctx.now).Err? then ValidateAt(p, ctx.now)
    else
      match CompletionDeadline(p)
      case Err(e) => Err(e)
      case Ok(deadline) =>
        if RequirePendingExpiration(ctx, deadline).Err? then RequirePendingExpiration(ctx, deadline)
        else if p.peer != idp then Err(IssuerMismatch)
        else if input.binding != p.details.responseBinding then Err(Prelude.UnsupportedBinding)
        else
          match input.relayState
          case Err(e) => Err(e)
          case Ok(actual) => if p.relayState == actual then Ok(()) else Err(RelayStateMismatch)
  }

  function FinishSsoOutcome(
    p: Pending<AuthnDetails>, idp: string, metadata: MetadataBounds, input: SsoInput, ctx: Context,
    entries: Entries): Outcome
  {
    if PendingVerdict(p, idp, input, ctx).Err? then
        Outcome(PendingVerdict(p, idp, input, ctx).PropagateFailure(), entries)
    else
      match FlowVerdict(input, metadata, p.details.acs.location, Some(p.id), ctx)
      case Err(e) => Outcome(Err(e), entries)
      case Ok(resp) =>
        if SessionFromFlow(resp).Err? then Outcome(SessionFromFlow(resp), entries)
        else
          var replay := SessionReplay(resp, ctx, entries);
          if replay.result.Err? then Outcome(replay.result.PropagateFailure(), replay.entries)
          else
            var completed := StoreMessageUntil(ctx, replay.entries, CompletedAuthnRequestId(p.id),
                                               CompletionDeadline(p).value);
            if completed.result.Err? then Outcome(completed.result.PropagateFailure(), completed.entries)
            else Outcome(Ok(resp), completed.entries)
  }

  method FinishSso(
    p: Pending<AuthnDetails>, idp: string, metadata: MetadataBounds, input: SsoInput, validation: SamlValidationContext)
    returns (r: Result<Response, SamlError>)
    requires validation.Valid()
    modifies validation.cache
    ensures validation.Valid()
    ensures Outcome(r, validation.Cached())
         == FinishSsoOutcome(p, idp, metadata, input, validation.view, old(validation.Cached()))
  {
    var alive := ValidateAt(p, validation.view.now);
    if alive.Err? {
      return alive.PropagateFailure();
    }
    var deadline := CompletionDeadline(p);
    if deadline.Err? {
      return deadline.PropagateFailure();
    }
    var bounded := RequirePendingExpiration(validation.view, deadline.value);
    if bounded.Err? {
      return bounded.PropagateFailure();
    }
    if p.peer != idp {
      return Err(IssuerMismatch);
    }
    if input.binding != p.details.responseBinding {
      return Err(Prelude.UnsupportedBinding);
    }
    if input.relayState.Err? {
      return input.relayState.PropagateFailure();
    }
    if p.relayState != input.relayState.value {
      return Err(RelayStateMismatch);
    }
    var flow := FlowVerdict(input, metadata, p.details.acs.location, Some(p.id), validation.view);
    if flow.Err? {
      return flow;
    }
    var session := SessionFromFlow(flow.value);
    if session.Err? {
      return session;
    }
    var replay := CheckAndStoreReplay(session.value, validation);
    if replay.Err? {
      return replay.PropagateFailure();
    }
    var completed := validation.CheckAndStoreMessageReplayUntil(CompletedAuthnRequestId(p.id), deadline.value);
    if completed.Err? {
      return completed.PropagateFailure();
    }
    r := session;
  }

  // ----- IdP-initiated

  /** The first SubjectConfirmationData that carries InResponseTo. */
  function FirstInResponseTo(data: seq<ConfirmationData>): Option<string> {
    if data == [] then None
    else if data[0].inResponseTo.Some? then data[0].inResponseTo
    else FirstInResponseTo(data[1..])
  }

  /** Unsolicited responses must not carry a bearer confirmation bound to a request. */
  function RejectRequestBound(cs: seq<SubjectConfirmation>): Result<(), SamlError> {
    if cs == [] then Ok(())
    else if !cs[0].parsesInFlow then Err(Invalid)
    else
      var bound := FirstInResponseTo(cs[0].data);
      if cs[0].confirmationMethod == Some(BEARER) && bound.Some? && bound.value != "" then Err(InResponseToMismatch)
      else RejectRequestBound(cs[1..])
  }

  function UnsolicitedVerdict(input: SsoInput, metadata: MetadataBounds, recipient: string, ctx: Context)
    : Result<Response, SamlError>
  {
    if input.binding !in SSO_RESPONSE_BINDINGS then Err(UndefinedBinding)
    else
      match FlowVerdict(input, metadata, recipient, None, ctx)
      case Err(e) => Err(e)
      case Ok(resp) =>
        if resp.inResponseTo.Some? && resp.inResponseTo.value != "" then Err(InResponseToMismatch)
        else if RejectRequestBound(resp.assertion.confirmations).Err? then
          RejectRequestBound(resp.assertion.confirmations).PropagateFailure()
        else SessionFromFlow(resp)
  }

  function AcceptUnsolicitedOutcome(
    input: SsoInput, metadata: MetadataBounds, recipient: string, ctx: Context, entries: Entries): Outcome
  {
    match UnsolicitedVerdict(input, metadata, recipient, ctx)
    case Err(e) => Outcome(Err(e), entries)
    case Ok(resp) =>
      var replay := SessionReplay(resp, ctx, entries);
      if replay.result.Err? then Outcome(replay.result.PropagateFailure(), replay.entries)
      else Outcome(Ok(resp), replay.entries)
  }

  method AcceptUnsolicitedSso(
    input: SsoInput, metadata: MetadataBounds, recipient: string, validation: SamlValidationContext)
    returns (r: Result<Response, SamlError>)
    requires validation.Valid()
    modifies validation.cache
    ensures validation.Valid()
    ensures Outcome(r, validation.Cached())
         == AcceptUnsolicitedOutcome(input, metadata, recipient, validation.view, old(validation.Cached()))
  {
    var session := UnsolicitedVerdict(input, metadata, recipient, validation.view);
    if session.Err? {
      return session;
    }
    var replay := CheckAndStoreReplay(session.value, validation);
    if replay.Err? {
      return replay.PropagateFailure();
    }
    r := session;
  }
}
