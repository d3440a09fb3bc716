/**
 * Single Logout: receiving a LogoutRequest and finishing with a LogoutResponse
 * (src/api/slo.rs), with the request's deadline check (src/validator.rs). Reading the HTTP
 * request is the `request` verdict of the input; decoding, signature and issuer checks,
 * none of which reads the clock, are its `content` verdict.
 */
module SingleLogout {
  import opened Prelude
  import opened Instants
  import opened ReplayKeys
  import opened Validation
  import opened Pending

  datatype LogoutRequest = LogoutRequest(id: string, notOnOrAfter: Option<Stamp>, destination: Option<string>)

  datatype LogoutResponse = LogoutResponse(id: string, inResponseTo: Option<string>, destination: Option<string>)

  /** The local logout endpoint that metadata declares for a binding, if any. */
  type Endpoints = map<Binding, string>

  datatype LogoutInput<+Message> = LogoutInput(
    binding: Binding,
    relayState: Result<RelayState, SamlError>,
    request: Result<(), SamlError>,
    content: Result<Message, SamlError>)

  datatype Outcome<+Message> = Outcome(result: Result<Message, SamlError>, entries: Entries)

  /** Deadline of a received request, with skew; an error once it has passed. */
  function RequestDeadline(request: LogoutRequest, now: Instant, skewMs: Millis): Result<Option<Instant>, SamlError> {
    match request.notOnOrAfter
    case None => Ok(None)
    case Some(Unparseable) => Err(TimeWindowInvalid(TimeField.LogoutRequestNotOnOrAfter))
    case Some(At(t)) =>
      match CheckedAdd(t, FromMillis(skewMs))
      case None => Err(TimeWindowInvalid(TimeField.LogoutRequestNotOnOrAfter))
      case Some(deadline) =>
        if now >= deadline then Err(TimeWindowInvalid(TimeField.LogoutRequestNotOnOrAfter)) else Ok(Some(deadline))
  }

  function DestinationVerdict(endpoints: Endpoints, binding: Binding, actual: Option<string>): Result<(), SamlError> {
    if actual.None? then Ok(())
    else if binding !in endpoints then Err(Invalid)
    else if actual.value == endpoints[binding] then Ok(())
    else Err(DestinationMismatch)
  }

  /** Everything `receive_slo` checks before it touches the cache, in source order. */
  function ReceiveVerdict(
    endpoints: Endpoints, metadata: MetadataBounds, input: LogoutInput<LogoutRequest>, ctx: Context)
    : Result<(LogoutRequest, Option<Instant>), SamlError>
  {
    var _ :- MetadataVerdict(metadata.local, ctx.now);
    var _ :- input.relayState;
    if input.binding !in LOGOUT_BINDINGS then Err(UndefinedBinding)
    else
      var _ :- input.request;
      var _ :- MetadataVerdict(metadata.peer, ctx.now);
      var request :- input.content;
      var now :- NowOffset(ctx);
      var deadline :- RequestDeadline(request, now, ctx.skew.notOnOrAfter);
      if Blank(request.id) then Err(Invalid)
      else
        var _ :- DestinationVerdict(endpoints, input.binding, request.destination);
        Ok((request, deadline))
  }

  function ReceiveSloOutcome(
    endpoints: Endpoints, metadata: MetadataBounds, input: LogoutInput<LogoutRequest>, ctx: Context, entries: Entries)
    : Outcome<LogoutRequest>
  {
    match ReceiveVerdict(endpoints, metadata, input, ctx)
    case Err(e) => Outcome(Err(e), entries)
    case Ok((request, deadline)) =>
      var stored := StoreMessageUntil(ctx, entries, LogoutRequestId(request.id), deadline);
      if stored.result.Err? then Outcome(stored.result.PropagateFailure(), stored.entries)
      else Outcome(Ok(request), stored.entries)
  }

  method ReceiveSlo(
    endpoints: Endpoints, metadata: MetadataBounds, input: LogoutInput<LogoutRequest>,
    validation: SamlValidationContext)
    returns (r: Result<LogoutRequest, SamlError>)
    requires validation.Valid()
    modifies validation.cache
    ensures validation.Valid()
    ensures Outcome(r, validation.Cached())
         == ReceiveSloOutcome(endpoints, metadata, input, validation.view, old(validation.Cached()))
  {
    var verdict := ReceiveVerdict(endpoints, metadata, input, validation.view);
    if verdict.Err? {
      return verdict.PropagateFailure();
    }
    var (request, deadline) := verdict.value;
    var stored := validation.CheckAndStoreMessageReplayUntil(LogoutRequestId(request.id), deadline);
    if stored.Err? {
      return stored.PropagateFailure();
    }
    r := Ok(request);
  }

  /** Everything `finish_slo` checks before it touches the cache, in source order. */
  function FinishVerdict(
    endpoints: Endpoints, metadata: MetadataBounds, peer: string, p: Pending<LogoutDetails>,
    input: LogoutInput<LogoutResponse>, ctx: Context): Result<LogoutResponse, SamlError>
  {
    var _ :- MetadataVerdict(metadata.local, ctx.now);
    var _ :- ValidateAt(p, ctx.now);
    var deadline :- CompletionDeadline(p);
    var _ :- RequirePendingExpiration(ctx, deadline);
    if p.peer != peer then Err(IssuerMismatch)
    else if input.binding != p.details.binding then Err(Prelude.UnsupportedBinding)
    else
      var relayState :- input.relayState;
      if p.relayState != relayState then Err(RelayStateMismatch)
      else
        var _ :- input.request;
        if p.id == "" then Err(InvalidInResponseTo)
        else
          var _ :- MetadataVerdict(metadata.peer, ctx.now);
          var response :- input.content;
          if response.inResponseTo != Some(p.id) then Err(InResponseToMismatch)
          else if Blank(response.id) then Err(Invalid)
          else
            var _ :- DestinationVerdict(endpoints, p.details.binding, response.destination);
            Ok(response)
  }

  function FinishSloOutcome(
    endpoints: Endpoints, metadata: MetadataBounds, peer: string, p: Pending<LogoutDetails>,
    input: LogoutInput<LogoutResponse>, ctx: Context, entries: Entries): Outcome<LogoutResponse>
  {
    match FinishVerdict(endpoints, metadata, peer, p, input, ctx)
    case Err(e) => Outcome(Err(e), entries)
    case Ok(response) =>
      var replay := StoreMessage(ctx, entries, LogoutResponseId(response.id));
      if replay.result.Err? then Outcome(replay.result.PropagateFailure(), replay.entries)
      else
        var completed := StoreMessageUntil(ctx, replay.entries, CompletedLogoutRequestId(p.id),
                                           CompletionDeadline(p).value);
        if completed.result.Err? then Outcome(completed.result.PropagateFailure(), completed.entries)
        else Outcome(Ok(response), completed.entries)
  }

  method FinishSlo(
    endpoints: Endpoints, metadata: MetadataBounds, peer: string, p: Pending<LogoutDetails>,
    input: LogoutInput<LogoutResponse>, validation: SamlValidationContext)
    returns (r: Result<LogoutResponse, SamlError>)
    requires validation.Valid()
    modifies validation.cache
    ensures validation.Valid()
    ensures Outcome(r, validation.Cached())
         == FinishSloOutcome(endpoints, metadata, peer, p, input, validation.view, old(validation.Cached()))
  {
    var verdict := FinishVerdict(endpoints, metadata, peer, p, input, validation.view);
    if verdict.Err? {
      return verdict;
    }
    var replay := validation.CheckAndStoreMessageReplay(LogoutResponseId(verdict.value.id));
    if replay.Err? {
      return replay.PropagateFailure();
    }
    var completed := validation.CheckAndStoreMessageReplayUntil(CompletedLogoutRequestId(p.id),
                                                                CompletionDeadline(p).value);
    if completed.Err? {
      return completed.PropagateFailure();
    }
    r := verdict;
  }
}
