/**
 * What a completed login or logout answers: the exact conditions under which the browser
 * flows succeed, each said of the pending request, the message and the clock, and the cache
 * entries that success leaves (src/api/sp.rs, src/api/slo.rs, src/flow.rs).
 */
module Correlation {
  import opened Prelude
  import opened Instants
  import opened ReplayKeys
  import opened Validation
  import opened SsoSession
  import opened AcceptanceWindow
  import opened ResponseChecks
  import opened Pending
  import opened ReplayProtocol
  import WebSso
  import SingleLogout

  // ----- common to all flows

  predicate ClockReads(now: SystemTime) {
    MIN_INSTANT <= now <= MAX_INSTANT
  }

  predicate MetadataCurrent(metadata: MetadataBounds, now: SystemTime) {
    (metadata.local.Some? ==> now < metadata.local.value) && (metadata.peer.Some? ==> now < metadata.peer.value)
  }

  /** The pending request has not expired; with a cache it must have a deadline. */
  predicate Outstanding<D>(p: Pending<D>, ctx: Context) {
    if p.expiresAt.None? then ctx.policy.DisabledForCompatibility?
    else p.expiresAt.value.At? && ctx.now < p.expiresAt.value.t
  }

  /** The key can be stored until then: it is new, its storage works, and the platform can represent the instant. */
  predicate Storable(ctx: Context, entries: Entries, key: ReplayKey, until: SystemTime) {
    && key.CacheKey() !in entries && key.CacheKey() !in ctx.outage
    && ctx.platform.earliest <= until <= ctx.platform.latest
  }

  // ----- logins

  /** The session's own keys can be stored until the deadline of its assertion. */
  ghost predicate SessionStorable(resp: Response, ctx: Context, entries: Entries, until: Instant) {
    && KeptUntil(resp.assertion, ctx.skew.notOnOrAfter, until)
    && Storable(ctx, entries, ResponseId(resp.id), until)
    && Storable(ctx, entries, AssertionId(resp.assertion.id), until)
  }

  function WithSession(resp: Response, entries: Entries, until: SystemTime): Entries {
    entries[ResponseId(resp.id).CacheKey() := until][AssertionId(resp.assertion.id).CacheKey() := until]
  }

  /** The message was read, both sides' metadata is current, and its content meets the expectation. */
  ghost predicate Meets(
    input: WebSso.SsoInput, metadata: MetadataBounds, recipient: string, request: Option<string>, ctx: Context,
    resp: Response)
  {
    && ClockReads(ctx.now) && input.request.Ok? && MetadataCurrent(metadata, ctx.now)
    && input.content.Ok? && input.content.value.response == resp
    && Acceptable(resp, Expectation(recipient, request, input.content.value.responseAuthenticated,
                                    input.content.value.audience), ctx.skew, ctx.now)
    && !Blank(resp.id) && !Blank(resp.assertion.id)
  }

  /** The response answers the pending request: its identifier, peer, binding, relay state and endpoint. */
  ghost predicate LoginAnswers(
    p: Pending<AuthnDetails>, idp: string, metadata: MetadataBounds, input: WebSso.SsoInput, ctx: Context,
    resp: Response)
  {
    && Outstanding(p, ctx) && p.id != "" && p.peer == idp
    && input.binding == p.details.responseBinding && input.relayState == Ok(p.relayState)
    && Meets(input, metadata, p.details.acs.location, Some(p.id), ctx, resp)
  }

  lemma FlowMeets(
    input: WebSso.SsoInput, metadata: MetadataBounds, recipient: string, request: Option<string>, ctx: Context,
    resp: Response)
    ensures && WebSso.FlowVerdict(input, metadata, recipient, request, ctx) == Ok(resp)
            && WebSso.SessionFromFlow(resp).Ok? <==>
            request != Some("") && Meets(input, metadata, recipient, request, ctx, resp)
  {
    hide ValidateContext, Acceptable, Blank;
    if ClockReads(ctx.now) && input.content.Ok? {
      var auth := input.content.value;
      var e := Expectation(recipient, request, auth.responseAuthenticated, auth.audience);
      ValidContextIsAcceptable(auth.response, e, ctx.skew, ctx.now);
    }
  }

  lemma PendingIsOutstanding(p: Pending<AuthnDetails>, idp: string, input: WebSso.SsoInput, ctx: Context)
    ensures WebSso.PendingVerdict(p, idp, input, ctx).Ok? <==>
            && ClockReads(ctx.now) && Outstanding(p, ctx) && p.peer == idp
            && input.binding == p.details.responseBinding && input.relayState == Ok(p.relayState)
  {
  }

  /** With a cache the replay check succeeds exactly when both keys can be stored. */
  lemma SessionReplayIsStorable(resp: Response, ctx: Context, entries: Entries, until: Instant)
    requires ctx.policy.RequireCache? && ClockReads(ctx.now) && KeptUntil(resp.assertion, ctx.skew.notOnOrAfter, until)
    requires ctx.now < until
    ensures var replay := WebSso.SessionReplay(resp, ctx, entries);
            && (replay.result.Ok? <==> SessionStorable(resp, ctx, entries, until))
            && (replay.result.Ok? ==> replay.entries == WithSession(resp, entries, until))
  {
    hide ReplayBound, KeptUntil, ReplayKey.CacheKey, WebSso.StoreAll;
    RetentionIsKeptUntil(resp.assertion, ctx.skew.notOnOrAfter, until);
    if WebSso.SessionReplay(resp, ctx, entries).result.Ok? {
      SessionStores(resp, ctx, entries);
    }
    if SessionStorable(resp, ctx, entries, until) {
      FreshKeysAreStored(resp, ctx, entries);
    }
  }

  /** What is accepted is kept beyond the instant of acceptance. */
  lemma AcceptableIsKept(resp: Response, e: Expectation, skew: ClockSkew, now: Instant, until: Instant)
    requires Acceptable(resp, e, skew, now) && KeptUntil(resp.assertion, skew.notOnOrAfter, until)
    ensures now < until
  {
    hide Acceptable, KeptUntil, ValidateContext, AcceptEnd, ReplayBound;
    ValidContextIsAcceptable(resp, e, skew, now);
    AcceptanceIsAWindow(resp, e, skew, now);
    RetentionIsKeptUntil(resp.assertion, skew.notOnOrAfter, until);
    AcceptanceEndsBeforeRetention(resp, e, skew);
  }

  /** With a cache, the session's keys and the completed request's key can be stored. */
  ghost predicate LoginStorable(p: Pending<AuthnDetails>, resp: Response, ctx: Context, entries: Entries) {
    if ctx.policy.DisabledForCompatibility? then !resp.assertion.oneTimeUse
    else
      && (exists until: Instant :: SessionStorable(resp, ctx, entries, until))
      && p.expiresAt.Some? && p.expiresAt.value.At?
      && Storable(ctx, entries, CompletedAuthnRequestId(p.id), p.expiresAt.value.t)
  }

  /** The entries are those before, and with a cache the three keys until their deadlines. */
  ghost predicate LoginStored(
    p: Pending<AuthnDetails>, resp: Response, ctx: Context, entries: Entries, after: Entries)
  {
    if ctx.policy.DisabledForCompatibility? then after == entries
    else
      && p.expiresAt.Some? && p.expiresAt.value.At?
      && exists until: Instant ::
           && KeptUntil(resp.assertion, ctx.skew.notOnOrAfter, until)
           && after == WithSession(resp, entries, until)[CompletedAuthnRequestId(p.id).CacheKey() :=
                                                           p.expiresAt.value.t]
  }

  lemma KindsDiffer(a: ReplayKey, b: ReplayKey)
    requires a != b
    ensures a.CacheKey() != b.CacheKey()
  {
    if a.CacheKey() == b.CacheKey() {
      CacheKeyInjective(a, b);
    }
  }

  lemma CompletionIsStorable(
    p: Pending<AuthnDetails>, resp: Response, ctx: Context, entries: Entries, until: Instant)
    requires Outstanding(p, ctx) && ctx.policy.RequireCache?
    ensures var key := CompletedAuthnRequestId(p.id);
            var deadline := CompletionDeadline(p).value;
            var completed := StoreMessageUntil(ctx, WithSession(resp, entries, until), key, deadline);
            && (completed.result.Ok? <==> Storable(ctx, entries, key, p.expiresAt.value.t))
            && (completed.result.Ok? ==>
                  completed.entries == WithSession(resp, entries, until)[key.CacheKey() := p.expiresAt.value.t])
  {
    hide ReplayKey.CacheKey;
    KindsDiffer(CompletedAuthnRequestId(p.id), ResponseId(resp.id));
    KindsDiffer(CompletedAuthnRequestId(p.id), AssertionId(resp.assertion.id));
  }

  lemma SessionNeedsRetention(resp: Response, ctx: Context, entries: Entries)
    requires ctx.policy.RequireCache? && WebSso.SessionReplay(resp, ctx, entries).result.Ok?
    ensures exists until: Instant :: KeptUntil(resp.assertion, ctx.skew.notOnOrAfter, until)
  {
    hide ReplayBound, WebSso.StoreAll, KeptUntil;
    var until := ReplayBound(resp.assertion, ctx.skew.notOnOrAfter).value;
    RetentionIsKeptUntil(resp.assertion, ctx.skew.notOnOrAfter, until);
  }

  /**
   * SP-initiated login succeeds exactly when the response answers the pending request and its
   * keys can be stored; then it leaves exactly those keys. A response that does not answer
   * the request leaves the cache alone.
   */
  lemma FinishedLoginAnswersItsRequest(
    p: Pending<AuthnDetails>, idp: string, metadata: MetadataBounds, input: WebSso.SsoInput, ctx: Context,
    entries: Entries, resp: Response)
    ensures var done := WebSso.FinishSsoOutcome(p, idp, metadata, input, ctx, entries);
            && (done.result == Ok(resp) <==>
                LoginAnswers(p, idp, metadata, input, ctx, resp) && LoginStorable(p, resp, ctx, entries))
            && (done.result == Ok(resp) ==> LoginStored(p, resp, ctx, entries, done.entries))
    ensures (forall r :: !LoginAnswers(p, idp, metadata, input, ctx, r)) ==>
            WebSso.FinishSsoOutcome(p, idp, metadata, input, ctx, entries).entries == entries
  {
    hide WebSso.PendingVerdict, WebSso.FlowVerdict, WebSso.SessionFromFlow, WebSso.SessionReplay, Acceptable, Blank,
         KeptUntil, ReplayKey.CacheKey, WithSession, StoreMessageUntil, Storable, MetadataCurrent;
    PendingIsOutstanding(p, idp, input, ctx);
    var flow := WebSso.FlowVerdict(input, metadata, p.details.acs.location, Some(p.id), ctx);
    FlowMeets(input, metadata, p.details.acs.location, Some(p.id), ctx, resp);
    if flow.Ok? {
      FlowMeets(input, metadata, p.details.acs.location, Some(p.id), ctx, flow.value);
      assert WebSso.PendingVerdict(p, idp, input, ctx).Ok? && WebSso.SessionFromFlow(flow.value).Ok? ==>
          LoginAnswers(p, idp, metadata, input, ctx, flow.value);
    }
    if LoginAnswers(p, idp, metadata, input, ctx, resp) {
      if ctx.policy.DisabledForCompatibility? {
        NothingIsStoredWithoutACache(resp, ctx, entries, CompletedAuthnRequestId(p.id), CompletionDeadline(p).value);
      } else {
        AnswerIsStored(p, idp, metadata, input, ctx, entries, resp);
      }
    }
  }

  lemma NothingIsStoredWithoutACache(
      resp: Response, ctx: Context, entries: Entries, key: ReplayKey, derived: Option<Instant>)
    requires ctx.policy.DisabledForCompatibility? && ClockReads(ctx.now)
    ensures WebSso.SessionReplay(resp, ctx, entries)
         == Stored(if resp.assertion.oneTimeUse then Err(ProtocolProfile) else Ok(()), entries)
    ensures StoreMessageUntil(ctx, entries, key, derived) == Stored(Ok(()), entries)
  {
  }

  lemma AnswerIsStored(
    p: Pending<AuthnDetails>, idp: string, metadata: MetadataBounds, input: WebSso.SsoInput, ctx: Context,
    entries: Entries, resp: Response)
    requires LoginAnswers(p, idp, metadata, input, ctx, resp) && ctx.policy.RequireCache?
    ensures var replay := WebSso.SessionReplay(resp, ctx, entries);
            var key, deadline := CompletedAuthnRequestId(p.id), CompletionDeadline(p).value;
            var completed := StoreMessageUntil(ctx, replay.entries, key, deadline);
            && (replay.result.Ok? && completed.result.Ok? <==> LoginStorable(p, resp, ctx, entries))
            && (replay.result.Ok? && completed.result.Ok? ==> LoginStored(p, resp, ctx, entries, completed.entries))
  {
    hide WebSso.SessionReplay, KeptUntil, Acceptable, ReplayKey.CacheKey, WithSession, StoreMessageUntil, Storable;
    var e := Expectation(p.details.acs.location, Some(p.id), input.content.value.responseAuthenticated,
                         input.content.value.audience);
    if WebSso.SessionReplay(resp, ctx, entries).result.Ok? {
      SessionNeedsRetention(resp, ctx, entries);
    }
    if until: Instant :| KeptUntil(resp.assertion, ctx.skew.notOnOrAfter, until) {
      AcceptableIsKept(resp, e, ctx.skew, ctx.now, until);
      SessionReplayIsStorable(resp, ctx, entries, until);
      CompletionIsStorable(p, resp, ctx, entries, until);
      forall other: Instant | KeptUntil(resp.assertion, ctx.skew.notOnOrAfter, other) ensures other == until {
        RetentionIsKeptUntil(resp.assertion, ctx.skew.notOnOrAfter, until);
        RetentionIsKeptUntil(resp.assertion, ctx.skew.notOnOrAfter, other);
      }
    }
  }

  // ----- unsolicited logins

  /** A bearer confirmation whose first InResponseTo, in document order, names a request. */
  ghost predicate BoundToARequest(c: SubjectConfirmation) {
    && c.confirmationMethod == Some(BEARER)
    && exists k :: && 0 <= k < |c.data| && c.data[k].inResponseTo.Some? && c.data[k].inResponseTo.value != ""
                   && forall j :: 0 <= j < k ==> c.data[j].inResponseTo.None?
  }

  lemma {:induction false} FirstInResponseToNames(data: seq<SsoSession.ConfirmationData>)
    ensures var first := WebSso.FirstInResponseTo(data);
            first.Some? && first.value != "" <==>
            exists k :: && 0 <= k < |data| && data[k].inResponseTo.Some? && data[k].inResponseTo.value != ""
                        && forall j :: 0 <= j < k ==> data[j].inResponseTo.None?
  {
    if data != [] && data[0].inResponseTo.None? {
      FirstInResponseToNames(data[1..]);
      if k :| && 0 <= k < |data[1..]| && data[1..][k].inResponseTo.Some? && data[1..][k].inResponseTo.value != ""
              && forall j :: 0 <= j < k ==> data[1..][j].inResponseTo.None? {
        assert data[k + 1] == data[1..][k];
        assert forall j :: 0 < j < k + 1 ==> data[j] == data[1..][j - 1];
      }
    }
  }

  /** No confirmation is bound to a request, and each can be read. */
  lemma {:induction false} RequestBoundIsRejected(cs: seq<SubjectConfirmation>)
    ensures WebSso.RejectRequestBound(cs).Ok? <==> forall c :: c in cs ==> c.parsesInFlow && !BoundToARequest(c)
  {
    hide WebSso.FirstInResponseTo;
    if cs != [] {
      FirstInResponseToNames(cs[0].data);
      RequestBoundIsRejected(cs[1..]);
      assert cs == [cs[0]] + cs[1..];
    }
  }

  /** The response came over a binding for responses and answers no request. */
  ghost predicate AnswersNothing(
    metadata: MetadataBounds, input: WebSso.SsoInput, recipient: string, ctx: Context, resp: Response)
  {
    && input.binding in {Post, SimpleSign}
    && Meets(input, metadata, recipient, None, ctx, resp)
    && (resp.inResponseTo.None? || resp.inResponseTo.value == "")
    && forall c :: c in resp.assertion.confirmations ==> c.parsesInFlow && !BoundToARequest(c)
  }

  lemma UnsolicitedAnswersNothing(
    metadata: MetadataBounds, input: WebSso.SsoInput, recipient: string, ctx: Context, resp: Response)
    ensures WebSso.UnsolicitedVerdict(input, metadata, recipient, ctx) == Ok(resp) <==>
            AnswersNothing(metadata, input, recipient, ctx, resp)
  {
    hide WebSso.FlowVerdict, WebSso.RejectRequestBound, Meets, BoundToARequest, Blank;
    FlowMeets(input, metadata, recipient, None, ctx, resp);
    RequestBoundIsRejected(resp.assertion.confirmations);
  }

  /** IdP-initiated login succeeds exactly so, and leaves exactly the session's keys. */
  lemma AcceptedLoginAnswersNothing(
    metadata: MetadataBounds, input: WebSso.SsoInput, recipient: string, ctx: Context, entries: Entries, resp: Response)
    ensures var done := WebSso.AcceptUnsolicitedOutcome(input, metadata, recipient, ctx, entries);
            && (done.result == Ok(resp) <==>
                && AnswersNothing(metadata, input, recipient, ctx, resp)
                && if ctx.policy.DisabledForCompatibility? then !resp.assertion.oneTimeUse
                   else exists until: Instant :: SessionStorable(resp, ctx, entries, until))
            && (done.result == Ok(resp) && ctx.policy.RequireCache? ==>
                exists until: Instant :: && KeptUntil(resp.assertion, ctx.skew.notOnOrAfter, until)
                                         && done.entries == WithSession(resp, entries, until))
    ensures (forall r :: !AnswersNothing(metadata, input, recipient, ctx, r)) ==>
            WebSso.AcceptUnsolicitedOutcome(input, metadata, recipient, ctx, entries).entries == entries
  {
    hide WebSso.UnsolicitedVerdict, WebSso.SessionReplay, Acceptable, Blank, KeptUntil, ReplayKey.CacheKey, WithSession,
         Storable, MetadataCurrent, BoundToARequest;
    var verdict := WebSso.UnsolicitedVerdict(input, metadata, recipient, ctx);
    UnsolicitedAnswersNothing(metadata, input, recipient, ctx, resp);
    if verdict.Ok? {
      UnsolicitedAnswersNothing(metadata, input, recipient, ctx, verdict.value);
    }
    if AnswersNothing(metadata, input, recipient, ctx, resp) {
      if ctx.policy.DisabledForCompatibility? {
        NothingIsStoredWithoutACache(resp, ctx, entries, ResponseId(resp.id), None);
      } else {
        SessionIsStored(input, metadata, recipient, None, ctx, entries, resp);
      }
    }
  }

  lemma SessionIsStored(
    input: WebSso.SsoInput, metadata: MetadataBounds, recipient: string, request: Option<string>, ctx: Context,
    entries: Entries, resp: Response)
    requires Meets(input, metadata, recipient, request, ctx, resp) && ctx.policy.RequireCache?
    ensures var replay := WebSso.SessionReplay(resp, ctx, entries);
            && (replay.result.Ok? <==> exists until: Instant :: SessionStorable(resp, ctx, entries, until))
            && (replay.result.Ok? ==>
                exists until: Instant :: && KeptUntil(resp.assertion, ctx.skew.notOnOrAfter, until)
                                         && replay.entries == WithSession(resp, entries, until))
  {
    hide WebSso.SessionReplay, KeptUntil, Acceptable, ReplayKey.CacheKey, WithSession, Storable;
    var auth := input.content.value;
    var e := Expectation(recipient, request, auth.responseAuthenticated, auth.audience);
    if WebSso.SessionReplay(resp, ctx, entries).result.Ok? {
      SessionNeedsRetention(resp, ctx, entries);
    }
    forall until: Instant | KeptUntil(resp.assertion, ctx.skew.notOnOrAfter, until)
      ensures var replay := WebSso.SessionReplay(resp, ctx, entries);
              && (replay.result.Ok? <==> SessionStorable(resp, ctx, entries, until))
              && (replay.result.Ok? ==> replay.entries == WithSession(resp, entries, until))
    {
      AcceptableIsKept(resp, e, ctx.skew, ctx.now, until);
      SessionReplayIsStorable(resp, ctx, entries, until);
    }
  }

  // ----- logouts

  /** A message's Destination, when present, is the endpoint declared for the binding. */
  predicate AddressedTo(destination: Option<string>, endpoints: SingleLogout.Endpoints, binding: Binding) {
    destination.Some? ==> binding in endpoints && endpoints[binding] == destination.value
  }

  /** The response answers the pending logout: its identifier, peer, binding, relay state and endpoint. */
  predicate LogoutAnswers(
    endpoints: SingleLogout.Endpoints, metadata: MetadataBounds, peer: string, p: Pending<LogoutDetails>,
    input: SingleLogout.LogoutInput<SingleLogout.LogoutResponse>, ctx: Context, response: SingleLogout.LogoutResponse)
  {
    && ClockReads(ctx.now) && MetadataCurrent(metadata, ctx.now)
    && Outstanding(p, ctx) && p.id != "" && p.peer == peer
    && input.binding == p.details.binding && input.relayState == Ok(p.relayState)
    && input.request.Ok? && input.content == Ok(response)
    && response.inResponseTo == Some(p.id) && !Blank(response.id)
    && AddressedTo(response.destination, endpoints, p.details.binding)
  }

  /** The key can be stored for the caller's retention, which must be set and positive. */
  predicate KeepsMessage(ctx: Context, entries: Entries, key: ReplayKey) {
    && key.CacheKey() !in entries && key.CacheKey() !in ctx.outage
    && ctx.retention.Some? && ctx.retention.value > 0 && ctx.now + ctx.retention.value <= ctx.platform.latest
  }

  predicate LogoutStorable(
    p: Pending<LogoutDetails>, response: SingleLogout.LogoutResponse, ctx: Context, entries: Entries)
  {
    ctx.policy.RequireCache? ==>
      && KeepsMessage(ctx, entries, LogoutResponseId(response.id))
      && p.expiresAt.Some? && p.expiresAt.value.At?
      && Storable(ctx, entries, CompletedLogoutRequestId(p.id), p.expiresAt.value.t)
  }

  /** A logout completes exactly when the response answers it and both keys can be stored. */
  lemma FinishedLogoutAnswersItsRequest(
    endpoints: SingleLogout.Endpoints, metadata: MetadataBounds, peer: string, p: Pending<LogoutDetails>,
    input: SingleLogout.LogoutInput<SingleLogout.LogoutResponse>, ctx: Context, entries: Entries,
    response: SingleLogout.LogoutResponse)
    ensures var done := SingleLogout.FinishSloOutcome(endpoints, metadata, peer, p, input, ctx, entries);
            && (done.result == Ok(response) <==>
                && LogoutAnswers(endpoints, metadata, peer, p, input, ctx, response)
                && LogoutStorable(p, response, ctx, entries))
            && (done.result == Ok(response) ==>
                done.entries == if ctx.policy.DisabledForCompatibility? then entries
                                else entries[LogoutResponseId(response.id).CacheKey() :=
                                               ctx.now + ctx.retention.value]
                                            [CompletedLogoutRequestId(p.id).CacheKey() := p.expiresAt.value.t])
    ensures (forall r :: !LogoutAnswers(endpoints, metadata, peer, p, input, ctx, r)) ==>
            SingleLogout.FinishSloOutcome(endpoints, metadata, peer, p, input, ctx, entries).entries == entries
  {
    hide SingleLogout.FinishVerdict, LogoutAnswers, Blank, ReplayKey.CacheKey;
    var verdict := SingleLogout.FinishVerdict(endpoints, metadata, peer, p, input, ctx);
    LogoutVerdictAnswers(endpoints, metadata, peer, p, input, ctx, response);
    if verdict.Ok? {
      LogoutVerdictAnswers(endpoints, metadata, peer, p, input, ctx, verdict.value);
      KindsDiffer(LogoutResponseId(verdict.value.id), CompletedLogoutRequestId(p.id));
    }
  }

  lemma LogoutVerdictAnswers(
    endpoints: SingleLogout.Endpoints, metadata: MetadataBounds, peer: string, p: Pending<LogoutDetails>,
    input: SingleLogout.LogoutInput<SingleLogout.LogoutResponse>, ctx: Context, response: SingleLogout.LogoutResponse)
    ensures SingleLogout.FinishVerdict(endpoints, metadata, peer, p, input, ctx) == Ok(response) <==>
            LogoutAnswers(endpoints, metadata, peer, p, input, ctx, response)
    ensures LogoutAnswers(endpoints, metadata, peer, p, input, ctx, response) ==>
              Outstanding(p, ctx) && CompletionDeadline(p)
                == Ok(if p.expiresAt.Some? then Some(p.expiresAt.value.t) else None)
  {
    hide Blank;
  }

  /** A LogoutRequest that may be received over the binding at this instant. */
  predicate LogoutReceivable(
    endpoints: SingleLogout.Endpoints, metadata: MetadataBounds,
    input: SingleLogout.LogoutInput<SingleLogout.LogoutRequest>, ctx: Context, request: SingleLogout.LogoutRequest)
  {
    && ClockReads(ctx.now) && MetadataCurrent(metadata, ctx.now)
    && input.relayState.Ok? && input.binding in {Redirect, Post, SimpleSign}
    && input.request.Ok? && input.content == Ok(request)
    && (request.notOnOrAfter.Some? ==> Ahead(request.notOnOrAfter, ctx.skew.notOnOrAfter, ctx.now))
    && !Blank(request.id)
    && AddressedTo(request.destination, endpoints, input.binding)
  }

  /** Until its own deadline with the drift, or for the caller's retention when it has none. */
  predicate ReceptionStorable(request: SingleLogout.LogoutRequest, ctx: Context, entries: Entries) {
    ctx.policy.RequireCache? ==>
      var key := LogoutRequestId(request.id);
      if request.notOnOrAfter.None? then KeepsMessage(ctx, entries, key)
      else
        && request.notOnOrAfter.value.At?
        && Storable(ctx, entries, key, request.notOnOrAfter.value.t + ctx.skew.notOnOrAfter * 1_000_000)
  }

  /** A LogoutRequest is received exactly then, and its key is kept exactly so long. */
  lemma ReceivedLogoutIsReceivable(
    endpoints: SingleLogout.Endpoints, metadata: MetadataBounds,
    input: SingleLogout.LogoutInput<SingleLogout.LogoutRequest>, ctx: Context, entries: Entries,
    request: SingleLogout.LogoutRequest)
    ensures var done := SingleLogout.ReceiveSloOutcome(endpoints, metadata, input, ctx, entries);
            && (done.result == Ok(request) <==>
                && LogoutReceivable(endpoints, metadata, input, ctx, request)
                && ReceptionStorable(request, ctx, entries))
            && (done.result == Ok(request) ==>
                done.entries == if ctx.policy.DisabledForCompatibility? then entries
                                else entries[LogoutRequestId(request.id).CacheKey() :=
                                               if request.notOnOrAfter.Some?
                                               then request.notOnOrAfter.value.t + ctx.skew.notOnOrAfter * 1_000_000
                                               else ctx.now + ctx.retention.value])
    ensures (forall r :: !LogoutReceivable(endpoints, metadata, input, ctx, r)) ==>
            SingleLogout.ReceiveSloOutcome(endpoints, metadata, input, ctx, entries).entries == entries
  {
    hide Blank, ReplayKey.CacheKey;
    if SingleLogout.ReceiveVerdict(endpoints, metadata, input, ctx).Ok? {
      assert LogoutReceivable(endpoints, metadata, input, ctx, input.content.value);
    }
  }

  // ----- failures do not use up a pending request

  lemma {:induction false} StoreAllTouchesItsKeys(
      outage: Outage, entries: Entries, keys: seq<ReplayKey>, until: SystemTime, other: ReplayKey)
    requires other !in keys
    ensures other.CacheKey() in WebSso.StoreAll(outage, entries, keys, until).entries <==> other.CacheKey() in entries
    decreases |keys|
  {
    hide ReplayKey.CacheKey;
    if keys != [] {
      KindsDiffer(other, keys[0]);
      StoreAllTouchesItsKeys(outage, Store(outage, entries, keys[0], until).entries, keys[1..], until, other);
    }
  }

  lemma SessionReplayTouchesItsKeys(resp: Response, ctx: Context, entries: Entries, other: ReplayKey)
    requires other !in WebSso.ReplayKeysOf(resp)
    ensures other.CacheKey() in WebSso.SessionReplay(resp, ctx, entries).entries <==> other.CacheKey() in entries
  {
    hide ReplayKey.CacheKey, WebSso.StoreAll, WebSso.ReplayKeysOf, ReplayBound;
    forall until
      ensures other.CacheKey() in WebSso.StoreAll(ctx.outage, entries, WebSso.ReplayKeysOf(resp), until).entries <==>
              other.CacheKey() in entries
    {
      StoreAllTouchesItsKeys(ctx.outage, entries, WebSso.ReplayKeysOf(resp), until, other);
    }
  }

  /** A login that fails leaves its request open, unless the storage failed for that very key. */
  lemma FailedLoginStaysOpen(
    p: Pending<AuthnDetails>, idp: string, metadata: MetadataBounds, input: WebSso.SsoInput, ctx: Context,
    entries: Entries)
    requires WebSso.FinishSsoOutcome(p, idp, metadata, input, ctx, entries).result.Err?
    requires CompletedAuthnRequestId(p.id).CacheKey() !in ctx.outage
    ensures CompletedAuthnRequestId(p.id).CacheKey()
              in WebSso.FinishSsoOutcome(p, idp, metadata, input, ctx, entries).entries <==>
            CompletedAuthnRequestId(p.id).CacheKey() in entries
  {
    hide ReplayKey.CacheKey, WebSso.SessionReplay, WebSso.FlowVerdict, WebSso.PendingVerdict, MessageDeadline;
    var flow := WebSso.FlowVerdict(input, metadata, p.details.acs.location, Some(p.id), ctx);
    if flow.Ok? {
      SessionReplayTouchesItsKeys(flow.value, ctx, entries, CompletedAuthnRequestId(p.id));
    }
  }

  /** So does a logout. */
  lemma FailedLogoutStaysOpen(
    endpoints: SingleLogout.Endpoints, metadata: MetadataBounds, peer: string, p: Pending<LogoutDetails>,
    input: SingleLogout.LogoutInput<SingleLogout.LogoutResponse>, ctx: Context, entries: Entries)
    requires SingleLogout.FinishSloOutcome(endpoints, metadata, peer, p, input, ctx, entries).result.Err?
    requires CompletedLogoutRequestId(p.id).CacheKey() !in ctx.outage
    ensures CompletedLogoutRequestId(p.id).CacheKey()
              in SingleLogout.FinishSloOutcome(endpoints, metadata, peer, p, input, ctx, entries).entries <==>
            CompletedLogoutRequestId(p.id).CacheKey() in entries
  {
    hide ReplayKey.CacheKey, SingleLogout.FinishVerdict, MessageDeadline;
    var verdict := SingleLogout.FinishVerdict(endpoints, metadata, peer, p, input, ctx);
    if verdict.Ok? {
      KindsDiffer(LogoutResponseId(verdict.value.id), CompletedLogoutRequestId(p.id));
    }
  }

  // ----- over the steps of a run

  /** Every accepted SP-initiated login answers the request it completes. */
  lemma AcceptedResponseAnswers(s: State, step: Step)
    requires step.FinishSso? && AcceptedResponse(s, step).Some?
    ensures var resp, p := AcceptedResponse(s, step).value, step.pending;
            && resp.inResponseTo == Some(p.id)
            && (resp.destination.Some? ==> resp.destination.value == p.details.acs.location)
            && step.sso.binding == p.details.responseBinding && step.sso.relayState == Ok(p.relayState)
            && p.peer == step.idp
            && exists c ::
                 && c in resp.assertion.confirmations
                 && LiveBearer(c, p.details.acs.location, Some(p.id), step.settings.skew.notOnOrAfter, s.clock)
  {
    hide WebSso.FinishSsoOutcome, LoginStorable, LoginStored, SessionsAhead, ConditionsHold, LiveBearer, Blank;
    FinishedLoginAnswersItsRequest(step.pending, step.idp, step.settings.metadata, step.sso, step.settings.At(s.clock),
                                   s.entries, AcceptedResponse(s, step).value);
  }

  /** Every completed logout answers the request it completes. */
  lemma CompletedLogoutAnswers(s: State, step: Step)
    requires CompletedLogout(s, step).Some?
    ensures step.FinishSlo?
    ensures var response, p := CompletedLogout(s, step).value, step.logout;
            && response.inResponseTo == Some(p.id)
            && AddressedTo(response.destination, step.endpoints, p.details.binding)
            && step.response.binding == p.details.binding && step.response.relayState == Ok(p.relayState)
            && p.peer == step.peer
  {
    hide SingleLogout.FinishSloOutcome, LogoutStorable, Blank;
    FinishedLogoutAnswersItsRequest(step.endpoints, step.settings.metadata, step.peer, step.logout, step.response,
                                    step.settings.At(s.clock), s.entries, CompletedLogout(s, step).value);
  }
}
