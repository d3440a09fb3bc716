/**
 * Whole runs of the browser flows against one shared replay cache.
 *
 * A run interleaves API calls with time passing and with the cache forgetting entries whose
 * stored expiry has been reached. The results are safety over every run: what is accepted
 * once is not accepted again. Section 4.1.4.5 of SAML Profiles 2.0 asks for this of bearer
 * assertions.
 */
module ReplayProtocol {
  import opened Prelude
  import opened Instants
  import opened ReplayKeys
  import opened Validation
  import opened SsoSession
  import opened AcceptanceWindow
  import opened Pending
  import WebSso
  import SingleLogout

  datatype State = State(clock: SystemTime, entries: Entries)

  /** The part of a validation context that a caller fixes for one call. */
  datatype Settings = Settings(
    skew: ClockSkew,
    platform: Platform,
    retention: Option<nat>,
    metadata: MetadataBounds,
    outage: Outage)
  {
    function At(clock: SystemTime): Context {
      Context(clock, skew, platform, retention, RequireCache, outage)
    }
  }

  datatype Step =
    | Advance(to: SystemTime)
    | Evict(key: string)
    | FinishSso(pending: Pending<AuthnDetails>, idp: string, sso: WebSso.SsoInput, settings: Settings)
    | AcceptUnsolicitedSso(sso: WebSso.SsoInput, recipient: string, settings: Settings)
    | ReceiveSlo(endpoints: SingleLogout.Endpoints, request: SingleLogout.LogoutInput<SingleLogout.LogoutRequest>,
                 settings: Settings)
    | FinishSlo(
        endpoints: SingleLogout.Endpoints,
        peer: string,
        logout: Pending<LogoutDetails>,
        response: SingleLogout.LogoutInput<SingleLogout.LogoutResponse>,
        settings: Settings)

  /** The clock does not run backwards; an entry goes only once its expiry is reached. */
  predicate Legal(s: State, step: Step) {
    match step
    case Advance(to) => s.clock <= to
    case Evict(key) => key in s.entries && s.entries[key] <= s.clock
    case _ => true
  }

  function Next(s: State, step: Step): State {
    match step
    case Advance(to) => s.(clock := to)
    case Evict(key) => s.(entries := s.entries - {key})
    case FinishSso(p, idp, input, settings) =>
      s.(entries := WebSso.FinishSsoOutcome(p, idp, settings.metadata, input, settings.At(s.clock), s.entries).entries)
    case AcceptUnsolicitedSso(input, recipient, settings) =>
      s.(entries := WebSso.AcceptUnsolicitedOutcome(input, settings.metadata, recipient, settings.At(s.clock),
                                                    s.entries).entries)
    case ReceiveSlo(endpoints, input, settings) =>
      s.(entries := SingleLogout.ReceiveSloOutcome(endpoints, settings.metadata, input, settings.At(s.clock),
                                                   s.entries).entries)
    case FinishSlo(endpoints, peer, p, input, settings) =>
      s.(entries := SingleLogout.FinishSloOutcome(endpoints, settings.metadata, peer, p, input, settings.At(s.clock),
                                                  s.entries).entries)
  }

  /** The response a step turns into a login session, if it does. */
  function AcceptedResponse(s: State, step: Step): Option<Response> {
    match step
    case FinishSso(p, idp, input, settings) =>
      Value(WebSso.FinishSsoOutcome(p, idp, settings.metadata, input, settings.At(s.clock), s.entries).result)
    case AcceptUnsolicitedSso(input, recipient, settings) =>
      Value(WebSso.AcceptUnsolicitedOutcome(input, settings.metadata, recipient, settings.At(s.clock),
                                            s.entries).result)
    case _ => None
  }

  function Value<T>(r: Result<T, SamlError>): Option<T> {
    match r
    case Ok(v) => Some(v)
    case Err(_) => None
  }

  function CompletedLogout(s: State, step: Step): Option<SingleLogout.LogoutResponse> {
    match step
    case FinishSlo(endpoints, peer, p, input, settings) =>
      Value(SingleLogout.FinishSloOutcome(endpoints, settings.metadata, peer, p, input, settings.At(s.clock),
                                          s.entries).result)
    case _ => None
  }

  function ReceivedLogout(s: State, step: Step): Option<SingleLogout.LogoutRequest> {
    match step
    case ReceiveSlo(endpoints, input, settings) =>
      Value(SingleLogout.ReceiveSloOutcome(endpoints, settings.metadata, input, settings.At(s.clock), s.entries).result)
    case _ => None
  }

  /** `states[i]` is the state before `steps[i]`. */
  ghost predicate Run(states: seq<State>, steps: seq<Step>) {
    && |states| == |steps| + 1
    && forall i {:trigger steps[i]} :: 0 <= i < |steps| ==>
        Legal(states[i], steps[i]) && states[i + 1] == Next(states[i], steps[i])
  }

  // ----- what every step keeps

  /** Either the key is still cached until `until`, or `until` has passed. */
  ghost predicate Held(s: State, key: ReplayKey, until: SystemTime) {
    s.clock >= until || (key.CacheKey() in s.entries && s.entries[key.CacheKey()] >= until)
  }

  ghost predicate Extends(before: Entries, after: Entries) {
    forall k :: k in before ==> k in after && after[k] == before[k]
  }

  lemma {:induction false} StoreAllExtends(
      outage: Outage, entries: Entries, keys: seq<ReplayKey>, expiresAt: SystemTime)
    ensures Extends(entries, WebSso.StoreAll(outage, entries, keys, expiresAt).entries)
    decreases |keys|
  {
    if keys != [] {
      StoreAllExtends(outage, Store(outage, entries, keys[0], expiresAt).entries, keys[1..], expiresAt);
    }
  }

  lemma SessionReplayExtends(resp: Response, ctx: Context, entries: Entries)
    ensures Extends(entries, WebSso.SessionReplay(resp, ctx, entries).entries)
  {
    forall expiresAt {
      StoreAllExtends(ctx.outage, entries, WebSso.ReplayKeysOf(resp), expiresAt);
    }
  }

  /** API calls never drop or change an entry; only eviction removes one. */
  lemma CallsOnlyAddEntries(s: State, step: Step)
    requires !step.Advance? && !step.Evict?
    ensures Extends(s.entries, Next(s, step).entries) && Next(s, step).clock == s.clock
  {
    hide WebSso.FlowVerdict, WebSso.UnsolicitedVerdict, WebSso.SessionReplay, WebSso.PendingVerdict, MessageDeadline,
         SingleLogout.ReceiveVerdict, SingleLogout.FinishVerdict, ReplayKey.CacheKey;
    match step
    case FinishSso(p, idp, input, settings) =>
      var flow := WebSso.FlowVerdict(input, settings.metadata, p.details.acs.location, Some(p.id),
                                     settings.At(s.clock));
      if flow.Ok? {
        SessionReplayExtends(flow.value, settings.At(s.clock), s.entries);
      }
    case AcceptUnsolicitedSso(input, recipient, settings) =>
      var flow := WebSso.UnsolicitedVerdict(input, settings.metadata, recipient, settings.At(s.clock));
      if flow.Ok? {
        SessionReplayExtends(flow.value, settings.At(s.clock), s.entries);
      }
    case ReceiveSlo(_, _, _) =>
    case FinishSlo(_, _, _, _, _) =>
  }

  lemma StepKeepsHeld(s: State, step: Step, key: ReplayKey, until: SystemTime)
    requires Legal(s, step) && Held(s, key, until)
    ensures Held(Next(s, step), key, until) && s.clock <= Next(s, step).clock
  {
    if !step.Advance? && !step.Evict? {
      CallsOnlyAddEntries(s, step);
    }
  }

  lemma {:induction false} RunKeepsHeld(
      states: seq<State>, steps: seq<Step>, i: nat, j: nat, key: ReplayKey, until: SystemTime)
    requires Run(states, steps) && i <= j <= |steps|
    requires Held(states[i], key, until)
    ensures Held(states[j], key, until) && states[i].clock <= states[j].clock
    decreases j
  {
    if i < j {
      RunKeepsHeld(states, steps, i, j - 1, key, until);
      assert Legal(states[j - 1], steps[j - 1]) && states[j - 1 + 1] == Next(states[j - 1], steps[j - 1]);
      StepKeepsHeld(states[j - 1], steps[j - 1], key, until);
    }
  }

  // ----- accepted assertions

  /** What acceptance required of the replay check, and what it left behind. */
  ghost predicate StoresBoth(before: State, after: Entries, resp: Response, skewMs: Millis) {
    var bound := ReplayBound(resp.assertion, skewMs);
    && bound.Ok? && before.clock < bound.value
    && AssertionId(resp.assertion.id).CacheKey() !in before.entries
    && Held(State(before.clock, after), AssertionId(resp.assertion.id), bound.value)
    && Held(State(before.clock, after), ResponseId(resp.id), bound.value)
  }

  lemma AcceptanceStores(s: State, step: Step)
    requires AcceptedResponse(s, step).Some?
    ensures StoresBoth(s, Next(s, step).entries, AcceptedResponse(s, step).value, step.settings.skew.notOnOrAfter)
    ensures Next(s, step).clock == s.clock
  {
    var resp := AcceptedResponse(s, step).value;
    var ctx := step.settings.At(s.clock);
    SessionStoresBoth(s, resp, ctx);
    if step.FinishSso? {
      CompletionExtendsReplay(s, step);
      StoresBothExtends(s, WebSso.SessionReplay(resp, ctx, s.entries).entries, Next(s, step).entries, resp,
                        ctx.skew.notOnOrAfter);
    }
  }

  lemma CompletionExtendsReplay(s: State, step: Step)
    requires step.FinishSso? && AcceptedResponse(s, step).Some?
    ensures var replay := WebSso.SessionReplay(AcceptedResponse(s, step).value, step.settings.At(s.clock), s.entries);
            replay.result.Ok? && Extends(replay.entries, Next(s, step).entries)
  {
    hide WebSso.FlowVerdict, WebSso.UnsolicitedVerdict, WebSso.SessionReplay;
  }

  lemma StoresBothExtends(before: State, mid: Entries, after: Entries, resp: Response, skewMs: Millis)
    requires StoresBoth(before, mid, resp, skewMs) && Extends(mid, after)
    ensures StoresBoth(before, after, resp, skewMs)
  {
  }

  lemma SessionStoresBoth(s: State, resp: Response, ctx: Context)
    requires ctx.policy.RequireCache? && ctx.now == s.clock && WebSso.SessionReplay(resp, ctx, s.entries).result.Ok?
    ensures StoresBoth(s, WebSso.SessionReplay(resp, ctx, s.entries).entries, resp, ctx.skew.notOnOrAfter)
  {
    SessionStores(resp, ctx, s.entries);
  }

  /** A successful replay check found both keys free and holds them until the stored expiry. */
  lemma SessionStores(resp: Response, ctx: Context, entries: Entries)
    requires ctx.policy.RequireCache? && WebSso.SessionReplay(resp, ctx, entries).result.Ok?
    ensures var after := WebSso.SessionReplay(resp, ctx, entries).entries;
            var bound := ReplayBound(resp.assertion, ctx.skew.notOnOrAfter);
            var keys := [ResponseId(resp.id).CacheKey(), AssertionId(resp.assertion.id).CacheKey()];
            && bound.Ok? && ctx.now < bound.value
            && after == entries[keys[0] := bound.value][keys[1] := bound.value]
            && keys[0] !in entries && keys[1] !in entries && keys[0] !in ctx.outage && keys[1] !in ctx.outage
  {
    hide ReplayBound, ReplayKey.CacheKey;
    var bound := ReplayBound(resp.assertion, ctx.skew.notOnOrAfter).value;
    var keys := WebSso.ReplayKeysOf(resp);
    assert keys[1..] == [keys[1]];
    var first := Store(ctx.outage, entries, keys[0], bound);
    assert WebSso.StoreAll(ctx.outage, entries, keys, bound)
        == WebSso.StoreAll(ctx.outage, first.entries, [keys[1]], bound);
    assert WebSso.StoreAll(ctx.outage, first.entries, [keys[1]], bound)
        == Store(ctx.outage, first.entries, keys[1], bound);
  }

  ghost predicate SkewNeverGrows(steps: seq<Step>) {
    forall i, j :: 0 <= i < j < |steps| && (steps[i].FinishSso? || steps[i].AcceptUnsolicitedSso?)
                   && (steps[j].FinishSso? || steps[j].AcceptUnsolicitedSso?) ==>
                     steps[j].settings.skew.notOnOrAfter <= steps[i].settings.skew.notOnOrAfter
  }

  /** An identifier names one assertion: the issuer does not reuse IDs. */
  ghost predicate IdentifiersFixContent(states: seq<State>, steps: seq<Step>)
    requires |states| == |steps| + 1
  {
    forall i, j :: 0 <= i < |steps| && 0 <= j < |steps|
                   && AcceptedResponse(states[i], steps[i]).Some? && AcceptedResponse(states[j], steps[j]).Some?
                   && AcceptedResponse(states[i], steps[i]).value.assertion.id
                        == AcceptedResponse(states[j], steps[j]).value.assertion.id
                   ==> AcceptedResponse(states[i], steps[i]).value.assertion
                        == AcceptedResponse(states[j], steps[j]).value.assertion
  }

  /**
   * Over every run, each assertion is accepted at most once, by SP-initiated and
   * IdP-initiated completion together.
   */
  lemma AssertionAcceptedAtMostOnce(states: seq<State>, steps: seq<Step>)
    requires Run(states, steps) && SkewNeverGrows(steps) && IdentifiersFixContent(states, steps)
    ensures forall i, j :: 0 <= i < |steps| && 0 <= j < |steps|
                           && AcceptedResponse(states[i], steps[i]).Some? && AcceptedResponse(states[j], steps[j]).Some?
                           && AcceptedResponse(states[i], steps[i]).value.assertion.id
                              == AcceptedResponse(states[j], steps[j]).value.assertion.id
                           ==> i == j
  {
    forall i, j | 0 <= i < |steps| && 0 <= j < |steps|
                  && AcceptedResponse(states[i], steps[i]).Some? && AcceptedResponse(states[j], steps[j]).Some?
                  && AcceptedResponse(states[i], steps[i]).value.assertion.id
                     == AcceptedResponse(states[j], steps[j]).value.assertion.id
      ensures i == j
    {
      var a := AcceptedResponse(states[i], steps[i]).value.assertion;
      if i < j {
        SecondAcceptanceNeedsALaterBound(states, steps, i, j);
        StoredExpiryShiftsWithSkew(a, steps[i].settings.skew.notOnOrAfter, steps[j].settings.skew.notOnOrAfter);
      } else if j < i {
        SecondAcceptanceNeedsALaterBound(states, steps, j, i);
        StoredExpiryShiftsWithSkew(a, steps[j].settings.skew.notOnOrAfter, steps[i].settings.skew.notOnOrAfter);
      }
    }
  }

  /**
   * The general form: without any assumption on skews or contents, an identifier is accepted
   * again only after the first stored expiry, by an assertion whose own bound is later.
   */
  lemma SecondAcceptanceNeedsALaterBound(states: seq<State>, steps: seq<Step>, i: nat, j: nat)
    requires Run(states, steps) && i < j < |steps|
    requires AcceptedResponse(states[i], steps[i]).Some? && AcceptedResponse(states[j], steps[j]).Some?
    requires AcceptedResponse(states[i], steps[i]).value.assertion.id
         == AcceptedResponse(states[j], steps[j]).value.assertion.id
    ensures var b1 := ReplayBound(AcceptedResponse(states[i], steps[i]).value.assertion,
                                  steps[i].settings.skew.notOnOrAfter);
            var b2 := ReplayBound(AcceptedResponse(states[j], steps[j]).value.assertion,
                                  steps[j].settings.skew.notOnOrAfter);
            b1.Ok? && b2.Ok? && b1.value <= states[j].clock < b2.value
  {
    AcceptanceStores(states[i], steps[i]);
    AcceptanceStores(states[j], steps[j]);
    var a := AcceptedResponse(states[i], steps[i]).value.assertion;
    var bound := ReplayBound(a, steps[i].settings.skew.notOnOrAfter).value;
    RunKeepsHeld(states, steps, i + 1, j, AssertionId(a.id), bound);
  }

  // ----- exactly when an assertion can be accepted again

  /** Some run starts with `first`, which accepts, and later accepts through `second`. */
  ghost predicate AcceptedAgain(s: State, first: Step, second: Step) {
    exists states: seq<State>, steps: seq<Step>, j: nat ::
      && Run(states, steps) && 0 < j < |steps|
      && states[0] == s && steps[0] == first && steps[j] == second
      && AcceptedResponse(states[j], second).Some?
  }

  function UnsolicitedExpectation(step: Step): Expectation
    requires step.AcceptUnsolicitedSso? && step.sso.content.Ok?
  {
    var auth := step.sso.content.value;
    Expectation(step.recipient, None, auth.responseAuthenticated, auth.audience)
  }

  /** The instant from which the call rejects: the end of the response's window, or of either side's metadata. */
  function UnsolicitedEnd(step: Step): Option<Instant>
    requires step.AcceptUnsolicitedSso? && step.sso.content.Ok?
  {
    var metadata := step.settings.metadata;
    match AcceptEnd(step.sso.content.value.response, UnsolicitedExpectation(step), step.settings.skew)
    case None => None
    case Some(end) => Some(Earlier(Earlier(end, metadata.local), metadata.peer))
  }

  /** What a step that accepts an unsolicited response checked, as facts about the response. */
  predicate AcceptableUnsolicited(s: State, step: Step)
    requires step.AcceptUnsolicitedSso? && step.sso.content.Ok?
  {
    var resp := step.sso.content.value.response;
    && AcceptableContent(resp) && Readable(step)
    && InstantFromSystem(s.clock).Ok?
    && Begun(resp.assertion, step.settings.skew, s.clock)
    && UnsolicitedEnd(step).Some? && s.clock < UnsolicitedEnd(step).value
  }

  predicate AcceptableContent(resp: Response) {
    && !Blank(resp.id) && !Blank(resp.assertion.id)
    && (resp.inResponseTo.None? || resp.inResponseTo.value == "")
    && WebSso.RejectRequestBound(resp.assertion.confirmations).Ok?
  }

  /** The input came over a binding for responses, and could be read. */
  predicate Readable(step: Step)
    requires step.AcceptUnsolicitedSso?
  {
    step.sso.binding in SSO_RESPONSE_BINDINGS && step.sso.request.Ok?
  }

  lemma MetadataVerdictIsAWindow(validUntil: Option<Instant>, now: SystemTime)
    ensures MetadataVerdict(validUntil, now).Ok? <==>
        InstantFromSystem(now).Ok? && (validUntil.Some? ==> now < validUntil.value)
  {
  }

  lemma UnsolicitedVerdictIsAcceptability(s: State, step: Step)
    requires step.AcceptUnsolicitedSso? && step.sso.content.Ok?
    ensures var verdict :=
              WebSso.UnsolicitedVerdict(step.sso, step.settings.metadata, step.recipient, step.settings.At(s.clock));
            && (verdict.Ok? <==> AcceptableUnsolicited(s, step))
            && (verdict.Ok? ==> verdict.value == step.sso.content.value.response)
  {
    hide ValidateContext, AcceptEnd, Begun;
    var resp := step.sso.content.value.response;
    MetadataVerdictIsAWindow(step.settings.metadata.local, s.clock);
    MetadataVerdictIsAWindow(step.settings.metadata.peer, s.clock);
    if InstantFromSystem(s.clock).Ok? {
      AcceptanceIsAWindow(resp, UnsolicitedExpectation(step), step.settings.skew, s.clock);
    }
  }

  /** The second acceptance falls in the second call's window, after the first stored expiry. */
  lemma ReadmissionFallsInTheSecondWindow(states: seq<State>, steps: seq<Step>, j: nat)
    requires Run(states, steps) && 0 < j < |steps|
    requires steps[0].AcceptUnsolicitedSso? && steps[j].AcceptUnsolicitedSso?
    requires AcceptedResponse(states[0], steps[0]).Some? && AcceptedResponse(states[j], steps[j]).Some?
    requires steps[j].sso.content.Ok?
    requires steps[j].sso.content.value.response == AcceptedResponse(states[0], steps[0]).value
    ensures ReadmissionWindow(AcceptedResponse(states[0], steps[0]).value, steps[0].settings.skew.notOnOrAfter,
                              steps[j])
  {
    hide WebSso.SessionReplay, WebSso.UnsolicitedVerdict, ReplayBound, AcceptEnd;
    UnsolicitedVerdictIsAcceptability(states[j], steps[j]);
    SecondAcceptanceNeedsALaterBound(states, steps, 0, j);
    AcceptanceUsesThePlatform(states[j], steps[j]);
    var resp := AcceptedResponse(states[0], steps[0]).value;
    StaysBegun(resp.assertion, steps[j].settings.skew, states[j].clock, UnsolicitedEnd(steps[j]).value - 1);
  }

  /** NotBefore only delays: once begun, an assertion stays begun. */
  lemma StaysBegun(a: Assertion, skew: ClockSkew, now: Instant, later: Instant)
    requires Begun(a, skew, now) && now <= later
    ensures Begun(a, skew, later)
  {
  }

  lemma AcceptanceUsesThePlatform(s: State, step: Step)
    requires step.AcceptUnsolicitedSso? && AcceptedResponse(s, step).Some?
    ensures CanStore(AcceptedResponse(s, step).value, step.settings)
  {
    hide WebSso.UnsolicitedVerdict, WebSso.StoreAll, ReplayBound;
    SessionStores(AcceptedResponse(s, step).value, step.settings.At(s.clock), s.entries);
  }

  /** The stored expiry exists, the platform's clock can represent it, and storage does not fail for either key. */
  predicate CanStore(resp: Response, settings: Settings) {
    var bound := ReplayBound(resp.assertion, settings.skew.notOnOrAfter);
    && bound.Ok? && SystemFromInstant(bound.value, settings.platform).Ok?
    && ResponseId(resp.id).CacheKey() !in settings.outage
    && AssertionId(resp.assertion.id).CacheKey() !in settings.outage
  }

  /**
   * The second call can be read and can store an expiry of its own, and its window extends
   * beyond the expiry stored under the first skew, to an instant at which NotBefore is met.
   */
  predicate ReadmissionWindow(resp: Response, firstSkewMs: Millis, second: Step)
    requires second.AcceptUnsolicitedSso? && second.sso.content.Ok?
  {
    var end := UnsolicitedEnd(second);
    var bound := ReplayBound(resp.assertion, firstSkewMs);
    && Readable(second) && CanStore(resp, second.settings)
    && end.Some? && bound.Ok? && bound.value < end.value
    && Begun(resp.assertion, second.settings.skew, end.value - 1)
  }

  /**
   * Retention is exact: an accepted IdP-initiated response can be accepted once more, in some
   * run, if and only if the second call's window - of the response and of both sides'
   * metadata - outlives the expiry that the first call stored.
   */
  lemma AcceptedAgainIffWindowOutlivesRetention(s: State, first: Step, second: Step)
    requires first.AcceptUnsolicitedSso? && second.AcceptUnsolicitedSso?
    requires AcceptedResponse(s, first).Some?
    requires second.sso.content.Ok? && second.sso.content.value.response == AcceptedResponse(s, first).value
    ensures AcceptedAgain(s, first, second) <==>
            ReadmissionWindow(AcceptedResponse(s, first).value, first.settings.skew.notOnOrAfter, second)
  {
    hide AcceptedResponse, ReadmissionWindow, AcceptedAgain;
    if AcceptedAgain(s, first, second) {
      ReadmissionNeedsTheWindow(s, first, second);
    }
    if ReadmissionWindow(AcceptedResponse(s, first).value, first.settings.skew.notOnOrAfter, second) {
      WaitingOutRetentionReadmits(s, first, second);
    }
  }

  lemma ReadmissionNeedsTheWindow(s: State, first: Step, second: Step)
    requires first.AcceptUnsolicitedSso? && second.AcceptUnsolicitedSso?
    requires AcceptedResponse(s, first).Some? && AcceptedAgain(s, first, second)
    requires second.sso.content.Ok? && second.sso.content.value.response == AcceptedResponse(s, first).value
    ensures ReadmissionWindow(AcceptedResponse(s, first).value, first.settings.skew.notOnOrAfter, second)
  {
    hide AcceptedResponse, ReadmissionWindow, Next, Legal;
    var states: seq<State>, steps: seq<Step>, j: nat :|
      && Run(states, steps) && 0 < j < |steps|
      && states[0] == s && steps[0] == first && steps[j] == second
      && AcceptedResponse(states[j], second).Some?;
    ReadmissionFallsInTheSecondWindow(states, steps, j);
  }

  /** An accepted response left both its keys with the stored expiry, and nothing else. */
  lemma FirstCallStores(s: State, first: Step)
    requires first.AcceptUnsolicitedSso? && first.sso.content.Ok? && AcceptedResponse(s, first).Some?
    ensures var resp := AcceptedResponse(s, first).value;
            var bound := ReplayBound(resp.assertion, first.settings.skew.notOnOrAfter);
            && resp == first.sso.content.value.response && AcceptableContent(resp) && bound.Ok? && s.clock < bound.value
            && Next(s, first)
               == State(s.clock, s.entries[ResponseId(resp.id).CacheKey() := bound.value]
                                          [AssertionId(resp.assertion.id).CacheKey() := bound.value])
  {
    hide WebSso.SessionReplay, WebSso.UnsolicitedVerdict, ReplayBound, AcceptEnd, Begun, UnsolicitedEnd,
         AcceptableContent;
    UnsolicitedVerdictIsAcceptability(s, first);
    SessionStores(AcceptedResponse(s, first).value, first.settings.At(s.clock), s.entries);
  }

  lemma AcceptedContentIsOk(s: State, step: Step)
    requires step.AcceptUnsolicitedSso? && AcceptedResponse(s, step).Some?
    ensures step.sso.content.Ok?
  {
    hide ValidateContext, WebSso.SessionReplay, WebSso.RejectRequestBound;
  }

  /** The run that waits for the last instant of the window, forgets both keys and presents the response again. */
  lemma WaitingOutRetentionReadmits(s: State, first: Step, second: Step)
    requires first.AcceptUnsolicitedSso? && second.AcceptUnsolicitedSso?
    requires AcceptedResponse(s, first).Some?
    requires second.sso.content.Ok? && second.sso.content.value.response == AcceptedResponse(s, first).value
    requires ReadmissionWindow(AcceptedResponse(s, first).value, first.settings.skew.notOnOrAfter, second)
    ensures AcceptedAgain(s, first, second)
  {
    hide AcceptedResponse, Next, ReplayBound, AcceptEnd, Begun, UnsolicitedEnd, AcceptableContent, Run, AcceptedAgain;
    AcceptedContentIsOk(s, first);
    FirstCallStores(s, first);
    var resp := AcceptedResponse(s, first).value;
    var bound := ReplayBound(resp.assertion, first.settings.skew.notOnOrAfter).value;
    var at := UnsolicitedEnd(second).value - 1;
    var k1, k2 := ResponseId(resp.id).CacheKey(), AssertionId(resp.assertion.id).CacheKey();
    KeysDiffer(resp);
    var after := Next(s, first);
    var late := State(at, after.entries - {k1} - {k2});
    SecondCallAccepts(late, second);
    EmptyRun(s);
    RunGrows([s], [], first, after);
    var states, steps := [s] + [after], [] + [first];
    RunForgets(states, steps, after, bound, at, k1, k2);
    RunReaches(states + [State(at, after.entries)] + [State(at, after.entries - {k1})] + [late],
               steps + [Advance(at)] + [Evict(k1)] + [Evict(k2)], s, first, second);
  }

  lemma EmptyRun(s: State)
    ensures Run([s], [])
  {
  }

  lemma KeysDiffer(resp: Response)
    ensures ResponseId(resp.id).CacheKey() != AssertionId(resp.assertion.id).CacheKey()
  {
    if ResponseId(resp.id).CacheKey() == AssertionId(resp.assertion.id).CacheKey() {
      CacheKeyInjective(ResponseId(resp.id), AssertionId(resp.assertion.id));
    }
  }

  lemma RunGrows(states: seq<State>, steps: seq<Step>, step: Step, after: State)
    requires Run(states, steps) && Legal(states[|steps|], step) && after == Next(states[|steps|], step)
    ensures Run(states + [after], steps + [step])
  {
    var grown, all := states + [after], steps + [step];
    forall i | 0 <= i < |all|
      ensures Legal(grown[i], all[i]) && grown[i + 1] == Next(grown[i], all[i])
    {
      if i < |steps| {
        assert all[i] == steps[i];
      }
    }
  }

  /** Waiting until two entries have expired and forgetting them, at the end of a run. */
  lemma RunForgets(
    states: seq<State>, steps: seq<Step>, s1: State, expiry: SystemTime, at: SystemTime, k1: string, k2: string)
    requires Run(states, steps) && states[|steps|] == s1 && s1.clock <= at && expiry <= at && k1 != k2
    requires k1 in s1.entries && s1.entries[k1] == expiry && k2 in s1.entries && s1.entries[k2] == expiry
    ensures Run(states + [State(at, s1.entries)] + [State(at, s1.entries - {k1})]
                  + [State(at, s1.entries - {k1} - {k2})],
                steps + [Advance(at)] + [Evict(k1)] + [Evict(k2)])
  {
    var s2 := State(at, s1.entries);
    var s3 := State(at, s1.entries - {k1});
    RunGrows(states, steps, Advance(at), s2);
    RunGrows(states + [s2], steps + [Advance(at)], Evict(k1), s3);
    RunGrows(states + [s2] + [s3], steps + [Advance(at)] + [Evict(k1)], Evict(k2), State(at, s1.entries - {k1} - {k2}));
  }

  lemma RunReaches(states: seq<State>, steps: seq<Step>, s: State, first: Step, second: Step)
    requires Run(states, steps) && 0 < |steps| && states[0] == s && steps[0] == first
    requires AcceptedResponse(states[|steps|], second).Some? && Legal(states[|steps|], second)
    ensures AcceptedAgain(s, first, second)
  {
    var after := Next(states[|steps|], second);
    RunGrows(states, steps, second, after);
    var grown, all := states + [after], steps + [second];
    assert grown[|steps|] == states[|steps|] && all[|steps|] == second && grown[0] == s && all[0] == first;
  }

  lemma SecondCallAccepts(s: State, step: Step)
    requires step.AcceptUnsolicitedSso? && step.sso.content.Ok? && AcceptableUnsolicited(s, step)
    requires var resp := step.sso.content.value.response;
             && CanStore(resp, step.settings)
             && ResponseId(resp.id).CacheKey() !in s.entries && AssertionId(resp.assertion.id).CacheKey() !in s.entries
    ensures AcceptedResponse(s, step) == Some(step.sso.content.value.response)
  {
    hide AcceptEnd, WebSso.UnsolicitedVerdict, WebSso.SessionReplay, RawDeadline, ReplayBound, Begun,
         ReplayKey.CacheKey;
    var resp := step.sso.content.value.response;
    UnsolicitedVerdictIsAcceptability(s, step);
    AcceptanceEndsBeforeRetention(resp, UnsolicitedExpectation(step), step.settings.skew);
    FreshKeysAreStored(resp, step.settings.At(s.clock), s.entries);
  }

  /** The replay check passes when its expiry can be stored and both keys are free and reachable. */
  lemma FreshKeysAreStored(resp: Response, ctx: Context, entries: Entries)
    requires ctx.policy.RequireCache? && InstantFromSystem(ctx.now).Ok?
    requires var bound := ReplayBound(resp.assertion, ctx.skew.notOnOrAfter);
             bound.Ok? && ctx.now < bound.value && SystemFromInstant(bound.value, ctx.platform).Ok?
    requires ResponseId(resp.id).CacheKey() !in entries && ResponseId(resp.id).CacheKey() !in ctx.outage
    requires AssertionId(resp.assertion.id).CacheKey() !in entries
    requires AssertionId(resp.assertion.id).CacheKey() !in ctx.outage
    ensures WebSso.SessionReplay(resp, ctx, entries).result.Ok?
  {
    hide ReplayBound, ReplayKey.CacheKey;
    KeysDiffer(resp);
    var bound := ReplayBound(resp.assertion, ctx.skew.notOnOrAfter).value;
    var keys := WebSso.ReplayKeysOf(resp);
    assert keys[1..] == [keys[1]];
    var first := Store(ctx.outage, entries, keys[0], bound);
    var second := Store(ctx.outage, first.entries, keys[1], bound);
    assert first.result.Ok? && second.result.Ok?;
    assert WebSso.StoreAll(ctx.outage, entries, keys, bound)
        == WebSso.StoreAll(ctx.outage, first.entries, [keys[1]], bound);
    assert WebSso.StoreAll(ctx.outage, first.entries, [keys[1]], bound)
        == WebSso.StoreAll(ctx.outage, second.entries, [], bound) by { assert [keys[1]][1..] == []; }
  }

  const ACS: string := "https://sp.example.com/acs"

  /**
   * An IdP-initiated response whose only bound is one bearer deadline, received under a given
   * skew with metadata that does not expire.
   */
  function BearerOnlyStep(deadline: Instant, skewMs: Millis): Step {
    var data := ConfirmationData(Some(Stamp.At(deadline)), Some(ACS), None);
    var confirmation := SubjectConfirmation(Some(BEARER), [data], true, true);
    var resp := Response("r", None, None, Assertion("a", [], [], [confirmation], false));
    AcceptUnsolicitedSso(
      WebSso.SsoInput(Post, Ok(Absent), Ok(()), Ok(WebSso.Authenticated(resp, false, Ok(())))), ACS,
      Settings(ClockSkew(0, skewMs), Platform(MIN_INSTANT, MAX_INSTANT), None, MetadataBounds(None, None), map[]))
  }

  lemma BearerOnlyWindow(deadline: Instant, skewMs: Millis)
    requires MIN_INSTANT <= deadline + FromMillis(skewMs) <= MAX_INSTANT
    ensures var step := BearerOnlyStep(deadline, skewMs);
            var resp := step.sso.content.value.response;
            && AcceptEnd(resp, UnsolicitedExpectation(step), step.settings.skew) == Some(deadline + FromMillis(skewMs))
            && ReplayBound(resp.assertion, skewMs) == Ok(deadline + FromMillis(skewMs))
            && AcceptableContent(resp)
  {
    hide ACS, SessionEnd, ConditionsEnd, RawDeadline, ConfirmationEnds, Maximum, LatestBearer, Blank,
         WebSso.RejectRequestBound;
    var step := BearerOnlyStep(deadline, skewMs);
    var resp := step.sso.content.value.response;
    OneLetterIsNotBlank('r');
    OneLetterIsNotBlank('a');
    SingleConfirmationWindow(resp.assertion.confirmations[0], step.settings.skew, UnsolicitedExpectation(step));
    assert resp.assertion.confirmations == [resp.assertion.confirmations[0]];
    OnlyTheBearerBound(resp.assertion, step.settings.skew, deadline);
  }

  lemma OneLetterIsNotBlank(c: char)
    requires 'a' <= c <= 'z'
    ensures !Blank([c])
  {
    assert c in [c];
  }

  /** Without Conditions and session bounds, only the bearer deadline counts. */
  lemma OnlyTheBearerBound(a: Assertion, skew: ClockSkew, deadline: Instant)
    requires a.conditions == [] && a.sessionBounds == [] && LatestBearer(a.confirmations, None) == Ok(Some(deadline))
    ensures SessionEnd(a, skew) == Some(None) && ConditionsEnd(a, skew) == Some(None)
    ensures RawDeadline(a) == Ok(deadline)
  {
    hide LatestBearer;
    assert Present([]) == [] && Minimum(Parsed([])) == None;
    assert [] + Listed(None) + Listed(Some(deadline)) == [deadline] && [deadline][..0] == [];
  }

  /**
   * A caller that widens its skew between calls loses the guarantee: a bearer assertion good
   * until `deadline`, accepted strictly and then under one minute of skew, is accepted twice.
   */
  lemma GrowingSkewReadmits(deadline: Instant)
    requires MIN_INSTANT < deadline && deadline + FromMillis(60_000) <= MAX_INSTANT
    ensures var s := State(deadline - 1, map[]);
            && AcceptedResponse(s, BearerOnlyStep(deadline, 0)).Some?
            && AcceptedAgain(s, BearerOnlyStep(deadline, 0), BearerOnlyStep(deadline, 60_000))
  {
    hide AcceptEnd, ReplayBound, AcceptableContent, AcceptedResponse, AcceptedAgain;
    var s := State(deadline - 1, map[]);
    BearerOnlyWindow(deadline, 0);
    BearerOnlyWindow(deadline, 60_000);
    SecondCallAccepts(s, BearerOnlyStep(deadline, 0));
    AcceptedAgainIffWindowOutlivesRetention(s, BearerOnlyStep(deadline, 0), BearerOnlyStep(deadline, 60_000));
  }

  lemma SingleConfirmationWindow(c: SubjectConfirmation, skew: ClockSkew, e: Expectation)
    requires c.confirmationMethod == Some(BEARER) && c.parsesInFlow && c.parsesByDefault
    requires |c.data| == 1 && c.data[0].notOnOrAfter.Some? && c.data[0].notOnOrAfter.value.At?
    requires c.data[0].recipient == Some(e.recipient) && e.inResponseTo.None? && c.data[0].inResponseTo.None?
    requires CheckedAdd(c.data[0].notOnOrAfter.value.t, FromMillis(skew.notOnOrAfter)).Some?
    ensures var end := c.data[0].notOnOrAfter.value.t + FromMillis(skew.notOnOrAfter);
            && Maximum(ConfirmationEnds([c], skew, e)) == Some(end)
            && LatestBearer([c], None) == Ok(Some(c.data[0].notOnOrAfter.value.t))
            && WebSso.RejectRequestBound([c]).Ok?
  {
    var end := c.data[0].notOnOrAfter.value.t + FromMillis(skew.notOnOrAfter);
    assert [c][1..] == [] && c.data[1..] == [];
    assert WebSso.FirstInResponseTo(c.data) == None;
    assert WebSso.RejectRequestBound([c]) == WebSso.RejectRequestBound([c][1..]);
    assert ConfirmationEnds([c], skew, e) == [end];
    assert [end][..0] == [];
  }

  // ----- pending requests complete once

  /**
   * Over every run a pending AuthnRequest completes at most once. Two completions can share
   * its identifier only if the second was presented with a later deadline.
   */
  lemma PendingAuthnRequestCompletesAtMostOnce(states: seq<State>, steps: seq<Step>, i: nat, j: nat)
    requires Run(states, steps) && i < |steps| && j < |steps|
    requires steps[i].FinishSso? && AcceptedResponse(states[i], steps[i]).Some?
    requires steps[j].FinishSso? && AcceptedResponse(states[j], steps[j]).Some?
    requires steps[i].pending.id == steps[j].pending.id
    requires CompletionDeadline(steps[i].pending) == CompletionDeadline(steps[j].pending)
    ensures i == j
  {
    if i < j {
      SecondSsoCompletionNeedsALaterDeadline(states, steps, i, j);
    } else if j < i {
      SecondSsoCompletionNeedsALaterDeadline(states, steps, j, i);
    }
  }

  lemma SecondSsoCompletionNeedsALaterDeadline(states: seq<State>, steps: seq<Step>, i: nat, j: nat)
    requires Run(states, steps) && i < j < |steps|
    requires steps[i].FinishSso? && AcceptedResponse(states[i], steps[i]).Some?
    requires steps[j].FinishSso? && AcceptedResponse(states[j], steps[j]).Some?
    requires steps[i].pending.id == steps[j].pending.id
    ensures var d1, d2 := CompletionDeadline(steps[i].pending), CompletionDeadline(steps[j].pending);
            d1.Ok? && d1.value.Some? && d2.Ok? && d2.value.Some? && d1.value.value <= states[j].clock < d2.value.value
  {
    hide AcceptedResponse, Next, Legal, CompletionDeadline, ReplayKey.CacheKey;
    SsoCompletionStores(states[i], steps[i]);
    SsoCompletionStores(states[j], steps[j]);
    var deadline := CompletionDeadline(steps[i].pending).value.value;
    RunKeepsHeld(states, steps, i + 1, j, CompletedAuthnRequestId(steps[i].pending.id), deadline);
  }

  lemma SsoCompletionStores(s: State, step: Step)
    requires step.FinishSso? && AcceptedResponse(s, step).Some?
    ensures var deadline := CompletionDeadline(step.pending);
            && deadline.Ok? && deadline.value.Some? && s.clock < deadline.value.value
            && CompletedAuthnRequestId(step.pending.id).CacheKey() !in s.entries
            && Held(Next(s, step), CompletedAuthnRequestId(step.pending.id), deadline.value.value)
  {
    hide WebSso.FlowVerdict, WebSso.SessionReplay, ReplayKey.CacheKey;
    SessionReplayExtends(AcceptedResponse(s, step).value, step.settings.At(s.clock), s.entries);
  }

  lemma PendingLogoutRequestCompletesAtMostOnce(states: seq<State>, steps: seq<Step>, i: nat, j: nat)
    requires Run(states, steps) && i < |steps| && j < |steps|
    requires CompletedLogout(states[i], steps[i]).Some? && CompletedLogout(states[j], steps[j]).Some?
    requires steps[i].logout.id == steps[j].logout.id
    requires CompletionDeadline(steps[i].logout) == CompletionDeadline(steps[j].logout)
    ensures i == j
  {
    if i < j {
      SecondSloCompletionNeedsALaterDeadline(states, steps, i, j);
    } else if j < i {
      SecondSloCompletionNeedsALaterDeadline(states, steps, j, i);
    }
  }

  lemma SecondSloCompletionNeedsALaterDeadline(states: seq<State>, steps: seq<Step>, i: nat, j: nat)
    requires Run(states, steps) && i < j < |steps|
    requires CompletedLogout(states[i], steps[i]).Some? && CompletedLogout(states[j], steps[j]).Some?
    requires steps[i].logout.id == steps[j].logout.id
    ensures var d1, d2 := CompletionDeadline(steps[i].logout), CompletionDeadline(steps[j].logout);
            d1.Ok? && d1.value.Some? && d2.Ok? && d2.value.Some? && d1.value.value <= states[j].clock < d2.value.value
  {
    hide CompletedLogout, Next, Legal, CompletionDeadline, ReplayKey.CacheKey;
    SloCompletionStores(states[i], steps[i]);
    SloCompletionStores(states[j], steps[j]);
    var deadline := CompletionDeadline(steps[i].logout).value.value;
    RunKeepsHeld(states, steps, i + 1, j, CompletedLogoutRequestId(steps[i].logout.id), deadline);
  }

  lemma SloCompletionStores(s: State, step: Step)
    requires CompletedLogout(s, step).Some?
    ensures step.FinishSlo?
    ensures var deadline := CompletionDeadline(step.logout);
            && deadline.Ok? && deadline.value.Some? && s.clock < deadline.value.value
            && CompletedLogoutRequestId(step.logout.id).CacheKey() !in s.entries
            && Held(Next(s, step), CompletedLogoutRequestId(step.logout.id), deadline.value.value)
  {
    hide SingleLogout.DestinationVerdict, MetadataVerdict, MessageReplayExpiresAt;
  }

  // ----- received LogoutRequests

  /** Instant until which a received LogoutRequest is remembered. */
  function LogoutRetention(s: State, step: Step): SystemTime
    requires step.ReceiveSlo? && ReceivedLogout(s, step).Some?
  {
    var request := ReceivedLogout(s, step).value;
    match request.notOnOrAfter
    case Some(At(t)) => t + FromMillis(step.settings.skew.notOnOrAfter)
    case _ => s.clock + (match step.settings.retention case Some(r) => r case None => 0)
  }

  lemma ReceptionStores(s: State, step: Step)
    requires ReceivedLogout(s, step).Some?
    ensures step.ReceiveSlo?
    ensures var request := ReceivedLogout(s, step).value;
            && LogoutRequestId(request.id).CacheKey() !in s.entries
            && Held(Next(s, step), LogoutRequestId(request.id), LogoutRetention(s, step))
            && (request.notOnOrAfter.Some? ==> request.notOnOrAfter.value.At? && s.clock < LogoutRetention(s, step))
  {
    hide MetadataVerdict, SingleLogout.DestinationVerdict, Blank, ReplayKey.CacheKey;
  }

  /** The same LogoutRequest is received again only after the deadline or retention of the first. */
  lemma LogoutRequestReceivedAgainOnlyAfterRetention(states: seq<State>, steps: seq<Step>, i: nat, j: nat)
    requires Run(states, steps) && i < j < |steps|
    requires ReceivedLogout(states[i], steps[i]).Some? && ReceivedLogout(states[j], steps[j]).Some?
    requires ReceivedLogout(states[i], steps[i]).value.id == ReceivedLogout(states[j], steps[j]).value.id
    ensures LogoutRetention(states[i], steps[i]) <= states[j].clock
  {
    hide ReceivedLogout, Next, Legal, LogoutRetention, ReplayKey.CacheKey;
    var key := LogoutRequestId(ReceivedLogout(states[i], steps[i]).value.id);
    ReceptionStores(states[i], steps[i]);
    ReceptionStores(states[j], steps[j]);
    RunKeepsHeld(states, steps, i + 1, j, key, LogoutRetention(states[i], steps[i]));
  }

  /** With a NotOnOrAfter and a skew that does not grow, that is never. */
  lemma BoundedLogoutRequestReceivedAtMostOnce(states: seq<State>, steps: seq<Step>, i: nat, j: nat)
    requires Run(states, steps) && i < |steps| && j < |steps|
    requires ReceivedLogout(states[i], steps[i]).Some?
    requires ReceivedLogout(states[j], steps[j]) == ReceivedLogout(states[i], steps[i])
    requires ReceivedLogout(states[i], steps[i]).value.notOnOrAfter.Some?
    requires i < j ==> steps[j].settings.skew.notOnOrAfter <= steps[i].settings.skew.notOnOrAfter
    requires j < i ==> steps[i].settings.skew.notOnOrAfter <= steps[j].settings.skew.notOnOrAfter
    ensures i == j
  {
    hide ReceivedLogout, Next, Legal;
    ReceptionStores(states[i], steps[i]);
    ReceptionStores(states[j], steps[j]);
    if i < j {
      LogoutRequestReceivedAgainOnlyAfterRetention(states, steps, i, j);
    } else if j < i {
      LogoutRequestReceivedAgainOnlyAfterRetention(states, steps, j, i);
    }
  }
}
