/**
 * What a response must say to be accepted, and how long its keys are kept, said outright of
 * the parsed response: the flow's checks (src/flow.rs, src/validator.rs) and the retention
 * rule (src/model/sso.rs) mean exactly this.
 */
module ResponseChecks {
  import opened Prelude
  import opened Instants
  import opened SsoSession
  import opened AcceptanceWindow

  // ----- the clock

  predicate ClockReads(now: SystemTime) {
    MIN_INSTANT <= now <= MAX_INSTANT
  }

  /** A deadline that has a stamp, and with its drift lies ahead and in range. */
  predicate Ahead(deadline: Option<Stamp>, driftMs: Millis, now: SystemTime) {
    && deadline.Some? && deadline.value.At?
    && now < deadline.value.t + driftMs * 1_000_000 <= MAX_INSTANT
  }

  // ----- a response that may be accepted

  /** One bearer confirmation with a single data element that names the recipient and the request, in time. */
  predicate LiveBearer(
    c: SubjectConfirmation, recipient: string, request: Option<string>, driftMs: Millis, now: SystemTime)
  {
    && c.confirmationMethod == Some(BEARER) && |c.data| == 1
    && c.data[0].recipient == Some(recipient)
    && (request.Some? ==> c.data[0].inResponseTo == request)
    && Ahead(c.data[0].notOnOrAfter, driftMs, now)
  }

  /** A live confirmation is reached: it and all before it can be read. */
  ghost predicate ReachesLiveBearer(
    cs: seq<SubjectConfirmation>, recipient: string, request: Option<string>, driftMs: Millis, now: SystemTime)
  {
    exists i :: && 0 <= i < |cs| && LiveBearer(cs[i], recipient, request, driftMs, now)
                && forall j :: 0 <= j <= i ==> cs[j].parsesInFlow
  }

  /** Every session bound lies ahead, and the first to come is in range with its drift. */
  ghost predicate SessionsAhead(bounds: seq<Option<Stamp>>, driftMs: Millis, now: SystemTime) {
    && (forall b :: b in bounds && b.Some? ==> b.value.At? && now < b.value.t + driftMs * 1_000_000)
    && ((exists b :: b in bounds && b.Some?) ==> exists b :: b in bounds && Ahead(b, driftMs, now))
  }

  /** At most one Conditions element, whose window contains the instant. */
  predicate ConditionsHold(conditions: seq<Conditions>, skew: ClockSkew, now: SystemTime) {
    && |conditions| <= 1
    && forall c :: c in conditions ==>
        && (c.notBefore.Some? ==>
              c.notBefore.value.At? && MIN_INSTANT <= c.notBefore.value.t + skew.notBefore * 1_000_000 <= now)
        && (c.notOnOrAfter.Some? ==> Ahead(c.notOnOrAfter, skew.notOnOrAfter, now))
  }

  predicate Addressed(destination: Option<string>, recipient: string, authenticated: bool) {
    if destination.Some? then destination.value == recipient else !authenticated
  }

  ghost predicate Acceptable(resp: Response, e: Expectation, skew: ClockSkew, now: SystemTime) {
    && (e.inResponseTo.Some? ==> resp.inResponseTo == e.inResponseTo)
    && Addressed(resp.destination, e.recipient, e.responseAuthenticated)
    && ReachesLiveBearer(resp.assertion.confirmations, e.recipient, e.inResponseTo, skew.notOnOrAfter, now)
    && e.audience.Ok?
    && SessionsAhead(resp.assertion.sessionBounds, skew.notOnOrAfter, now)
    && ConditionsHold(resp.assertion.conditions, skew, now)
  }

  lemma {:induction false} LiveBearerIsReached(
    cs: seq<SubjectConfirmation>, skew: ClockSkew, now: Instant, e: Expectation, reason: ConfirmationReason)
    ensures SubjectConfirmationVerdict(cs, skew, now, e, reason).Ok? <==>
            ReachesLiveBearer(cs, e.recipient, e.inResponseTo, skew.notOnOrAfter, now)
  {
    if cs != [] && cs[0].parsesInFlow {
      var fault := BearerFault(cs[0], skew, now, e);
      assert fault.None? <==> LiveBearer(cs[0], e.recipient, e.inResponseTo, skew.notOnOrAfter, now);
      if fault.Some? {
        LiveBearerIsReached(cs[1..], skew, now, e, fault.value);
        ReachedLater(cs, e.recipient, e.inResponseTo, skew.notOnOrAfter, now);
      }
    }
  }

  lemma ReachedLater(
    cs: seq<SubjectConfirmation>, recipient: string, request: Option<string>, driftMs: Millis, now: SystemTime)
    requires cs != [] && cs[0].parsesInFlow && !LiveBearer(cs[0], recipient, request, driftMs, now)
    ensures ReachesLiveBearer(cs, recipient, request, driftMs, now) <==>
            ReachesLiveBearer(cs[1..], recipient, request, driftMs, now)
  {
    hide LiveBearer;
    if ReachesLiveBearer(cs, recipient, request, driftMs, now) {
      var i :| && 0 <= i < |cs| && LiveBearer(cs[i], recipient, request, driftMs, now)
               && forall j :: 0 <= j <= i ==> cs[j].parsesInFlow;
      assert cs[1..][i - 1] == cs[i];
      assert forall j :: 0 <= j <= i - 1 ==> cs[1..][j] == cs[j + 1];
    }
    if ReachesLiveBearer(cs[1..], recipient, request, driftMs, now) {
      var i :| && 0 <= i < |cs[1..]| && LiveBearer(cs[1..][i], recipient, request, driftMs, now)
               && forall j :: 0 <= j <= i ==> cs[1..][j].parsesInFlow;
      assert cs[i + 1] == cs[1..][i];
      assert forall j :: 0 < j <= i + 1 ==> cs[j] == cs[1..][j - 1];
    }
  }

  lemma {:induction false} PresentMembers(bounds: seq<Option<Stamp>>, s: Stamp)
    ensures s in Present(bounds) <==> Some(s) in bounds
  {
    if bounds != [] {
      PresentMembers(bounds[1..], s);
      assert bounds == [bounds[0]] + bounds[1..];
    }
  }

  lemma SessionVerdictIsAhead(a: Assertion, skew: ClockSkew, now: Instant)
    ensures SessionVerdict(a, skew, now).Ok? <==> SessionsAhead(a.sessionBounds, skew.notOnOrAfter, now)
  {
    var stamps := Present(a.sessionBounds);
    forall s ensures s in stamps <==> Some(s) in a.sessionBounds {
      PresentMembers(a.sessionBounds, s);
    }
    if EarliestOf(stamps, SessionNotOnOrAfter).Ok? {
      EarliestIsEarliest(stamps, SessionNotOnOrAfter);
      if stamps != [] {
        assert stamps[0] in stamps;
      }
    }
  }

  lemma ConditionsVerdictHolds(a: Assertion, skew: ClockSkew, now: Instant)
    ensures ConditionsVerdict(a, skew, now).Ok? <==> ConditionsHold(a.conditions, skew, now)
  {
    if |a.conditions| == 1 {
      assert a.conditions[0] in a.conditions;
    }
  }

  /** The flow's validation accepts exactly the responses that meet the expectation, in time. */
  lemma ValidContextIsAcceptable(resp: Response, e: Expectation, skew: ClockSkew, now: Instant)
    ensures ValidateContext(resp, e, skew, now).Ok? <==> Acceptable(resp, e, skew, now)
  {
    hide SubjectConfirmationVerdict, ReachesLiveBearer, SessionVerdict, SessionsAhead, ConditionsVerdict,
         ConditionsHold;
    LiveBearerIsReached(resp.assertion.confirmations, skew, now, e, MissingBearerConfirmation);
    SessionVerdictIsAhead(resp.assertion, skew, now);
    ConditionsVerdictHolds(resp.assertion, skew, now);
  }

  // ----- how long the keys are kept

  /** A bearer confirmation's deadline: the first that its data elements give. */
  ghost predicate BearerDeadline(c: SubjectConfirmation, s: Stamp) {
    && c.confirmationMethod == Some(BEARER)
    && exists k :: && 0 <= k < |c.data| && c.data[k].notOnOrAfter == Some(s)
                   && forall j :: 0 <= j < k ==> c.data[j].notOnOrAfter.None?
  }

  /** Everything that retention reads can be read. */
  ghost predicate DeadlinesReadable(a: Assertion) {
    ConditionsReadable(a.conditions) && SessionsReadable(a.sessionBounds) && BearersReadable(a.confirmations)
  }

  predicate ConditionsReadable(conditions: seq<Conditions>) {
    && |conditions| <= 1
    && forall c :: c in conditions && c.notOnOrAfter.Some? ==> c.notOnOrAfter.value.At?
  }

  predicate SessionsReadable(bounds: seq<Option<Stamp>>) {
    forall b :: b in bounds && b.Some? ==> b.value.At?
  }

  ghost predicate BearersReadable(cs: seq<SubjectConfirmation>) {
    && (forall c :: c in cs ==> c.parsesByDefault)
    && forall c, s :: c in cs && BearerDeadline(c, s) ==> s.At?
  }

  /** The instant is no later than any Conditions or session bound, nor than the latest bearer deadline. */
  ghost predicate BeforeEveryBound(a: Assertion, raw: Instant) {
    && (forall c :: c in a.conditions && c.notOnOrAfter.Some? && c.notOnOrAfter.value.At? ==>
          raw <= c.notOnOrAfter.value.t)
    && (forall b :: b in a.sessionBounds && b.Some? && b.value.At? ==> raw <= b.value.t)
    && ((exists c, s :: c in a.confirmations && BearerDeadline(c, s)) ==>
          exists c, s :: c in a.confirmations && BearerDeadline(c, s) && s.At? && raw <= s.t)
  }

  /** The instant is one of these bounds. */
  ghost predicate IsABound(a: Assertion, raw: Instant) {
    || (exists c :: c in a.conditions && c.notOnOrAfter == Some(At(raw)))
    || Some(At(raw)) in a.sessionBounds
    || (&& (exists c :: c in a.confirmations && BearerDeadline(c, At(raw)))
        && forall c, s :: c in a.confirmations && BearerDeadline(c, s) && s.At? ==> s.t <= raw)
  }

  /** The least of the Conditions bound, the session bounds and the latest bearer deadline, and the drift. */
  ghost predicate KeptUntil(a: Assertion, driftMs: Millis, until: Instant) {
    exists raw: Instant ::
      && DeadlinesReadable(a) && BeforeEveryBound(a, raw) && IsABound(a, raw)
      && until == raw + driftMs * 1_000_000
  }

  lemma {:induction false} FirstNotOnOrAfterIsFirst(data: seq<ConfirmationData>, s: Stamp)
    ensures FirstNotOnOrAfter(data) == Some(s) <==>
            exists k :: && 0 <= k < |data| && data[k].notOnOrAfter == Some(s)
                        && forall j :: 0 <= j < k ==> data[j].notOnOrAfter.None?
  {
    if data != [] && data[0].notOnOrAfter.None? {
      FirstNotOnOrAfterIsFirst(data[1..], s);
      if FirstNotOnOrAfter(data) == Some(s) {
        var k :| && 0 <= k < |data[1..]| && data[1..][k].notOnOrAfter == Some(s)
                 && forall j :: 0 <= j < k ==> data[1..][j].notOnOrAfter.None?;
        assert data[k + 1].notOnOrAfter == Some(s);
        assert forall j :: 0 < j < k + 1 ==> data[j] == data[1..][j - 1];
      }
    }
  }

  lemma {:induction false} BearerStampsAreDeadlines(cs: seq<SubjectConfirmation>, s: Stamp)
    ensures s in BearerStamps(cs) <==> exists c :: c in cs && BearerDeadline(c, s)
  {
    hide BearerDeadline;
    if cs != [] {
      BearerStampsAreDeadlines(cs[1..], s);
      StampIsDeadline(cs[0], s);
      assert cs == [cs[0]] + cs[1..];
    }
  }

  lemma StampIsDeadline(c: SubjectConfirmation, s: Stamp)
    ensures BearerDeadline(c, s) <==> c.confirmationMethod == Some(BEARER) && FirstNotOnOrAfter(c.data) == Some(s)
  {
    FirstNotOnOrAfterIsFirst(c.data, s);
  }

  lemma {:induction false} LatestBearerReads(cs: seq<SubjectConfirmation>, latest: Option<Instant>)
    ensures LatestBearer(cs, latest).Ok? <==>
            (forall c :: c in cs ==> c.parsesByDefault) && (forall s :: s in BearerStamps(cs) ==> s.At?)
  {
    if cs != [] {
      assert cs == [cs[0]] + cs[1..];
      if cs[0].confirmationMethod != Some(BEARER) || FirstNotOnOrAfter(cs[0].data).None? {
        LatestBearerReads(cs[1..], latest);
      } else if FirstNotOnOrAfter(cs[0].data).value.At? {
        var t := FirstNotOnOrAfter(cs[0].data).value.t;
        LatestBearerReads(cs[1..], if latest.Some? && latest.value >= t then latest else Some(t));
      }
    }
  }

  lemma StampsOf(a: Assertion)
    ensures forall s :: s in Present(a.sessionBounds) <==> Some(s) in a.sessionBounds
    ensures forall s :: s in BearerStamps(a.confirmations) <==>
                        exists c :: c in a.confirmations && BearerDeadline(c, s)
  {
    hide BearerDeadline;
    forall s ensures s in Present(a.sessionBounds) <==> Some(s) in a.sessionBounds {
      PresentMembers(a.sessionBounds, s);
    }
    forall s
      ensures s in BearerStamps(a.confirmations) <==> exists c :: c in a.confirmations && BearerDeadline(c, s)
    {
      BearerStampsAreDeadlines(a.confirmations, s);
    }
  }

  lemma ConditionsRead(a: Assertion)
    ensures ConditionsReadable(a.conditions) <==>
            && ConditionsTimeBounds(a).Ok?
            && var upper := ConditionsTimeBounds(a).value.notOnOrAfter;
               upper.Some? ==> upper.value.At?
    ensures ConditionsReadable(a.conditions) ==>
              (ConditionsTimeBounds(a).value.notOnOrAfter.Some? <==>
                 exists c :: c in a.conditions && c.notOnOrAfter.Some?)
  {
    if |a.conditions| == 1 {
      assert a.conditions[0] in a.conditions;
    }
  }

  lemma SessionsRead(a: Assertion)
    ensures EarliestOf(Present(a.sessionBounds), ReplayExpiration).Ok? <==> SessionsReadable(a.sessionBounds)
  {
    StampsOf(a);
    assert forall b :: b in a.sessionBounds && b.Some? ==> b.value in Present(a.sessionBounds);
  }

  lemma BearersRead(a: Assertion)
    ensures LatestBearer(a.confirmations, None).Ok? <==> BearersReadable(a.confirmations)
  {
    hide BearerDeadline, LatestBearer;
    LatestBearerReads(a.confirmations, None);
    StampsOf(a);
  }

  /** The raw deadline exists exactly when everything reads and some bound is there. */
  lemma RawDeadlineReads(a: Assertion)
    ensures RawDeadline(a).Ok? <==>
            && DeadlinesReadable(a)
            && (|| (exists c :: c in a.conditions && c.notOnOrAfter.Some?) || Present(a.sessionBounds) != []
                || BearerStamps(a.confirmations) != [])
  {
    hide LatestBearer, EarliestOf, ConditionsTimeBounds, ConditionsReadable, SessionsReadable, BearersReadable;
    ConditionsRead(a);
    SessionsRead(a);
    BearersRead(a);
    if DeadlinesReadable(a) {
      EarliestIsEarliest(Present(a.sessionBounds), ReplayExpiration);
      LatestBearerIsLatest(a.confirmations);
      MinimumIsLeast(RetentionCandidates(a).value);
    }
  }

  lemma RawDeadlineIsABound(a: Assertion)
    requires RawDeadline(a).Ok?
    ensures BeforeEveryBound(a, RawDeadline(a).value) && IsABound(a, RawDeadline(a).value)
  {
    hide BearerDeadline, RawDeadline;
    RawDeadlineIsTheMinimum(a);
    var raw := RawDeadline(a).value;
    StampsOf(a);
    if |a.conditions| == 1 {
      assert a.conditions[0] in a.conditions;
    }
    if c, s :| c in a.confirmations && BearerDeadline(c, s) {
      assert s in BearerStamps(a.confirmations);
      var t :| IsLatest(t, BearerStamps(a.confirmations)) && raw <= t;
      assert At(t) in BearerStamps(a.confirmations);
    }
  }

  /** Only one instant is one of the bounds and before them all. */
  lemma TheBoundIsOne(a: Assertion, x: Instant, y: Instant)
    requires DeadlinesReadable(a)
    requires BeforeEveryBound(a, x) && IsABound(a, x) && BeforeEveryBound(a, y) && IsABound(a, y)
    ensures x == y
  {
    hide BearerDeadline;
  }

  lemma ABoundIsThere(a: Assertion, raw: Instant)
    requires DeadlinesReadable(a) && IsABound(a, raw)
    ensures RawDeadline(a).Ok?
  {
    hide BearerDeadline, RawDeadline;
    RawDeadlineReads(a);
    PresentMembers(a.sessionBounds, At(raw));
    BearerStampsAreDeadlines(a.confirmations, At(raw));
  }

  /** Retention is exact, its error cases included. */
  lemma RetentionIsKeptUntil(a: Assertion, driftMs: Millis, until: Instant)
    ensures ReplayBound(a, driftMs) == Ok(until) <==> KeptUntil(a, driftMs, until)
  {
    hide RawDeadline, DeadlinesReadable, BeforeEveryBound, IsABound;
    RawDeadlineReads(a);
    if RawDeadline(a).Ok? {
      RawDeadlineIsABound(a);
    }
    if KeptUntil(a, driftMs, until) {
      var raw: Instant :| && DeadlinesReadable(a) && BeforeEveryBound(a, raw) && IsABound(a, raw)
                          && until == raw + driftMs * 1_000_000;
      ABoundIsThere(a, raw);
      TheBoundIsOne(a, raw, RawDeadline(a).value);
    }
  }
}
