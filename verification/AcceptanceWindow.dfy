/**
 * The exact time window in which a login response is acceptable, and its relation to the
 * time its replay keys are retained.
 */
module AcceptanceWindow {
  import opened Prelude
  import opened Instants
  import opened SsoSession

  // ----- when each bound stops accepting

  function Shifted(t: Instant, skewMs: Millis): Option<Instant> {
    CheckedAdd(t, FromMillis(skewMs))
  }

  /** End of one confirmation's validity, None if no instant makes it valid. */
  function ConfirmationEnd(c: SubjectConfirmation, skew: ClockSkew, e: Expectation): Option<Instant> {
    if && c.confirmationMethod == Some(BEARER)
       && |c.data| == 1
       && c.data[0].notOnOrAfter.Some? && c.data[0].notOnOrAfter.value.At?
       && c.data[0].recipient == Some(e.recipient)
       && (e.inResponseTo.Some? ==> c.data[0].inResponseTo == e.inResponseTo)
    then Shifted(c.data[0].notOnOrAfter.value.t, skew.notOnOrAfter)
    else None
  }

  /** Ends of the confirmations the flow can reach: the first unreadable one stops it. */
  function ConfirmationEnds(cs: seq<SubjectConfirmation>, skew: ClockSkew, e: Expectation): seq<Instant> {
    if cs == [] || !cs[0].parsesInFlow then []
    else Listed(ConfirmationEnd(cs[0], skew, e)) + ConfirmationEnds(cs[1..], skew, e)
  }

  /** The session bound: None when it rejects at every instant, else its end if it has one. */
  function SessionEnd(a: Assertion, skew: ClockSkew): Option<Option<Instant>> {
    match EarliestOf(Present(a.sessionBounds), SessionNotOnOrAfter)
    case Err(_) => None
    case Ok(None) => Some(None)
    case Ok(Some(raw)) => match Shifted(raw, skew.notOnOrAfter) case None => None case Some(t) => Some(Some(t))
  }

  function ConditionsEnd(a: Assertion, skew: ClockSkew): Option<Option<Instant>> {
    match ConditionsTimeBounds(a)
    case Err(_) => None
    case Ok(c) =>
      match c.notOnOrAfter
      case None => Some(None)
      case Some(Unparseable) => None
      case Some(At(t)) => match Shifted(t, skew.notOnOrAfter) case None => None case Some(end) => Some(Some(end))
  }

  /** NotBefore, which only delays acceptance. */
  predicate Begun(a: Assertion, skew: ClockSkew, now: Instant) {
    ConditionsTimeBounds(a).Ok? &&
    match ConditionsTimeBounds(a).value.notBefore
    case None => true
    case Some(nb) => nb.At? && LowerBoundMet(nb.t, skew, now)
  }

  function Earlier(x: Instant, y: Option<Instant>): Instant {
    if y.Some? && y.value < x then y.value else x
  }

  /** The instant from which the response is no longer acceptable; None if it never is. */
  function AcceptEnd(resp: Response, e: Expectation, skew: ClockSkew): Option<Instant> {
    var bearer := Maximum(ConfirmationEnds(resp.assertion.confirmations, skew, e));
    var session := SessionEnd(resp.assertion, skew);
    var conditions := ConditionsEnd(resp.assertion, skew);
    if e.inResponseTo.Some? && resp.inResponseTo != e.inResponseTo then None
    else if DestinationVerdict(resp, e).Err? || e.audience.Err? then None
    else if bearer.None? || session.None? || conditions.None? then None
    else Some(Earlier(Earlier(bearer.value, session.value), conditions.value))
  }

  ghost predicate Live(ends: seq<Instant>, now: Instant) {
    exists t :: t in ends && now < t
  }

  lemma LiveConcat(xs: seq<Instant>, ys: seq<Instant>, now: Instant)
    ensures Live(xs + ys, now) <==> Live(xs, now) || Live(ys, now)
  {
    if Live(xs, now) {
      var t :| t in xs && now < t;
      assert t in xs + ys;
    } else if Live(ys, now) {
      var t :| t in ys && now < t;
      assert t in xs + ys;
    }
  }

  lemma LiveIsMaximum(ends: seq<Instant>, now: Instant)
    ensures Live(ends, now) <==> Maximum(ends).Some? && now < Maximum(ends).value
  {
    MaximumIsGreatest(ends);
    if Live(ends, now) {
      var t :| t in ends && now < t;
      assert t <= Maximum(ends).value;
    }
  }

  lemma {:induction false} ConfirmationVerdictIsAWindow(
    cs: seq<SubjectConfirmation>, skew: ClockSkew, now: Instant, e: Expectation, reason: ConfirmationReason)
    ensures SubjectConfirmationVerdict(cs, skew, now, e, reason).Ok? <==> Live(ConfirmationEnds(cs, skew, e), now)
  {
    if cs != [] && cs[0].parsesInFlow {
      var fault := BearerFault(cs[0], skew, now, e);
      var end := ConfirmationEnd(cs[0], skew, e);
      LiveConcat(Listed(end), ConfirmationEnds(cs[1..], skew, e), now);
      assert fault.None? <==> Live(Listed(end), now) by {
        assert fault.None? <==> end.Some? && now < end.value;
        assert end.Some? ==> end.value in Listed(end);
      }
      if fault.Some? {
        ConfirmationVerdictIsAWindow(cs[1..], skew, now, e, fault.value);
      }
    }
  }

  /** The whole validation is one half-open interval of instants, NotBefore aside. */
  lemma AcceptanceIsAWindow(resp: Response, e: Expectation, skew: ClockSkew, now: Instant)
    ensures ValidateContext(resp, e, skew, now).Ok? <==>
            var end := AcceptEnd(resp, e, skew);
            end.Some? && Begun(resp.assertion, skew, now) && now < end.value
  {
    hide SubjectConfirmationVerdict, ConfirmationEnds, SessionVerdict, SessionEnd, ConditionsVerdict, ConditionsEnd,
         DestinationVerdict, Begun, Live, Maximum;
    var a := resp.assertion;
    ConfirmationVerdictIsAWindow(a.confirmations, skew, now, e, MissingBearerConfirmation);
    LiveIsMaximum(ConfirmationEnds(a.confirmations, skew, e), now);
    SessionVerdictIsAWindow(a, skew, now);
    ConditionsVerdictIsAWindow(a, skew, now);
  }

  lemma SessionVerdictIsAWindow(a: Assertion, skew: ClockSkew, now: Instant)
    ensures SessionVerdict(a, skew, now).Ok? <==>
            var end := SessionEnd(a, skew);
            end.Some? && (end.value.Some? ==> now < end.value.value)
  {
  }

  lemma ConditionsVerdictIsAWindow(a: Assertion, skew: ClockSkew, now: Instant)
    ensures ConditionsVerdict(a, skew, now).Ok? <==>
            var end := ConditionsEnd(a, skew);
            end.Some? && (end.value.Some? ==> now < end.value.value) && Begun(a, skew, now)
  {
  }

  // ----- the stored expiry

  ghost predicate IsEarliest(t: Instant, stamps: seq<Stamp>) {
    At(t) in stamps && forall s :: s in stamps ==> s.At? && t <= s.t
  }

  ghost predicate IsLatest(t: Instant, stamps: seq<Stamp>) {
    At(t) in stamps && forall s :: s in stamps ==> s.At? && s.t <= t
  }

  /** `raw` is the least of the Conditions bound, the earliest session bound and the latest bearer bound. */
  ghost predicate IsStoredDeadline(raw: Instant, upper: Option<Stamp>, sessions: seq<Stamp>, bearers: seq<Stamp>) {
    && (upper.Some? ==> upper.value.At? && raw <= upper.value.t)
    && (sessions != [] ==> exists t :: IsEarliest(t, sessions) && raw <= t)
    && (bearers != [] ==> exists t :: IsLatest(t, bearers) && raw <= t)
    && (upper == Some(At(raw)) || IsEarliest(raw, sessions) || IsLatest(raw, bearers))
  }

  lemma MinimumOfThree(x: Option<Instant>, y: Option<Instant>, z: Option<Instant>, raw: Instant)
    requires Minimum(Listed(x) + Listed(y) + Listed(z)) == Some(raw)
    ensures (x.Some? ==> raw <= x.value) && (y.Some? ==> raw <= y.value) && (z.Some? ==> raw <= z.value)
    ensures x == Some(raw) || y == Some(raw) || z == Some(raw)
  {
    var all := Listed(x) + Listed(y) + Listed(z);
    MinimumIsLeast(all);
    assert x.Some? ==> all[0] == x.value && x.value in all;
    assert y.Some? ==> all[|Listed(x)|] == y.value && y.value in all;
    assert z.Some? ==> all[|Listed(x)| + |Listed(y)|] == z.value && z.value in all;
  }

  lemma EarliestIsEarliest(stamps: seq<Stamp>, field: TimeField)
    requires EarliestOf(stamps, field).Ok?
    ensures EarliestOf(stamps, field).value.None? <==> stamps == []
    ensures EarliestOf(stamps, field).value.Some? ==> IsEarliest(EarliestOf(stamps, field).value.value, stamps)
  {
    var earliest := EarliestOf(stamps, field).value;
    MinimumIsLeast(Parsed(stamps));
    if earliest.Some? {
      ParsedMembers(stamps, earliest.value);
    }
    forall s | s in stamps
      ensures s.At? && earliest.Some? && earliest.value <= s.t
    {
      ParsedMembers(stamps, s.t);
    }
    if stamps != [] {
      assert stamps[0] in stamps;
    }
  }

  lemma LatestBearerIsLatest(cs: seq<SubjectConfirmation>)
    requires LatestBearer(cs, None).Ok?
    ensures LatestBearer(cs, None).value.None? <==> BearerStamps(cs) == []
    ensures LatestBearer(cs, None).value.Some? ==> IsLatest(LatestBearer(cs, None).value.value, BearerStamps(cs))
  {
    LatestBearerIsMaximum(cs, None);
  }

  lemma RawDeadlineIsTheMinimum(a: Assertion)
    requires RawDeadline(a).Ok?
    ensures ConditionsTimeBounds(a).Ok?
    ensures IsStoredDeadline(RawDeadline(a).value, ConditionsTimeBounds(a).value.notOnOrAfter,
                             Present(a.sessionBounds), BearerStamps(a.confirmations))
  {
    var raw := RawDeadline(a).value;
    var upper := ConditionsTimeBounds(a).value.notOnOrAfter;
    var session := EarliestOf(Present(a.sessionBounds), ReplayExpiration).value;
    var bearer := LatestBearer(a.confirmations, None).value;
    MinimumOfThree(if upper.Some? then Some(upper.value.t) else None, session, bearer, raw);
    EarliestIsEarliest(Present(a.sessionBounds), ReplayExpiration);
    LatestBearerIsLatest(a.confirmations);
  }

  /** The stored expiry is min(Conditions, earliest session, latest bearer) + skew. */
  lemma StoredExpiryIsTheMinimum(a: Assertion, skewMs: Millis)
    requires ReplayBound(a, skewMs).Ok?
    ensures ConditionsTimeBounds(a).Ok? && RawDeadline(a).Ok?
    ensures IsStoredDeadline(RawDeadline(a).value, ConditionsTimeBounds(a).value.notOnOrAfter,
                             Present(a.sessionBounds), BearerStamps(a.confirmations))
    ensures ReplayBound(a, skewMs).value == RawDeadline(a).value + FromMillis(skewMs)
  {
    RawDeadlineIsTheMinimum(a);
  }

  lemma {:induction false} BearerEndsAreRetained(
      cs: seq<SubjectConfirmation>, skew: ClockSkew, e: Expectation, t: Instant)
    requires t in ConfirmationEnds(cs, skew, e)
    ensures exists s :: s in BearerStamps(cs) && s.At? && t == s.t + FromMillis(skew.notOnOrAfter)
  {
    var end := ConfirmationEnd(cs[0], skew, e);
    if end == Some(t) {
      assert FirstNotOnOrAfter(cs[0].data) == cs[0].data[0].notOnOrAfter;
      assert cs[0].data[0].notOnOrAfter.value in BearerStamps(cs);
    } else {
      BearerEndsAreRetained(cs[1..], skew, e, t);
      var s :| s in BearerStamps(cs[1..]) && s.At? && t == s.t + FromMillis(skew.notOnOrAfter);
      assert s in BearerStamps(cs);
    }
  }

  /**
   * Retention covers acceptance: under one skew the flow stops accepting no later than the
   * stored expiry, although it reads bearer data through a stricter extractor and takes a
   * different mix of earliest and latest deadlines.
   */
  lemma AcceptanceEndsBeforeRetention(resp: Response, e: Expectation, skew: ClockSkew)
    requires AcceptEnd(resp, e, skew).Some?
    requires ReplayBound(resp.assertion, skew.notOnOrAfter).Ok?
    ensures AcceptEnd(resp, e, skew).value <= ReplayBound(resp.assertion, skew.notOnOrAfter).value
  {
    var a := resp.assertion;
    var ends := ConfirmationEnds(a.confirmations, skew, e);
    MaximumIsGreatest(ends);
    BearerEndsAreRetained(a.confirmations, skew, e, Maximum(ends).value);
    EarliestIsEarliest(Present(a.sessionBounds), SessionNotOnOrAfter);
    StoredExpiryIsTheMinimum(a, skew.notOnOrAfter);
  }

  /** Between two skews the stored expiry moves by exactly their difference. */
  lemma StoredExpiryShiftsWithSkew(a: Assertion, s1: Millis, s2: Millis)
    requires ReplayBound(a, s1).Ok? && ReplayBound(a, s2).Ok?
    ensures ReplayBound(a, s2).value - ReplayBound(a, s1).value == FromMillis(s2) - FromMillis(s1)
  {
  }
}
