/**
 * A parsed login response: when the flow accepts it (src/flow.rs, validate_context)
 * and how long its replay keys are kept (src/model/sso.rs).
 *
 * The two sides read the same XML through different extractor fields and combine the
 * deadlines differently; AcceptanceEndsBeforeRetention is what ties them together.
 */
module SsoSession {
  import opened Prelude
  import opened Instants

  const BEARER: string := "urn:oasis:names:tc:SAML:2.0:cm:bearer"

  datatype ConfirmationData = ConfirmationData(
    notOnOrAfter: Option<Stamp>,
    recipient: Option<string>,
    inResponseTo: Option<string>)

  /**
   * One SubjectConfirmation element. The two booleans say whether its source parses under
   * the service provider's XML limits and under the default limits.
   */
  datatype SubjectConfirmation = SubjectConfirmation(
    confirmationMethod: Option<string>,
    data: seq<ConfirmationData>,
    parsesInFlow: bool,
    parsesByDefault: bool)

  datatype Conditions = Conditions(notBefore: Option<Stamp>, notOnOrAfter: Option<Stamp>)

  /** An assertion: its Conditions elements and the SessionNotOnOrAfter of each AuthnStatement. */
  datatype Assertion = Assertion(
    id: string,
    conditions: seq<Conditions>,
    sessionBounds: seq<Option<Stamp>>,
    confirmations: seq<SubjectConfirmation>,
    oneTimeUse: bool)

  datatype Response = Response(
    id: string,
    inResponseTo: Option<string>,
    destination: Option<string>,
    assertion: Assertion)

  /**
   * What the service provider expects of a response it is about to accept, and what its
   * audience check, which reads no clock, says of it.
   */
  datatype Expectation = Expectation(
    recipient: string,
    inResponseTo: Option<string>,
    responseAuthenticated: bool,
    audience: Result<(), SamlError>)

  // ----- deadlines shared by both sides

  /** Values that are present, in document order. */
  function Present(bounds: seq<Option<Stamp>>): seq<Stamp> {
    if bounds == [] then []
    else (match bounds[0] case Some(s) => [s] case None => []) + Present(bounds[1..])
  }

  /** Earliest instant, None when there is no value, an error when one does not parse. */
  function EarliestOf(values: seq<Stamp>, field: TimeField): Result<Option<Instant>, SamlError> {
    if exists v :: v in values && v.Unparseable? then Err(TimeWindowInvalid(field))
    else Ok(Minimum(Parsed(values)))
  }

  function Parsed(values: seq<Stamp>): seq<Instant> {
    if values == [] then []
    else (match values[0] case At(t) => [t] case Unparseable => []) + Parsed(values[1..])
  }

  function Minimum(values: seq<Instant>): Option<Instant> {
    if values == [] then None
    else
      match Minimum(values[..|values| - 1])
      case None => Some(values[|values| - 1])
      case Some(m) => Some(if values[|values| - 1] < m then values[|values| - 1] else m)
  }

  function Maximum(values: seq<Instant>): Option<Instant> {
    if values == [] then None
    else
      match Maximum(values[..|values| - 1])
      case None => Some(values[|values| - 1])
      case Some(m) => Some(if m >= values[|values| - 1] then m else values[|values| - 1])
  }

  lemma {:induction false} MinimumIsLeast(values: seq<Instant>)
    ensures Minimum(values).None? <==> values == []
    ensures Minimum(values).Some? ==>
              Minimum(values).value in values && forall v :: v in values ==> Minimum(values).value <= v
  {
    if values != [] {
      MinimumIsLeast(values[..|values| - 1]);
      assert values == values[..|values| - 1] + [values[|values| - 1]];
    }
  }

  lemma {:induction false} MaximumIsGreatest(values: seq<Instant>)
    ensures Maximum(values).None? <==> values == []
    ensures Maximum(values).Some? ==>
              Maximum(values).value in values && forall v :: v in values ==> v <= Maximum(values).value
  {
    if values != [] {
      MaximumIsGreatest(values[..|values| - 1]);
      assert values == values[..|values| - 1] + [values[|values| - 1]];
    }
  }

  lemma {:induction false} ParsedMembers(values: seq<Stamp>, t: Instant)
    ensures t in Parsed(values) <==> At(t) in values
  {
    if values != [] {
      ParsedMembers(values[1..], t);
      assert values == [values[0]] + values[1..];
    }
  }

  lemma {:induction false} ParsedSnoc(values: seq<Stamp>, v: Stamp)
    ensures Parsed(values + [v]) == Parsed(values) + (if v.At? then [v.t] else [])
  {
    if values != [] {
      ParsedSnoc(values[1..], v);
      assert (values + [v])[1..] == values[1..] + [v];
    }
  }

  lemma MinimumSnoc(values: seq<Instant>, v: Instant)
    ensures Minimum(values + [v]) ==
            Some(if Minimum(values).None? || v < Minimum(values).value then v else Minimum(values).value)
  {
    assert (values + [v])[..|values|] == values;
  }

  method EarliestAuthnSessionExpiration(values: seq<Stamp>, field: TimeField)
    returns (r: Result<Option<Instant>, SamlError>)
    ensures r == EarliestOf(values, field)
  {
    var earliest: Option<Instant> := None;
    for i := 0 to |values|
      invariant forall k :: 0 <= k < i ==> values[k].At?
      invariant earliest == Minimum(Parsed(values[..i]))
    {
      if values[i].Unparseable? {
        return Err(TimeWindowInvalid(field));
      }
      var candidate := values[i].t;
      ParsedSnoc(values[..i], values[i]);
      MinimumSnoc(Parsed(values[..i]), candidate);
      assert values[..i + 1] == values[..i] + [values[i]];
      if earliest.None? || candidate < earliest.value {
        earliest := Some(candidate);
      }
    }
    assert values[..|values|] == values;
    r := Ok(earliest);
  }

  // ----- the flow's checks

  /** `conditions_time_bounds`: Conditions must be absent or occur once. */
  function ConditionsTimeBounds(a: Assertion): Result<Conditions, SamlError> {
    if |a.conditions| == 0 then Ok(Conditions(None, None))
    else if |a.conditions| == 1 then Ok(a.conditions[0])
    else Err(Invalid)
  }

  /**
   * `check_bearer_subject_confirmation` on a confirmation that parses: None when valid. The
   * extractor yields an object only for exactly one SubjectConfirmationData.
   */
  function BearerFault(
      c: SubjectConfirmation, skew: ClockSkew, now: Instant, e: Expectation): Option<ConfirmationReason>
  {
    if c.confirmationMethod != Some(BEARER) then Some(InvalidMethod)
    else if |c.data| != 1 || c.data[0].notOnOrAfter.None? then Some(MissingNotOnOrAfter)
    else if !VerifyTimeAt(None, c.data[0].notOnOrAfter, skew, now) then Some(ConfirmationExpired)
    else if c.data[0].recipient != Some(e.recipient) then Some(RecipientMismatch)
    else if e.inResponseTo.Some? && c.data[0].inResponseTo != e.inResponseTo then Some(ConfirmationInResponseToMismatch)
    else None
  }

  /** The first valid bearer confirmation wins; an unreadable one before it is an error. */
  function SubjectConfirmationVerdict(
    cs: seq<SubjectConfirmation>, skew: ClockSkew, now: Instant, e: Expectation, reason: ConfirmationReason)
    : Result<(), SamlError>
  {
    if cs == [] then Err(SubjectConfirmationInvalid(reason))
    else if !cs[0].parsesInFlow then Err(Invalid)
    else
      match BearerFault(cs[0], skew, now, e)
      case None => Ok(())
      case Some(current) => SubjectConfirmationVerdict(cs[1..], skew, now, e, current)
  }

  method ValidateSubjectConfirmation(cs: seq<SubjectConfirmation>, skew: ClockSkew, now: Instant, e: Expectation)
    returns (r: Result<(), SamlError>)
    ensures r == SubjectConfirmationVerdict(cs, skew, now, e, MissingBearerConfirmation)
  {
    var reason: Option<ConfirmationReason> := None;
    for i := 0 to |cs|
      invariant SubjectConfirmationVerdict(cs, skew, now, e, MissingBearerConfirmation)
             == SubjectConfirmationVerdict(cs[i..], skew, now, e,
                                           if reason.Some? then reason.value else MissingBearerConfirmation)
    {
      assert cs[i..][0] == cs[i] && cs[i..][1..] == cs[i + 1..];
      if !cs[i].parsesInFlow {
        return Err(Invalid);
      }
      var fault := BearerFault(cs[i], skew, now, e);
      match fault {
        case None => return Ok(());
        case Some(current) => reason := Some(current);
      }
    }
    r := Err(SubjectConfirmationInvalid(if reason.Some? then reason.value else MissingBearerConfirmation));
  }

  function DestinationVerdict(resp: Response, e: Expectation): Result<(), SamlError> {
    if e.responseAuthenticated && resp.destination.None? then Err(DestinationMismatch)
    else if resp.destination.Some? && resp.destination.value != e.recipient then Err(DestinationMismatch)
    else Ok(())
  }

  function SessionVerdict(a: Assertion, skew: ClockSkew, now: Instant): Result<(), SamlError> {
    match EarliestOf(Present(a.sessionBounds), SessionNotOnOrAfter)
    case Err(err) => Err(err)
    case Ok(None) => Ok(())
    case Ok(Some(raw)) =>
      match CheckedAdd(raw, FromMillis(skew.notOnOrAfter))
      case None => Err(TimeWindowInvalid(SessionNotOnOrAfter))
      case Some(expiration) => if now >= expiration then Err(TimeWindowInvalid(SessionNotOnOrAfter)) else Ok(())
  }

  function ConditionsVerdict(a: Assertion, skew: ClockSkew, now: Instant): Result<(), SamlError> {
    match ConditionsTimeBounds(a)
    case Err(err) => Err(err)
    case Ok(c) => if VerifyTimeAt(c.notBefore, c.notOnOrAfter, skew, now) then Ok(())
                  else Err(TimeWindowInvalid(ConditionsWindow))
  }

  /**
   * `validate_context` for a login response, after the issuer check, which is part of the
   * caller's verdict on the authenticated content.
   */
  function ValidateContext(resp: Response, e: Expectation, skew: ClockSkew, now: Instant): Result<(), SamlError> {
    if e.inResponseTo.Some? && resp.inResponseTo != e.inResponseTo then Err(InResponseToMismatch)
    else if DestinationVerdict(resp, e).Err? then DestinationVerdict(resp, e)
    else if SubjectConfirmationVerdict(resp.assertion.confirmations, skew, now, e, MissingBearerConfirmation).Err? then
      SubjectConfirmationVerdict(resp.assertion.confirmations, skew, now, e, MissingBearerConfirmation)
    else if e.audience.Err? then e.audience
    else if SessionVerdict(resp.assertion, skew, now).Err? then SessionVerdict(resp.assertion, skew, now)
    else ConditionsVerdict(resp.assertion, skew, now)
  }

  // ----- how long the replay keys are kept

  /** The first SubjectConfirmationData that carries NotOnOrAfter. */
  function FirstNotOnOrAfter(data: seq<ConfirmationData>): Option<Stamp> {
    if data == [] then None
    else if data[0].notOnOrAfter.Some? then data[0].notOnOrAfter
    else FirstNotOnOrAfter(data[1..])
  }

  function BearerStamps(cs: seq<SubjectConfirmation>): seq<Stamp> {
    if cs == [] then []
    else
      var rest := BearerStamps(cs[1..]);
      if cs[0].confirmationMethod != Some(BEARER) then rest
      else match FirstNotOnOrAfter(cs[0].data) case None => rest case Some(s) => [s] + rest
  }

  /** Latest bearer deadline; the first unreadable element or timestamp decides the error. */
  function LatestBearer(cs: seq<SubjectConfirmation>, latest: Option<Instant>): Result<Option<Instant>, SamlError> {
    if cs == [] then Ok(latest)
    else if !cs[0].parsesByDefault then Err(Invalid)
    else if cs[0].confirmationMethod != Some(BEARER) || FirstNotOnOrAfter(cs[0].data).None? then
        LatestBearer(cs[1..], latest)
    else
      match FirstNotOnOrAfter(cs[0].data).value
      case Unparseable => Err(TimeWindowInvalid(ReplayExpiration))
      case At(t) => LatestBearer(cs[1..], if latest.Some? && latest.value >= t then latest else Some(t))
  }

  method BearerSubjectConfirmationExpiresAt(cs: seq<SubjectConfirmation>)
      returns (r: Result<Option<Instant>, SamlError>)
    ensures r == LatestBearer(cs, None)
  {
    var expiresAt: Option<Instant> := None;
    for i := 0 to |cs|
      invariant LatestBearer(cs, None) == LatestBearer(cs[i..], expiresAt)
    {
      assert cs[i..][0] == cs[i] && cs[i..][1..] == cs[i + 1..];
      if !cs[i].parsesByDefault {
        return Err(Invalid);
      }
      if cs[i].confirmationMethod != Some(BEARER) {
        continue;
      }
      var notOnOrAfter := FirstNotOnOrAfter(cs[i].data);
      if notOnOrAfter.None? {
        continue;
      }
      if notOnOrAfter.value.Unparseable? {
        return Err(TimeWindowInvalid(ReplayExpiration));
      }
      var candidate := notOnOrAfter.value.t;
      if !(expiresAt.Some? && expiresAt.value >= candidate) {
        expiresAt := Some(candidate);
      }
    }
    r := Ok(expiresAt);
  }

  lemma {:induction false} LatestBearerIsMaximum(cs: seq<SubjectConfirmation>, latest: Option<Instant>)
    requires LatestBearer(cs, latest).Ok?
    ensures var r := LatestBearer(cs, latest).value;
            && (r.None? <==> latest.None? && BearerStamps(cs) == [])
            && (latest.Some? ==> r.Some? && latest.value <= r.value)
            && (forall s :: s in BearerStamps(cs) ==> s.At? && r.Some? && s.t <= r.value)
            && (r.Some? ==> r == latest || At(r.value) in BearerStamps(cs))
  {
    if cs != [] {
      if cs[0].confirmationMethod != Some(BEARER) || FirstNotOnOrAfter(cs[0].data).None? {
        LatestBearerIsMaximum(cs[1..], latest);
      } else {
        var t := FirstNotOnOrAfter(cs[0].data).value.t;
        LatestBearerIsMaximum(cs[1..], if latest.Some? && latest.value >= t then latest else Some(t));
      }
    }
  }

  function Listed(t: Option<Instant>): seq<Instant> {
    if t.Some? then [t.value] else []
  }

  /** The three deadlines that bound retention; only the values that are present. */
  function RetentionCandidates(a: Assertion): Result<seq<Instant>, SamlError> {
    match ConditionsTimeBounds(a)
    case Err(e) => Err(e)
    case Ok(c) =>
      if c.notOnOrAfter.Some? && c.notOnOrAfter.value.Unparseable? then Err(TimeWindowInvalid(ReplayExpiration))
      else
        match EarliestOf(Present(a.sessionBounds), ReplayExpiration)
        case Err(e) => Err(e)
        case Ok(session) =>
          match LatestBearer(a.confirmations, None)
          case Err(e) => Err(e)
          case Ok(bearer) =>
            Ok((if c.notOnOrAfter.Some? then [c.notOnOrAfter.value.t] else []) + Listed(session) + Listed(bearer))
  }

  /** `replay_expires_at` without its comparison with the current instant. */
  function ReplayBound(a: Assertion, skewMs: Millis): Result<Instant, SamlError> {
    match RawDeadline(a)
    case Err(e) => Err(e)
    case Ok(raw) =>
      match CheckedAdd(raw, FromMillis(skewMs))
      case None => Err(TimeWindowInvalid(ReplayExpiration))
      case Some(expiresAt) => Ok(expiresAt)
  }

  function RawDeadline(a: Assertion): Result<Instant, SamlError> {
    match RetentionCandidates(a)
    case Err(e) => Err(e)
    case Ok(candidates) =>
      match Minimum(candidates)
      case None => Err(TimeWindowInvalid(ReplayExpiration))
      case Some(raw) => Ok(raw)
  }

  function ReplayExpiresAt(a: Assertion, now: Instant, skewMs: Millis): Result<Instant, SamlError> {
    match ReplayBound(a, skewMs)
    case Err(e) => Err(e)
    case Ok(expiresAt) => if now >= expiresAt then Err(TimeWindowInvalid(ReplayExpiration)) else Ok(expiresAt)
  }

  method ComputeReplayExpiresAt(a: Assertion, now: Instant, skewMs: Millis) returns (r: Result<Instant, SamlError>)
    ensures r == ReplayExpiresAt(a, now, skewMs)
  {
    var candidates: seq<Instant> := [];
    var bounds := ConditionsTimeBounds(a);
    if bounds.Err? {
      return Err(bounds.error);
    }
    if bounds.value.notOnOrAfter.Some? {
      if bounds.value.notOnOrAfter.value.Unparseable? {
        return Err(TimeWindowInvalid(ReplayExpiration));
      }
      candidates := candidates + [bounds.value.notOnOrAfter.value.t];
    }
    var session := EarliestAuthnSessionExpiration(Present(a.sessionBounds), ReplayExpiration);
    if session.Err? {
      return Err(session.error);
    }
    if session.value.Some? {
      candidates := candidates + [session.value.value];
    }
    var bearer := BearerSubjectConfirmationExpiresAt(a.confirmations);
    if bearer.Err? {
      return Err(bearer.error);
    }
    if bearer.value.Some? {
      candidates := candidates + [bearer.value.value];
    }
    assert candidates ==
      (if bounds.value.notOnOrAfter.Some? then [bounds.value.notOnOrAfter.value.t] else [])
      + Listed(session.value) + Listed(bearer.value);
    var raw := Minimum(candidates);
    if raw.None? {
      return Err(TimeWindowInvalid(ReplayExpiration));
    }
    var expiresAt := CheckedAdd(raw.value, FromMillis(skewMs));
    if expiresAt.None? || now >= expiresAt.value {
      return Err(TimeWindowInvalid(ReplayExpiration));
    }
    r := Ok(expiresAt.value);
  }
}
