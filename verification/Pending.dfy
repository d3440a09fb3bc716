/**
 * Pending request state kept between sending a request and finishing it
 * (src/browser/pending.rs), its lifetime rule and its persistable snapshots.
 */
module Pending {
  import opened Prelude
  import opened Instants

  const MAX_RELAY_STATE_BYTES: nat := 80

  datatype RelayState = Absent | PresentEmpty | PresentValue(value: string) {
    function Validate(): Result<(), SamlError> {
      match this
      case Absent => Ok(())
      case PresentEmpty => Ok(())
      case PresentValue(v) => if v == "" || |v| > MAX_RELAY_STATE_BYTES then Err(Invalid) else Ok(())
    }
  }

  datatype Binding = Redirect | Post | SimpleSign | Artifact {
    function ShortName(): string {
      match this
      case Redirect => "redirect"
      case Post => "post"
      case SimpleSign => "simpleSign"
      case Artifact => "artifact"
    }

    function Urn(): string {
      match this
      case Redirect => "urn:oasis:names:tc:SAML:2.0:bindings:HTTP-Redirect"
      case Post => "urn:oasis:names:tc:SAML:2.0:bindings:HTTP-POST"
      case SimpleSign => "urn:oasis:names:tc:SAML:2.0:bindings:HTTP-POST-SimpleSign"
      case Artifact => "urn:oasis:names:tc:SAML:2.0:bindings:HTTP-Artifact"
    }
  }

  datatype AcsEndpoint = AcsEndpoint(binding: Binding, location: string, index: Option<nat>, isDefault: bool)

  datatype AuthnDetails = AuthnDetails(requestBinding: Option<Binding>, responseBinding: Binding, acs: AcsEndpoint)

  datatype LogoutDetails = LogoutDetails(binding: Binding)

  datatype Pending<+Details> = Pending(
    id: string,
    relayState: RelayState,
    details: Details,
    peer: string,
    issuedAt: Option<Stamp>,
    expiresAt: Option<Stamp>)

  // ----- deadlines

  function CompletionDeadline<D>(p: Pending<D>): Result<Option<Instant>, SamlError> {
    match p.expiresAt
    case None => Ok(None)
    case Some(At(t)) => Ok(Some(t))
    case Some(Unparseable) => Err(TimeWindowInvalid(PendingRequestExpiration))
  }

  function ValidateAt<D>(p: Pending<D>, now: SystemTime): Result<(), SamlError> {
    match InstantFromSystem(now)
    case Err(e) => Err(e)
    case Ok(n) =>
      match CompletionDeadline(p)
      case Err(e) => Err(e)
      case Ok(None) => Ok(())
      case Ok(Some(deadline)) => if n >= deadline then Err(TimeWindowInvalid(PendingRequestExpiration)) else Ok(())
  }

  datatype Lifetime = Lifetime(now: SystemTime, duration: nat)

  /** The instant a local lifetime ends at, when both its ends can be represented. */
  function LifetimeEnd(l: Lifetime, platform: Platform): Option<Instant> {
    if l.duration == 0 then None
    else
      match platform.CheckedAdd(l.now, l.duration)
      case None => None
      case Some(end) =>
        if InstantFromSystem(l.now).Ok? && InstantFromSystem(end).Ok? then Some(InstantFromSystem(end).value) else None
  }

  method WithLocalLifetime<D>(p: Pending<D>, l: Lifetime, platform: Platform) returns (r: Result<Pending<D>, SamlError>)
    ensures r == LocalLifetime(p, l, platform)
  {
    var pending := p;
    if l.duration == 0 {
      return Err(TimeWindowInvalid(PendingRequestExpiration));
    }
    var end := platform.CheckedAdd(l.now, l.duration);
    if end.None? {
      return Err(TimeWindowInvalid(PendingRequestExpiration));
    }
    var now := InstantFromSystem(l.now);
    if now.Err? {
      return Err(TimeWindowInvalid(PendingRequestExpiration));
    }
    var expiresAt := InstantFromSystem(end.value);
    if expiresAt.Err? {
      return Err(TimeWindowInvalid(PendingRequestExpiration));
    }
    if pending.issuedAt.None? {
      pending := pending.(issuedAt := Some(Printed(now.value)));
    }
    var existing := CompletionDeadline(pending);
    if existing.Err? {
      return Err(existing.error);
    }
    if existing.value.None? || existing.value.value > expiresAt.value {
      pending := pending.(expiresAt := Some(Printed(expiresAt.value)));
    }
    r := Ok(pending);
  }

  function LocalLifetime<D>(p: Pending<D>, l: Lifetime, platform: Platform): Result<Pending<D>, SamlError> {
    match LifetimeEnd(l, platform)
    case None => Err(TimeWindowInvalid(PendingRequestExpiration))
    case Some(end) =>
      match CompletionDeadline(p)
      case Err(e) => Err(e)
      case Ok(existing) =>
        var issuedAt := if p.issuedAt.None? then Some(Printed(l.now)) else p.issuedAt;
        var expiresAt := if existing.None? || existing.value > end then Some(Printed(end)) else p.expiresAt;
        Ok(p.(issuedAt := issuedAt, expiresAt := expiresAt))
  }

  /** Lifetimes applied one after another. */
  function LocalLifetimes<D>(p: Pending<D>, ls: seq<Lifetime>, platform: Platform): Result<Pending<D>, SamlError>
    decreases |ls|
  {
    if ls == [] then Ok(p)
    else
      match LocalLifetime(p, ls[0], platform)
      case Err(e) => Err(e)
      case Ok(q) => LocalLifetimes(q, ls[1..], platform)
  }

  ghost predicate IsEarliestDeadline(m: Instant, initial: Option<Instant>, ls: seq<Lifetime>, platform: Platform) {
    && (initial == Some(m) || exists l :: l in ls && LifetimeEnd(l, platform) == Some(m))
    && (initial.Some? ==> m <= initial.value)
    && (forall l :: l in ls && LifetimeEnd(l, platform).Some? ==> m <= LifetimeEnd(l, platform).value)
  }

  /**
   * However often a lifetime is added, the request ends at the earliest deadline it was ever
   * given. A deadline before year zero prints as an unreadable stamp, with which nothing completes.
   */
  lemma {:induction false} LifetimesLeaveTheEarliestDeadline<D>(p: Pending<D>, ls: seq<Lifetime>, platform: Platform)
    requires CompletionDeadline(p).Ok?
    requires LocalLifetimes(p, ls, platform).Ok?
    ensures var q := LocalLifetimes(p, ls, platform).value;
            var initial := CompletionDeadline(p).value;
            && q.id == p.id && q.details == p.details && q.peer == p.peer && q.relayState == p.relayState
            && (q.expiresAt.None? <==> initial.None? && ls == [])
            && (q.expiresAt.Some? && q.expiresAt.value.At? ==>
                  IsEarliestDeadline(q.expiresAt.value.t, initial, ls, platform))
            && (q.expiresAt.Some? && q.expiresAt.value.Unparseable? ==>
                  exists m: Instant :: m < YEAR_ZERO && IsEarliestDeadline(m, initial, ls, platform))
    decreases |ls|
  {
    if ls != [] {
      var q := LocalLifetime(p, ls[0], platform).value;
      var end := LifetimeEnd(ls[0], platform).value;
      assert ls == [ls[0]] + ls[1..];
      if CompletionDeadline(q).Ok? {
        LifetimesLeaveTheEarliestDeadline(q, ls[1..], platform);
        var last := LocalLifetimes(q, ls[1..], platform).value;
        if last.expiresAt.value.Unparseable? {
          var m: Instant :| m < YEAR_ZERO && IsEarliestDeadline(m, CompletionDeadline(q).value, ls[1..], platform);
          assert IsEarliestDeadline(m, CompletionDeadline(p).value, ls, platform);
        }
      } else {
        assert ls[1..] == [];
        assert IsEarliestDeadline(end, CompletionDeadline(p).value, ls, platform);
      }
    }
  }

  // ----- snapshots

  predicate Blank(s: string) {
    forall c :: c in s ==> c == ' ' || '\t' <= c <= '\r'
  }

  datatype Snapshot = Snapshot(
    id: string,
    relayState: RelayState,
    peer: string,
    expectedBinding: string,
    requestBinding: Option<string>,
    acsUrl: string,
    acsBinding: string,
    acsIndex: Option<nat>,
    acsIsDefault: bool,
    issuedAt: Option<Stamp>,
    expiresAt: Option<Stamp>)

  const ALL_BINDINGS: seq<Binding> := [Redirect, Post, SimpleSign, Artifact]

  function FindByShortName(name: string, among: seq<Binding>): Option<Binding> {
    if among == [] then None
    else if among[0].ShortName() == name then Some(among[0])
    else FindByShortName(name, among[1..])
  }

  function FindByUrn(name: string, among: seq<Binding>): Option<Binding> {
    if among == [] then None
    else if among[0].Urn() == name then Some(among[0])
    else FindByUrn(name, among[1..])
  }

  /** A snapshot keyword or URN, narrowed to the bindings `allowed` for its role. */
  function ReadBinding(name: string, allowed: set<Binding>): Result<Binding, SamlError> {
    var found := match FindByShortName(name, ALL_BINDINGS)
                 case Some(b) => Some(b)
                 case None => FindByUrn(name, ALL_BINDINGS);
    match found
    case Some(b) => if b in allowed then Ok(b) else Err(UndefinedBinding)
    case None => Err(UndefinedBinding)
  }

  const SSO_REQUEST_BINDINGS: set<Binding> := {Redirect, Post, SimpleSign}
  const SSO_RESPONSE_BINDINGS: set<Binding> := {Post, SimpleSign}
  const LOGOUT_BINDINGS: set<Binding> := {Redirect, Post, SimpleSign}

  lemma ReadBindingInvertsShortName(b: Binding, allowed: set<Binding>)
    requires b in allowed
    ensures ReadBinding(b.ShortName(), allowed) == Ok(b)
  {
    var others := ALL_BINDINGS[1..];
    assert others == [Post, SimpleSign, Artifact] && others[1..] == [SimpleSign, Artifact];
    assert others[1..][1..] == [Artifact];
    assert "redirect"[0] == 'r' && "post"[0] == 'p' && "simpleSign"[0] == 's' && "artifact"[0] == 'a';
  }

  /** What the constructors guarantee of a pending AuthnRequest; `urlOk` is the URL parser's verdict. */
  predicate WellFormedAuthn(p: Pending<AuthnDetails>, urlOk: string -> bool) {
    && !Blank(p.id) && !Blank(p.peer) && p.relayState.Validate().Ok?
    && p.details.responseBinding in SSO_RESPONSE_BINDINGS
    && p.details.acs.binding == p.details.responseBinding
    && (p.details.requestBinding.Some? ==> p.details.requestBinding.value in SSO_REQUEST_BINDINGS)
    && urlOk(p.details.acs.location)
  }

  predicate WellFormedLogout(p: Pending<LogoutDetails>) {
    !Blank(p.id) && !Blank(p.peer) && p.relayState.Validate().Ok? && p.details.binding in LOGOUT_BINDINGS
  }

  function AuthnSnapshot(p: Pending<AuthnDetails>): Snapshot {
    Snapshot(p.id, p.relayState, p.peer, p.details.responseBinding.ShortName(),
             match p.details.requestBinding case Some(b) => Some(b.ShortName()) case None => None,
             p.details.acs.location, p.details.acs.binding.ShortName(), p.details.acs.index, p.details.acs.isDefault,
             p.issuedAt, p.expiresAt)
  }

  function LogoutSnapshot(p: Pending<LogoutDetails>): Snapshot {
    Snapshot(p.id, p.relayState, p.peer, p.details.binding.ShortName(), Some(p.details.binding.ShortName()),
             "", "", None, false, p.issuedAt, p.expiresAt)
  }

  /** Checks common to both message kinds, in source order. */
  function SnapshotHeader(s: Snapshot): Result<(), SamlError> {
    if s.relayState.Validate().Err? then s.relayState.Validate()
    else if s.expiresAt.Some? && s.issuedAt.None? then Err(Invalid)
    else if Blank(s.id) || Blank(s.peer) then Err(Invalid)
    else Ok(())
  }

  function AuthnFromSnapshot(s: Snapshot, urlOk: string -> bool): Result<Pending<AuthnDetails>, SamlError> {
    if SnapshotHeader(s).Err? then SnapshotHeader(s).PropagateFailure()
    else
      var response := ReadBinding(s.expectedBinding, SSO_RESPONSE_BINDINGS);
      if response.Err? then response.PropagateFailure() else
      var acs := ReadBinding(s.acsBinding, SSO_RESPONSE_BINDINGS);
      if acs.Err? then acs.PropagateFailure()
      else if !urlOk(s.acsUrl) then Err(Invalid)
      else
        var request: Result<Option<Binding>, SamlError> :=
          match s.requestBinding
          case None => Ok(None)
          case Some(name) =>
            match ReadBinding(name, SSO_REQUEST_BINDINGS) case Ok(b) => Ok(Some(b)) case Err(e) => Err(e);
        if request.Err? then request.PropagateFailure()
        else if acs.value != response.value then Err(Invalid)
        else
          Ok(Pending(s.id, s.relayState,
                     AuthnDetails(request.value, response.value,
                                  AcsEndpoint(acs.value, s.acsUrl, s.acsIndex, s.acsIsDefault)),
                     s.peer, s.issuedAt, s.expiresAt))
  }

  function LogoutFromSnapshot(s: Snapshot): Result<Pending<LogoutDetails>, SamlError> {
    if SnapshotHeader(s).Err? then SnapshotHeader(s).PropagateFailure()
    else
      var response := ReadBinding(s.expectedBinding, LOGOUT_BINDINGS);
      if response.Err? then response.PropagateFailure() else
      var request := match s.requestBinding case None => response case Some(name) => ReadBinding(name, LOGOUT_BINDINGS);
      if request.Err? then request.PropagateFailure()
      else if request.value != response.value then Err(Invalid)
      else Ok(Pending(s.id, s.relayState, LogoutDetails(response.value), s.peer, s.issuedAt, s.expiresAt))
  }

  /**
   * A restored AuthnRequest is the stored one, field for field; the one pending state that
   * cannot be restored has an expiration and no issue instant.
   */
  lemma AuthnSnapshotRoundTrip(p: Pending<AuthnDetails>, urlOk: string -> bool)
    requires WellFormedAuthn(p, urlOk)
    ensures AuthnFromSnapshot(AuthnSnapshot(p), urlOk)
         == if p.expiresAt.Some? && p.issuedAt.None? then Err(Invalid) else Ok(p)
  {
    ReadBindingInvertsShortName(p.details.responseBinding, SSO_RESPONSE_BINDINGS);
    if p.details.requestBinding.Some? {
      ReadBindingInvertsShortName(p.details.requestBinding.value, SSO_REQUEST_BINDINGS);
    }
  }

  lemma LogoutSnapshotRoundTrip(p: Pending<LogoutDetails>)
    requires WellFormedLogout(p)
    ensures LogoutFromSnapshot(LogoutSnapshot(p))
         == if p.expiresAt.Some? && p.issuedAt.None? then Err(Invalid) else Ok(p)
  {
    ReadBindingInvertsShortName(p.details.binding, LOGOUT_BINDINGS);
  }

  lemma LocalLifetimeIssues<D>(p: Pending<D>, l: Lifetime, platform: Platform)
    requires LocalLifetime(p, l, platform).Ok?
    ensures var q := LocalLifetime(p, l, platform).value;
            && q.issuedAt.Some? && q.expiresAt.Some?
            && q == p.(issuedAt := q.issuedAt, expiresAt := q.expiresAt)
  {
  }

  /** A pending AuthnRequest that was given a local lifetime always survives a store and restore. */
  lemma LocalLifetimeIsRestorable(p: Pending<AuthnDetails>, l: Lifetime, platform: Platform, urlOk: string -> bool)
    requires WellFormedAuthn(p, urlOk)
    ensures var r := LocalLifetime(p, l, platform);
            r.Ok? ==> AuthnFromSnapshot(AuthnSnapshot(r.value), urlOk) == r
  {
    if LocalLifetime(p, l, platform).Ok? {
      LocalLifetimeIssues(p, l, platform);
      AuthnSnapshotRoundTrip(LocalLifetime(p, l, platform).value, urlOk);
    }
  }

  /** So does a pending LogoutRequest. */
  lemma LogoutLifetimeIsRestorable(p: Pending<LogoutDetails>, l: Lifetime, platform: Platform)
    requires WellFormedLogout(p)
    ensures var r := LocalLifetime(p, l, platform);
            r.Ok? ==> LogoutFromSnapshot(LogoutSnapshot(r.value)) == r
  {
    if LocalLifetime(p, l, platform).Ok? {
      LocalLifetimeIssues(p, l, platform);
      LogoutSnapshotRoundTrip(LocalLifetime(p, l, platform).value);
    }
  }
}
