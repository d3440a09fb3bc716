/** Replay cache keys: seven identifier families, printed as `kind:identifier`. */
module ReplayKeys {

  datatype ReplayKey =
    | CompletedAuthnRequestId(id: string)
    | CompletedLogoutRequestId(id: string)
    | AuthnRequestId(id: string)
    | LogoutRequestId(id: string)
    | LogoutResponseId(id: string)
    | ResponseId(id: string)
    | AssertionId(id: string)
  {
    function Kind(): string {
      match this
      case CompletedAuthnRequestId(_) => "completed_authn_request_id"
      case CompletedLogoutRequestId(_) => "completed_logout_request_id"
      case AuthnRequestId(_) => "authn_request_id"
      case LogoutRequestId(_) => "logout_request_id"
      case LogoutResponseId(_) => "logout_response_id"
      case ResponseId(_) => "response_id"
      case AssertionId(_) => "assertion_id"
    }

    function CacheKey(): string {
      Kind() + ":" + id
    }
  }

  lemma KindHasNoColon(key: ReplayKey)
    ensures ':' !in key.Kind()
  {
  }

  lemma KindNamesTheFamily(a: ReplayKey, b: ReplayKey)
    requires a.Kind() == b.Kind() && a.id == b.id
    ensures a == b
  {
    assert |a.Kind()| == |b.Kind()| && a.Kind()[0] == b.Kind()[0];
  }

  /**
   * Two keys share a cache slot only when they are the same key, whatever characters
   * (colons included) an attacker-chosen identifier carries.
   */
  lemma CacheKeyInjective(a: ReplayKey, b: ReplayKey)
    requires a.CacheKey() == b.CacheKey()
    ensures a == b
  {
    KindHasNoColon(a);
    KindHasNoColon(b);
    var m, n := |a.Kind()|, |b.Kind()|;
    assert a.CacheKey()[m] == ':' && b.CacheKey()[n] == ':';
    assert m == n;
    assert a.CacheKey()[..m] == a.Kind() && b.CacheKey()[..n] == b.Kind();
    assert a.CacheKey()[m + 1..] == a.id && b.CacheKey()[n + 1..] == b.id;
    KindNamesTheFamily(a, b);
  }
}
