/**
 * What a verified detached signature covers (src/flow.rs, verify_detached): the request's own
 * fields, each present exactly as often as it was signed.
 */
module SignedFields {
  import opened Prelude
  import opened Redirect
  import opened Detached

  // ----- fields

  ghost predicate OnlyAt(params: Params, name: string, value: string, i: int) {
    0 <= i < |params| && params[i] == (name, value) && forall j :: 0 <= j < |params| && params[j].0 == name ==> j == i
  }

  /** The field is there once with the value, or not at all. */
  ghost predicate Has(params: Params, name: string, value: Option<string>) {
    if value.Some? then exists i :: OnlyAt(params, name, value.value, i)
    else forall i :: 0 <= i < |params| ==> params[i].0 != name
  }

  lemma OnlyAtShifts(params: Params, name: string, value: string, i: int)
    requires params != [] && params[0].0 != name
    ensures OnlyAt(params, name, value, i + 1) <==> OnlyAt(params[1..], name, value, i)
  {
    var rest := params[1..];
    if OnlyAt(params, name, value, i + 1) && 0 <= i < |rest| {
      assert rest[i] == params[i + 1];
      assert forall j :: 0 <= j < |rest| ==> rest[j] == params[j + 1];
    }
    if OnlyAt(rest, name, value, i) {
      assert params[i + 1] == rest[i];
      assert forall j :: 0 < j < |params| ==> params[j] == rest[j - 1];
    }
  }

  lemma OnlyAtStart(params: Params, name: string, value: string)
    requires params != [] && params[0].0 == name
    ensures (exists i :: OnlyAt(params, name, value, i)) <==>
            params[0].1 == value && forall i :: 0 <= i < |params[1..]| ==> params[1..][i].0 != name
  {
    var rest := params[1..];
    if i :| OnlyAt(params, name, value, i) {
      assert i == 0;
      assert forall j :: 0 <= j < |rest| ==> rest[j] == params[j + 1];
    }
    if params[0].1 == value && forall i :: 0 <= i < |rest| ==> rest[i].0 != name {
      assert forall j :: 0 < j < |params| ==> params[j] == rest[j - 1];
      assert OnlyAt(params, name, value, 0);
    }
  }

  lemma {:induction false} OneValueIsOnly(params: Params, name: string, value: string)
    ensures ValuesOf(params, name) == [value] <==> exists i :: OnlyAt(params, name, value, i)
  {
    hide OnlyAt;
    if params == [] {
      NothingIsOnly(name, value);
    } else if params[0].0 == name {
      OnlyAtStart(params, name, value);
      NoValuesIff(params[1..], name);
      var rest := ValuesOf(params[1..], name);
      assert ValuesOf(params, name) == [params[0].1] + rest;
      assert [params[0].1] + rest == [value] <==> params[0].1 == value && rest == [] by {
        assert ([params[0].1] + rest)[0] == params[0].1;
        assert |[params[0].1] + rest| == 1 + |rest|;
      }
    } else {
      NothingBefore(ValuesOf(params[1..], name));
      OneValueIsOnly(params[1..], name, value);
      if i :| OnlyAt(params, name, value, i) {
        OnlyAtShifts(params, name, value, i - 1);
      }
      if i :| OnlyAt(params[1..], name, value, i) {
        OnlyAtShifts(params, name, value, i);
      }
    }
  }

  lemma NothingIsOnly(name: string, value: string)
    ensures forall i :: !OnlyAt([], name, value, i)
  {
  }

  /** A single field is one that is there once, or not at all; any other list is an error. */
  lemma SingleHas(params: Params, name: string, value: Option<string>)
    ensures Single(params, name) == Ok(value) <==> Has(params, name, value)
  {
    hide ValuesOf, OnlyAt;
    NoValuesIff(params, name);
    if value.Some? {
      OneValueIsOnly(params, name, value.value);
      if |ValuesOf(params, name)| == 1 {
        assert ValuesOf(params, name) == [ValuesOf(params, name)[0]];
      }
    }
  }

  // ----- what is signed

  /** Message, relay state and algorithm of the query are those that the octet string spells, and no others. */
  ghost predicate SignsQuery(kind: Kind, request: HttpRequest, signature: string, sigAlg: string, octet: string) {
    var signed := Decoded(RawParams(octet));
    && Has(request.query, "Signature", Some(signature)) && Has(signed, "Signature", None)
    && Has(request.query, "SigAlg", Some(sigAlg)) && Has(signed, "SigAlg", Some(sigAlg))
    && request.octet == Some(octet)
    && (exists message :: Has(signed, kind.Name(), Some(message)) && Has(request.query, kind.Name(), Some(message)))
    && exists relayState :: Has(signed, "RelayState", relayState) && Has(request.query, "RelayState", relayState)
  }

  function Spelled(kind: Kind, xml: string, relayState: Option<string>, sigAlg: string): string {
    kind.Name() + "=" + xml + (match relayState case Some(r) => "&RelayState=" + r case None => "")
    + "&SigAlg=" + sigAlg
  }

  /** The octet string spells the decoded message, the form's relay state, or an empty one if it has none. */
  ghost predicate SignsForm(
      kind: Kind, request: HttpRequest, xml: string, signature: string, sigAlg: string, octet: string)
  {
    && Has(request.body, "Signature", Some(signature)) && Has(request.body, "SigAlg", Some(sigAlg))
    && request.octet == Some(octet)
    && (exists message :: Has(request.body, kind.Name(), Some(message)))
    && exists relayState ::
         && Has(request.body, "RelayState", relayState)
         && (|| octet == Spelled(kind, xml, relayState, sigAlg)
             || (relayState.None? && octet == Spelled(kind, xml, Some(""), sigAlg)))
  }

  /** A redirect's inputs are verified exactly when the query's fields are the signed ones. */
  lemma DetachedInputsAreSigned(kind: Kind, request: HttpRequest, signature: string, sigAlg: string, octet: string)
    ensures DetachedInputs(kind, request) == Ok((signature, sigAlg, octet)) <==>
            SignsQuery(kind, request, signature, sigAlg, octet)
  {
    hide Single, Has, Decoded, RawParams;
    forall params: Params, name: string, value: Option<string>
      ensures Single(params, name) == Ok(value) <==> Has(params, name, value)
    {
      SingleHas(params, name, value);
    }
  }

  lemma PostInputsAreSigned(
      kind: Kind, request: HttpRequest, xml: string, signature: string, sigAlg: string, octet: string)
    ensures PostInputs(kind, request, xml) == Ok((signature, sigAlg, octet)) <==>
            SignsForm(kind, request, xml, signature, sigAlg, octet)
  {
    hide Single, Has, PostOctet, Spelled;
    forall params: Params, name: string, value: Option<string>
      ensures Single(params, name) == Ok(value) <==> Has(params, name, value)
    {
      SingleHas(params, name, value);
    }
    forall relayState ensures PostOctet(kind, xml, relayState, sigAlg) == Spelled(kind, xml, relayState, sigAlg) {
      PostOctetIsSpelled(kind, xml, relayState, sigAlg);
    }
  }

  lemma PostOctetIsSpelled(kind: Kind, xml: string, relayState: Option<string>, sigAlg: string)
    ensures PostOctet(kind, xml, relayState, sigAlg) == Spelled(kind, xml, relayState, sigAlg)
  {
  }

  /**
   * A detached signature is accepted exactly when it is valid under some certificate over an
   * octet string that spells the very fields the flow consumes.
   */
  lemma AcceptedExactlyWhenSigned(
    channel: Channel, kind: Kind, request: HttpRequest, xml: string, certs: seq<string>,
    verify: (string, string, string, string) -> DetachedFinding, sigAlg: string)
    ensures DetachedOutcome(channel, kind, request, xml, certs, verify) == Ok(sigAlg) <==>
            exists signature, octet, c ::
              && c in certs && verify(octet, signature, c, sigAlg).GoodSignature?
              && (if channel.RedirectQuery? then SignsQuery(kind, request, signature, sigAlg, octet)
                  else SignsForm(kind, request, xml, signature, sigAlg, octet))
  {
    hide DetachedInputs, PostInputs, SignsQuery, SignsForm;
    forall signature, alg, octet
      ensures InputsOf(channel, kind, request, xml) == Ok((signature, alg, octet)) <==>
              if channel.RedirectQuery? then SignsQuery(kind, request, signature, alg, octet)
              else SignsForm(kind, request, xml, signature, alg, octet)
    {
      DetachedInputsAreSigned(kind, request, signature, alg, octet);
      PostInputsAreSigned(kind, request, xml, signature, alg, octet);
    }
    if InputsOf(channel, kind, request, xml).Ok? {
      var (signature, alg, octet) := InputsOf(channel, kind, request, xml).value;
      assert InputsOf(channel, kind, request, xml) == Ok((signature, alg, octet));
    }
  }
}
