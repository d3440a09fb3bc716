/**
 * The HTTP-Redirect binding: the sender's signed query (src/binding/redirect.rs), the
 * receiver's reading of the raw query (src/browser/input.rs), and the check of consumed
 * fields (src/flow.rs). Text is a sequence of bytes.
 */
module Redirect {
  import opened Prelude

  type Params = seq<(string, string)>

  predicate Bytes(s: string) {
    forall i :: 0 <= i < |s| ==> s[i] as int < 256
  }

  // ----- application/x-www-form-urlencoded

  predicate Unreserved(c: char) {
    || '0' <= c <= '9' || 'A' <= c <= 'Z' || 'a' <= c <= 'z'
    || c == '*' || c == '-' || c == '.' || c == '_'
  }

  function HexDigit(n: nat): char
    requires n < 16
  {
    "0123456789ABCDEF"[n]
  }

  function HexValue(c: char): Option<nat> {
    if '0' <= c <= '9' then Some(c as int - '0' as int)
    else if 'A' <= c <= 'F' then Some(c as int - 'A' as int + 10)
    else if 'a' <= c <= 'f' then Some(c as int - 'a' as int + 10)
    else None
  }

  function EncodeByte(c: char): string
    requires c as int < 256
  {
    if Unreserved(c) then [c]
    else if c == ' ' then "+"
    else ['%', HexDigit(c as int / 16), HexDigit(c as int % 16)]
  }

  /** `url_encode`. */
  function UrlEncode(s: string): string
    requires Bytes(s)
  {
    if s == "" then "" else EncodeByte(s[0]) + UrlEncode(s[1..])
  }

  /** The first two characters as a hexadecimal byte. */
  function HexPair(s: string): Option<char> {
    if |s| >= 2 && HexValue(s[0]).Some? && HexValue(s[1]).Some? then
      Some((HexValue(s[0]).value * 16 + HexValue(s[1]).value) as char)
    else None
  }

  /** Form decoding: `+` is a space, `%XX` a byte, and a `%` without two digits stands for itself. */
  function FormDecode(s: string): string {
    if s == "" then ""
    else if s[0] == '+' then " " + FormDecode(s[1..])
    else if s[0] == '%' && HexPair(s[1..]).Some? then [HexPair(s[1..]).value] + FormDecode(s[3..])
    else [s[0]] + FormDecode(s[1..])
  }

  lemma HexDigitValue(n: nat)
    requires n < 16
    ensures HexValue(HexDigit(n)) == Some(n)
  {
  }

  lemma DecodeUndoesByte(c: char, rest: string)
    requires c as int < 256
    ensures FormDecode(EncodeByte(c) + rest) == [c] + FormDecode(rest)
  {
    var code := EncodeByte(c);
    var whole := code + rest;
    if |code| == 1 {
      assert whole[1..] == rest;
    } else {
      HexDigitValue(c as int / 16);
      HexDigitValue(c as int % 16);
      assert whole[1..][0] == code[1] && whole[1..][1] == code[2] && whole[3..] == rest;
      assert c as int == (c as int / 16) * 16 + c as int % 16;
      assert HexPair(whole[1..]) == Some(c);
    }
  }

  /** Form decoding undoes URL encoding, byte for byte. */
  lemma {:induction false} DecodeUndoesEncode(s: string)
    requires Bytes(s)
    ensures FormDecode(UrlEncode(s)) == s
  {
    if s != "" {
      DecodeUndoesEncode(s[1..]);
      DecodeUndoesByte(s[0], UrlEncode(s[1..]));
    }
  }

  predicate Structural(c: char) {
    c == '&' || c == '=' || c == '#' || c == '?'
  }

  predicate Inert(s: string) {
    forall i :: 0 <= i < |s| ==> !Structural(s[i])
  }

  /** Encoded text holds none of the characters that structure a URL query. */
  lemma {:induction false} EncodedIsInert(s: string)
    requires Bytes(s)
    ensures Inert(UrlEncode(s))
  {
    hide EncodeByte, Inert;
    if s == "" {
      assert Inert("") by { NothingIsInert(); }
    } else {
      EncodedIsInert(s[1..]);
      ByteIsInert(s[0]);
      InertConcat(EncodeByte(s[0]), UrlEncode(s[1..]));
    }
  }

  lemma NothingIsInert()
    ensures Inert("")
  {
  }

  lemma ByteIsInert(c: char)
    requires c as int < 256
    ensures Inert(EncodeByte(c))
  {
  }

  lemma InertConcat(a: string, b: string)
    requires Inert(a) && Inert(b)
    ensures Inert(a + b)
  {
    forall i | 0 <= i < |a + b|
      ensures !Structural((a + b)[i])
    {
      assert (a + b)[i] == if i < |a| then a[i] else b[i - |a|];
    }
  }

  // ----- the sender

  datatype Kind = Request | Response {
    function Name(): string {
      if Request? then "SAMLRequest" else "SAMLResponse"
    }

    function Opposite(): string {
      if Request? then "SAMLResponse" else "SAMLRequest"
    }
  }

  /** What is sent: the base64 of the deflated message, the relay state, the algorithm and the signature. */
  datatype Signed = Signed(message: string, relayState: Option<string>, sigAlg: string, signature: string) {
    predicate Valid() {
      && Bytes(message) && Bytes(sigAlg) && Bytes(signature)
      && (relayState.Some? ==> Bytes(relayState.value))
    }
  }

  function RelayPart(relayState: Option<string>): string
    requires relayState.Some? ==> Bytes(relayState.value)
  {
    if relayState.Some? then "&RelayState=" + UrlEncode(relayState.value) else ""
  }

  /** The octet string that is signed (section 3.4.4.1 of SAML Bindings 2.0). */
  function Octet(kind: Kind, s: Signed): string
    requires s.Valid()
  {
    kind.Name() + "=" + UrlEncode(s.message) + RelayPart(s.relayState) + "&SigAlg=" + UrlEncode(s.sigAlg)
  }

  method BuildRedirectOctet(kind: Kind, s: Signed) returns (octet: string)
    requires s.Valid()
    ensures octet == Octet(kind, s)
  {
    hide UrlEncode;
    octet := kind.Name() + "=" + UrlEncode(s.message);
    if s.relayState.Some? {
      octet := octet + ("&RelayState=" + UrlEncode(s.relayState.value));
    } else {
      NothingAfter(octet);
    }
    ghost var before := octet;
    octet := octet + ("&SigAlg=" + UrlEncode(s.sigAlg));
    Associate(before, "&SigAlg=", UrlEncode(s.sigAlg));
  }

  /** The part after the first occurrence of a character. */
  function After(s: string, c: char): Option<string> {
    if s == "" then None else if s[0] == c then Some(s[1..]) else After(s[1..], c)
  }

  function Before(s: string, c: char): string {
    if s == "" || s[0] == c then "" else [s[0]] + Before(s[1..], c)
  }

  predicate HasQuery(base: string) {
    After(base, '?').Some? && After(base, '?').value != ""
  }

  /** `append_signature`: the URL that is sent. */
  function SignedUrl(base: string, kind: Kind, s: Signed): string
    requires s.Valid()
  {
    base + (if HasQuery(base) then "&" else "?") + Octet(kind, s) + "&Signature=" + UrlEncode(s.signature)
  }

  // ----- the receiver

  /** The query of a URL: after the first `?`, before a fragment. */
  function QueryOf(url: string): string {
    var query := After(Before(url, '#'), '?');
    if query.Some? then query.value else ""
  }

  function TrimQuestionMarks(s: string): string {
    if s != "" && s[0] == '?' then TrimQuestionMarks(s[1..]) else s
  }

  /** The pieces between `&` characters. */
  function Split(s: string): (pieces: seq<string>)
    ensures pieces != []
  {
    if s == "" then [""]
    else if s[0] == '&' then [""] + Split(s[1..])
    else
      var rest := Split(s[1..]);
      [[s[0]] + rest[0]] + rest[1..]
  }

  function ParamOf(segment: string): (string, string) {
    (Before(segment, '='), if After(segment, '=').Some? then After(segment, '=').value else "")
  }

  function ParamsOf(segments: seq<string>): Params {
    if segments == [] then []
    else (if segments[0] == "" then [] else [ParamOf(segments[0])]) + ParamsOf(segments[1..])
  }

  /** `raw_query_params`: names and values as they stand in the query. */
  function RawParams(query: string): Params {
    ParamsOf(Split(query))
  }

  function Decoded(params: Params): Params {
    if params == [] then [] else [(FormDecode(params[0].0), FormDecode(params[0].1))] + Decoded(params[1..])
  }

  function ValuesOf(params: Params, name: string): seq<string> {
    if params == [] then []
    else (if params[0].0 == name then [params[0].1] else []) + ValuesOf(params[1..], name)
  }

  /** A field that may occur once at most. */
  function Single(params: Params, name: string): Result<Option<string>, SamlError> {
    var values := ValuesOf(params, name);
    if |values| > 1 then Err(Invalid) else if values == [] then Ok(None) else Ok(Some(values[0]))
  }

  /** The expected message's raw value; the opposite message must be absent. */
  function MessageValue(params: Params, kind: Kind): Result<string, SamlError> {
    var expected :- Single(params, kind.Name());
    var opposite :- Single(params, kind.Opposite());
    if expected.Some? && opposite.None? then Ok(expected.value) else Err(Invalid)
  }

  /** `redirect_octet_from_raw_query`: the octet string rebuilt from the raw values. */
  function RebuiltOctet(query: string, kind: Kind): Result<Option<string>, SamlError> {
    var params := RawParams(query);
    var message :- MessageValue(params, kind);
    var relayState :- Single(params, "RelayState");
    var sigAlg :- Single(params, "SigAlg");
    var signature :- Single(params, "Signature");
    if sigAlg.None? && signature.None? then Ok(None)
    else if sigAlg.None? || signature.None? then Err(Invalid)
    else
      Ok(Some(kind.Name() + "=" + message
              + (if relayState.Some? then "&RelayState=" + relayState.value else "")
              + "&SigAlg=" + sigAlg.value))
  }

  /** What a request brings: its query or form fields, decoded, and the octet string to verify. */
  datatype HttpRequest = HttpRequest(query: Params, body: Params, octet: Option<string>)

  /** `http_request_from_input` for a redirect. */
  function Receive(rawQuery: string, kind: Kind): Result<HttpRequest, SamlError> {
    var query := TrimQuestionMarks(rawQuery);
    var octet :- RebuiltOctet(query, kind);
    Ok(HttpRequest(Decoded(RawParams(query)), [], octet))
  }

  function Needed(found: Result<Option<string>, SamlError>): Result<string, SamlError> {
    var value :- found;
    if value.Some? then Ok(value.value) else Err(MissingBindingParameter)
  }

  /** `ensure_redirect_octet_matches_consumed_fields`: the signed fields are the ones that will be used. */
  function OctetMatchesFields(kind: Kind, request: HttpRequest, sigAlg: string, octet: string): Result<(), SamlError> {
    var signed := Decoded(RawParams(octet));
    var signature :- Single(signed, "Signature");
    if signature.Some? then Err(SignatureInvalid)
    else
      var signedMessage :- Needed(Single(signed, kind.Name()));
      var message :- Needed(Single(request.query, kind.Name()));
      if signedMessage != message then Err(SignatureInvalid)
      else
        var signedSigAlg :- Needed(Single(signed, "SigAlg"));
        if signedSigAlg != sigAlg then Err(SignatureInvalid)
        else
          var signedRelayState :- Single(signed, "RelayState");
          var relayState :- Single(request.query, "RelayState");
          if signedRelayState != relayState then Err(RelayStateMismatch) else Ok(())
  }

  // ----- reading a query in pieces

  lemma {:induction false} SplitJoin(a: string, b: string)
    ensures Split(a + "&" + b) == Split(a) + Split(b)
  {
    if a == "" {
      assert ("" + "&" + b)[1..] == b;
    } else {
      assert (a + "&" + b)[1..] == a[1..] + "&" + b;
      SplitJoin(a[1..], b);
    }
  }

  lemma {:induction false} SplitInert(s: string)
    requires forall i :: 0 <= i < |s| ==> s[i] != '&'
    ensures Split(s) == [s]
  {
    if s != "" {
      SplitInert(s[1..]);
      assert [s[0]] + s[1..] == s;
    }
  }

  lemma {:induction false} ParamsOfConcat(a: seq<string>, b: seq<string>)
    ensures ParamsOf(a + b) == ParamsOf(a) + ParamsOf(b)
  {
    hide ParamOf;
    if a == [] {
      NothingBefore(b);
      NothingBefore(ParamsOf(b));
    } else {
      ConsConcat(a, b);
      ParamsOfConcat(a[1..], b);
      Associate(if a[0] == "" then [] else [ParamOf(a[0])], ParamsOf(a[1..]), ParamsOf(b));
    }
  }

  lemma RawParamsJoin(a: string, b: string)
    ensures RawParams(a + "&" + b) == RawParams(a) + RawParams(b)
  {
    hide Split, ParamsOf;
    SplitJoin(a, b);
    ParamsOfConcat(Split(a), Split(b));
  }

  lemma {:induction false} AroundFirst(a: string, c: char, b: string)
    requires forall i :: 0 <= i < |a| ==> a[i] != c
    ensures Before(a + [c] + b, c) == a && After(a + [c] + b, c) == Some(b)
  {
    if a == "" {
      assert ("" + [c] + b)[1..] == b;
    } else {
      assert (a + [c] + b)[1..] == a[1..] + [c] + b;
      AroundFirst(a[1..], c, b);
    }
  }

  /** One `name=value` piece is one parameter. */
  lemma FieldIsOneParam(name: string, value: string)
    requires Inert(name) && Inert(value)
    ensures RawParams(name + "=" + value) == [(name, value)]
  {
    var piece := name + "=" + value;
    forall i | 0 <= i < |piece|
      ensures piece[i] != '&'
    {
      assert piece[i] == if i < |name| then name[i] else if i == |name| then '=' else value[i - |name| - 1];
    }
    SplitInert(piece);
    AroundFirst(name, '=', value);
    assert ParamsOf([piece][1..]) == [];
  }

  // ----- the fields of a signed query

  /** The values of the binding's fields, encoded or plain. */
  datatype Values = Values(message: string, relayState: Option<string>, sigAlg: string, signature: Option<string>)

  function Optional(value: Option<string>): seq<string> {
    if value.Some? then [value.value] else []
  }

  function OptionalField(name: string, value: Option<string>): Params {
    if value.Some? then [(name, value.value)] else []
  }

  function Fields(kind: Kind, v: Values): Params {
    [(kind.Name(), v.message)] + OptionalField("RelayState", v.relayState) + [("SigAlg", v.sigAlg)]
    + OptionalField("Signature", v.signature)
  }

  function EncodedOption(value: Option<string>): Option<string>
    requires value.Some? ==> Bytes(value.value)
  {
    if value.Some? then Some(UrlEncode(value.value)) else None
  }

  function Encoded(s: Signed, withSignature: bool): Values
    requires s.Valid()
  {
    Values(UrlEncode(s.message), EncodedOption(s.relayState), UrlEncode(s.sigAlg),
           if withSignature then Some(UrlEncode(s.signature)) else None)
  }

  function Plain(s: Signed, withSignature: bool): Values {
    Values(s.message, s.relayState, s.sigAlg, if withSignature then Some(s.signature) else None)
  }

  lemma {:induction false} ValuesConcat(a: Params, b: Params, name: string)
    ensures ValuesOf(a + b, name) == ValuesOf(a, name) + ValuesOf(b, name)
  {
    if a == [] {
      NothingBefore(b);
      NothingBefore(ValuesOf(b, name));
    } else {
      ConsConcat(a, b);
      ValuesConcat(a[1..], b, name);
      Associate(if a[0].0 == name then [a[0].1] else [], ValuesOf(a[1..], name), ValuesOf(b, name));
    }
  }

  lemma {:induction false} DecodedConcat(a: Params, b: Params)
    ensures Decoded(a + b) == Decoded(a) + Decoded(b)
  {
    hide FormDecode;
    if a == [] {
      NothingBefore(b);
      NothingBefore(Decoded(b));
    } else {
      ConsConcat(a, b);
      DecodedConcat(a[1..], b);
      Associate([(FormDecode(a[0].0), FormDecode(a[0].1))], Decoded(a[1..]), Decoded(b));
    }
  }

  lemma ValuesOfOne(name: string, value: string, wanted: string)
    ensures ValuesOf([(name, value)], wanted) == if name == wanted then [value] else []
  {
    assert ValuesOf([(name, value)][1..], wanted) == [];
  }

  lemma ValuesOfField(name: string, value: Option<string>, wanted: string)
    ensures ValuesOf(OptionalField(name, value), wanted) == if name == wanted then Optional(value) else []
  {
    if value.Some? {
      ValuesOfOne(name, value.value, wanted);
    }
  }

  lemma FieldValues(kind: Kind, v: Values, wanted: string)
    ensures ValuesOf(Fields(kind, v), wanted)
         == (if kind.Name() == wanted then [v.message] else [])
            + (if "RelayState" == wanted then Optional(v.relayState) else [])
            + (if "SigAlg" == wanted then [v.sigAlg] else [])
            + (if "Signature" == wanted then Optional(v.signature) else [])
  {
    hide ValuesOf, OptionalField, Optional, Kind.Name;
    var a, b, c, d := [(kind.Name(), v.message)], OptionalField("RelayState", v.relayState), [("SigAlg", v.sigAlg)],
                      OptionalField("Signature", v.signature);
    ValuesConcat(a + b + c, d, wanted);
    ValuesConcat(a + b, c, wanted);
    ValuesConcat(a, b, wanted);
    ValuesOfOne(kind.Name(), v.message, wanted);
    ValuesOfField("RelayState", v.relayState, wanted);
    ValuesOfOne("SigAlg", v.sigAlg, wanted);
    ValuesOfField("Signature", v.signature, wanted);
  }

  /** Every field of the binding holds its own value and nothing else; the opposite message is absent. */
  lemma FieldsHoldTheirValues(kind: Kind, v: Values)
    ensures ValuesOf(Fields(kind, v), kind.Name()) == [v.message]
    ensures ValuesOf(Fields(kind, v), kind.Opposite()) == []
    ensures ValuesOf(Fields(kind, v), "RelayState") == Optional(v.relayState)
    ensures ValuesOf(Fields(kind, v), "SigAlg") == [v.sigAlg]
    ensures ValuesOf(Fields(kind, v), "Signature") == Optional(v.signature)
  {
    hide ValuesOf, Fields;
    assert |"SAMLRequest"| == 11 && |"SAMLResponse"| == 12 && |"RelayState"| == 10 && |"SigAlg"| == 6
        && |"Signature"| == 9;
    FieldValues(kind, v, kind.Name());
    FieldValues(kind, v, kind.Opposite());
    FieldValues(kind, v, "RelayState");
    FieldValues(kind, v, "SigAlg");
    FieldValues(kind, v, "Signature");
  }

  predicate Plainly(s: string) {
    forall i :: 0 <= i < |s| ==> Unreserved(s[i])
  }

  lemma {:induction false} UnreservedDecodesToItself(s: string)
    requires Plainly(s)
    ensures FormDecode(s) == s
  {
    if s != "" {
      UnreservedDecodesToItself(s[1..]);
    }
  }

  const FIELD_NAMES: set<string> := {"SAMLRequest", "SAMLResponse", "RelayState", "SigAlg", "Signature"}

  lemma FieldNamesAreUnreserved()
    ensures Plainly("SAMLRequest") && Plainly("SAMLResponse") && Plainly("RelayState") && Plainly("SigAlg")
    ensures Plainly("Signature")
  {
  }

  lemma FieldNamesArePlain(name: string)
    requires name in FIELD_NAMES
    ensures Inert(name) && FormDecode(name) == name
  {
    hide Plainly, Inert, FormDecode;
    FieldNamesAreUnreserved();
    assert Plainly(name);
    PlainIsInert(name);
    UnreservedDecodesToItself(name);
  }

  lemma PlainIsInert(name: string)
    requires Plainly(name)
    ensures Inert(name)
  {
  }

  lemma DecodedOptionalField(name: string, value: Option<string>)
    requires name in FIELD_NAMES && (value.Some? ==> Bytes(value.value))
    ensures Decoded(OptionalField(name, EncodedOption(value))) == OptionalField(name, value)
  {
    if value.Some? {
      DecodedField(name, value.value);
    }
  }

  lemma DecodedField(name: string, value: string)
    requires name in FIELD_NAMES && Bytes(value)
    ensures Decoded([(name, UrlEncode(value))]) == [(name, value)]
  {
    FieldNamesArePlain(name);
    DecodeUndoesEncode(value);
    assert Decoded([(name, UrlEncode(value))][1..]) == [];
  }

  /** Decoding the encoded fields gives the fields. */
  lemma DecodedFields(kind: Kind, s: Signed, withSignature: bool)
    requires s.Valid()
    ensures Decoded(Fields(kind, Encoded(s, withSignature))) == Fields(kind, Plain(s, withSignature))
  {
    hide Decoded, OptionalField, UrlEncode;
    var v := Encoded(s, withSignature);
    var a, b, c, d := [(kind.Name(), v.message)], OptionalField("RelayState", v.relayState), [("SigAlg", v.sigAlg)],
                      OptionalField("Signature", v.signature);
    DecodedConcat(a + b + c, d);
    DecodedConcat(a + b, c);
    DecodedConcat(a, b);
    DecodedField(kind.Name(), s.message);
    DecodedOptionalField("RelayState", s.relayState);
    DecodedField("SigAlg", s.sigAlg);
    DecodedOptionalField("Signature", if withSignature then Some(s.signature) else None);
  }

  lemma OneMoreField(query: string, name: string, value: string)
    requires name in FIELD_NAMES && Bytes(value)
    ensures RawParams(query + "&" + (name + "=" + UrlEncode(value))) == RawParams(query) + [(name, UrlEncode(value))]
  {
    hide RawParams;
    RawParamsJoin(query, name + "=" + UrlEncode(value));
    FieldNamesArePlain(name);
    EncodedIsInert(value);
    FieldIsOneParam(name, UrlEncode(value));
  }

  lemma SeparatedField(query: string, name: string, literal: string, value: string)
    requires literal == "&" + name + "="
    ensures query + "&" + (name + "=" + value) == query + literal + value
  {
  }

  lemma Separators()
    ensures "&RelayState=" == "&" + "RelayState" + "="
    ensures "&SigAlg=" == "&" + "SigAlg" + "="
    ensures "&Signature=" == "&" + "Signature" + "="
  {
  }

  /** The octet string's parameters are the encoded fields, in order. */
  lemma OctetParams(kind: Kind, s: Signed)
    requires s.Valid()
    ensures RawParams(Octet(kind, s)) == Fields(kind, Encoded(s, false))
    ensures RawParams(Octet(kind, s) + "&Signature=" + UrlEncode(s.signature)) == Fields(kind, Encoded(s, true))
  {
    hide RawParams, UrlEncode, Inert;
    Separators();
    var message := kind.Name() + "=" + UrlEncode(s.message);
    FieldNamesArePlain(kind.Name());
    EncodedIsInert(s.message);
    FieldIsOneParam(kind.Name(), UrlEncode(s.message));
    var related := message + RelayPart(s.relayState);
    if s.relayState.Some? {
      OneMoreField(message, "RelayState", s.relayState.value);
      SeparatedField(message, "RelayState", "&RelayState=", UrlEncode(s.relayState.value));
      Associate(message, "&RelayState=", UrlEncode(s.relayState.value));
    } else {
      NothingAfter(message);
      NothingAfter(RawParams(message));
    }
    OneMoreField(related, "SigAlg", s.sigAlg);
    SeparatedField(related, "SigAlg", "&SigAlg=", UrlEncode(s.sigAlg));
    OneMoreField(Octet(kind, s), "Signature", s.signature);
    SeparatedField(Octet(kind, s), "Signature", "&Signature=", UrlEncode(s.signature));
    NothingAfter(RawParams(related) + [("SigAlg", UrlEncode(s.sigAlg))]);
  }

  // ----- from the URL to the query

  lemma {:induction false} AfterConcat(a: string, b: string, c: char)
    ensures After(a + b, c) == if After(a, c).Some? then Some(After(a, c).value + b) else After(b, c)
  {
    if a == "" {
      NothingBefore(b);
    } else {
      ConsConcat(a, b);
      AfterConcat(a[1..], b, c);
    }
  }

  lemma {:induction false} TrimConcat(a: string, b: string)
    requires b != "" && b[0] != '?'
    ensures TrimQuestionMarks(a + b) == TrimQuestionMarks(a) + b
  {
    if a == "" {
      NothingBefore(b);
    } else {
      ConsConcat(a, b);
      if a[0] == '?' {
        TrimConcat(a[1..], b);
      }
    }
  }

  /** The base URL's own query, as the receiver sees it. */
  function OwnQuery(base: string): string {
    if HasQuery(base) then TrimQuestionMarks(After(base, '?').value) else ""
  }

  predicate FragmentFree(text: string) {
    forall i :: 0 <= i < |text| ==> text[i] != '#'
  }

  lemma FragmentFreeConcat(a: string, b: string)
    requires FragmentFree(a) && FragmentFree(b)
    ensures FragmentFree(a + b)
  {
    forall i | 0 <= i < |a + b|
      ensures (a + b)[i] != '#'
    {
      assert (a + b)[i] == if i < |a| then a[i] else b[i - |a|];
    }
  }

  lemma {:induction false} NoFragmentToCut(text: string)
    requires FragmentFree(text)
    ensures Before(text, '#') == text
  {
    if text != "" {
      NoFragmentToCut(text[1..]);
    }
  }

  lemma LiteralsAreFragmentFree()
    ensures FragmentFree("&RelayState=") && FragmentFree("&SigAlg=") && FragmentFree("&Signature=") && FragmentFree("")
    ensures FragmentFree("SAMLRequest=") && FragmentFree("SAMLResponse=") && FragmentFree("&") && FragmentFree("?")
  {
  }

  /** What the sender appends to the base URL. */
  function SignedQuery(kind: Kind, s: Signed): string
    requires s.Valid()
  {
    Octet(kind, s) + "&Signature=" + UrlEncode(s.signature)
  }

  lemma EncodedIsFragmentFree(s: string)
    requires Bytes(s)
    ensures FragmentFree(UrlEncode(s))
  {
    EncodedIsInert(s);
  }

  lemma SignedQueryIsFragmentFree(kind: Kind, s: Signed)
    requires s.Valid()
    ensures FragmentFree(SignedQuery(kind, s))
  {
    hide FragmentFree, UrlEncode;
    LiteralsAreFragmentFree();
    EncodedIsFragmentFree(s.message);
    EncodedIsFragmentFree(s.sigAlg);
    EncodedIsFragmentFree(s.signature);
    var message := kind.Name() + "=" + UrlEncode(s.message);
    assert kind.Name() + "=" == if kind.Request? then "SAMLRequest=" else "SAMLResponse=";
    FragmentFreeConcat(kind.Name() + "=", UrlEncode(s.message));
    var related := message + RelayPart(s.relayState);
    if s.relayState.Some? {
      EncodedIsFragmentFree(s.relayState.value);
      FragmentFreeConcat("&RelayState=", UrlEncode(s.relayState.value));
    }
    FragmentFreeConcat(message, RelayPart(s.relayState));
    FragmentFreeConcat(related, "&SigAlg=");
    FragmentFreeConcat(related + "&SigAlg=", UrlEncode(s.sigAlg));
    FragmentFreeConcat(Octet(kind, s), "&Signature=");
    FragmentFreeConcat(Octet(kind, s) + "&Signature=", UrlEncode(s.signature));
  }

  lemma SignedQueryBegins(kind: Kind, s: Signed)
    requires s.Valid()
    ensures SignedQuery(kind, s) != "" && SignedQuery(kind, s)[0] == 'S'
  {
    hide UrlEncode;
  }

  /** The receiver's query is the base URL's own, then the sender's. */
  lemma ReceivedQuery(base: string, kind: Kind, s: Signed)
    requires s.Valid() && FragmentFree(base)
    ensures TrimQuestionMarks(QueryOf(SignedUrl(base, kind, s)))
         == if HasQuery(base) then OwnQuery(base) + "&" + SignedQuery(kind, s) else SignedQuery(kind, s)
  {
    hide Octet, UrlEncode, FragmentFree;
    var tail := SignedQuery(kind, s);
    var separator := if HasQuery(base) then "&" else "?";
    var url := base + separator + tail;
    SignedQueryBegins(kind, s);
    SignedQueryIsFragmentFree(kind, s);
    LiteralsAreFragmentFree();
    FragmentFreeConcat(base, separator);
    FragmentFreeConcat(base + separator, tail);
    Associate(base + separator, Octet(kind, s), "&Signature=");
    Associate(base + separator, Octet(kind, s) + "&Signature=", UrlEncode(s.signature));
    assert SignedUrl(base, kind, s) == url;
    NoFragmentToCut(url);
    Associate(base, separator, tail);
    AfterConcat(base, separator + tail, '?');
    if HasQuery(base) {
      TrimConcat(After(base, '?').value, "&" + tail);
      Associate(OwnQuery(base), "&", tail);
    } else {
      assert ("?" + tail)[1..] == tail;
    }
  }

  // ----- agreement

  /**
   * What `verify_detached` verifies of a redirect: signature, algorithm and octet string,
   * once the consumed fields are the signed ones.
   */
  function DetachedInputs(kind: Kind, request: HttpRequest): Result<(string, string, string), SamlError> {
    var signature :- Single(request.query, "Signature");
    if signature.None? then Err(SignatureMissing)
    else
      var sigAlg :- Needed(Single(request.query, "SigAlg"));
      var octet :- Needed(Ok(request.octet));
      var _ :- OctetMatchesFields(kind, request, sigAlg, octet);
      Ok((signature.value, sigAlg, octet))
  }

  /** The receiver ends up with exactly what was signed, and with the message and relay state that were sent. */
  predicate Delivered(kind: Kind, s: Signed, received: Result<HttpRequest, SamlError>)
    requires s.Valid()
  {
    && received.Ok?
    && DetachedInputs(kind, received.value) == Ok((s.signature, s.sigAlg, Octet(kind, s)))
    && Single(received.value.query, kind.Name()) == Ok(Some(s.message))
    && Single(received.value.query, "RelayState") == Ok(s.relayState)
  }

  /** Parameters of the base URL's own query. */
  function Carried(base: string): Params {
    if HasQuery(base) then RawParams(OwnQuery(base)) else []
  }

  predicate Used(name: string, kind: Kind) {
    name == kind.Name() || name == "RelayState" || name == "SigAlg" || name == "Signature"
  }

  /** No parameter decodes to a field of the binding, and none is literally the opposite message. */
  predicate Clean(params: Params, kind: Kind) {
    forall i :: 0 <= i < |params| ==> !Used(FormDecode(params[i].0), kind) && params[i].0 != kind.Opposite()
  }

  lemma {:induction false} NoValuesIff(params: Params, name: string)
    ensures ValuesOf(params, name) == [] <==> forall i :: 0 <= i < |params| ==> params[i].0 != name
  {
    if params != [] {
      NoValuesIff(params[1..], name);
      assert forall i :: 1 <= i < |params| ==> params[i] == params[1..][i - 1];
    }
  }

  lemma {:induction false} DecodedNames(params: Params)
    ensures |Decoded(params)| == |params|
    ensures forall i :: 0 <= i < |params| ==> Decoded(params)[i].0 == FormDecode(params[i].0)
  {
    if params != [] {
      DecodedNames(params[1..]);
    }
  }

  lemma CleanIff(params: Params, kind: Kind)
    ensures Clean(params, kind) <==>
            && ValuesOf(Decoded(params), kind.Name()) == [] && ValuesOf(Decoded(params), "RelayState") == []
            && ValuesOf(Decoded(params), "SigAlg") == [] && ValuesOf(Decoded(params), "Signature") == []
            && ValuesOf(params, kind.Opposite()) == []
  {
    hide ValuesOf, Decoded, FormDecode;
    DecodedNames(params);
    NoValuesIff(Decoded(params), kind.Name());
    NoValuesIff(Decoded(params), "RelayState");
    NoValuesIff(Decoded(params), "SigAlg");
    NoValuesIff(Decoded(params), "Signature");
    NoValuesIff(params, kind.Opposite());
  }

  /** A field of the binding that no parameter decodes to is not there literally either. */
  lemma NoRawValues(params: Params, name: string)
    requires name in FIELD_NAMES && ValuesOf(Decoded(params), name) == []
    ensures ValuesOf(params, name) == []
  {
    hide ValuesOf, Decoded, FormDecode;
    FieldNamesArePlain(name);
    DecodedNames(params);
    NoValuesIff(Decoded(params), name);
    NoValuesIff(params, name);
  }

  /** A field read from the base URL's parameters followed by the sender's. */
  lemma SingleAcross(carried: Params, sent: Params, name: string)
    ensures ValuesOf(carried, name) == [] ==> Single(carried + sent, name) == Single(sent, name)
    ensures Single(carried + sent, name).Ok? && ValuesOf(sent, name) != [] ==> ValuesOf(carried, name) == []
    ensures Single(carried + sent, name) == Ok(None) ==> ValuesOf(carried, name) == []
  {
    hide ValuesOf;
    ValuesConcat(carried, sent, name);
    NothingBefore(ValuesOf(sent, name));
  }

  lemma SentFields(kind: Kind, v: Values)
    ensures Single(Fields(kind, v), kind.Name()) == Ok(Some(v.message))
    ensures Single(Fields(kind, v), kind.Opposite()) == Ok(None)
    ensures Single(Fields(kind, v), "RelayState") == Ok(v.relayState)
    ensures Single(Fields(kind, v), "SigAlg") == Ok(Some(v.sigAlg))
    ensures Single(Fields(kind, v), "Signature") == Ok(v.signature)
  {
    hide ValuesOf, Fields;
    FieldsHoldTheirValues(kind, v);
  }

  lemma CleanRebuilds(query: string, carried: Params, kind: Kind, s: Signed)
    requires s.Valid() && Clean(carried, kind)
    requires RawParams(query) == carried + Fields(kind, Encoded(s, true))
    ensures RebuiltOctet(query, kind) == Ok(Some(Octet(kind, s)))
  {
    hide ValuesOf, Fields, Clean, RawParams, Single, UrlEncode, Decoded;
    CleanIff(carried, kind);
    NoRawValues(carried, kind.Name());
    NoRawValues(carried, "RelayState");
    NoRawValues(carried, "SigAlg");
    NoRawValues(carried, "Signature");
    var sent := Fields(kind, Encoded(s, true));
    SentFields(kind, Encoded(s, true));
    SingleAcross(carried, sent, kind.Name());
    SingleAcross(carried, sent, kind.Opposite());
    SingleAcross(carried, sent, "RelayState");
    SingleAcross(carried, sent, "SigAlg");
    SingleAcross(carried, sent, "Signature");
  }

  /** A sender's octet string passes for exactly the requests that carry the fields it signs. */
  lemma SignedOctetMatchesItsFields(kind: Kind, request: HttpRequest, sigAlg: string, s: Signed)
    requires s.Valid()
    ensures OctetMatchesFields(kind, request, sigAlg, Octet(kind, s)).Ok? <==>
            && Single(request.query, kind.Name()) == Ok(Some(s.message)) && sigAlg == s.sigAlg
            && Single(request.query, "RelayState") == Ok(s.relayState)
  {
    hide ValuesOf, Fields, RawParams, Single, Octet, Decoded;
    OctetParams(kind, s);
    DecodedFields(kind, s, false);
    SentFields(kind, Plain(s, false));
  }

  lemma CleanFieldsMatch(request: HttpRequest, carried: Params, kind: Kind, s: Signed)
    requires s.Valid() && Clean(carried, kind)
    requires request == HttpRequest(Decoded(carried) + Fields(kind, Plain(s, true)), [], Some(Octet(kind, s)))
    ensures Delivered(kind, s, Ok(request))
  {
    hide ValuesOf, Fields, Clean, RawParams, Single, Octet, Decoded, Used;
    CleanIff(carried, kind);
    var sent := Fields(kind, Plain(s, true));
    SentFields(kind, Plain(s, true));
    SingleAcross(Decoded(carried), sent, kind.Name());
    SingleAcross(Decoded(carried), sent, "RelayState");
    SingleAcross(Decoded(carried), sent, "SigAlg");
    SingleAcross(Decoded(carried), sent, "Signature");
    OctetParams(kind, s);
    DecodedFields(kind, s, false);
    SentFields(kind, Plain(s, false));
  }

  lemma DeliveredIsClean(request: HttpRequest, carried: Params, kind: Kind, s: Signed)
    requires s.Valid() && Delivered(kind, s, Ok(request))
    requires request.query == Decoded(carried) + Fields(kind, Plain(s, true))
    requires Single(carried + Fields(kind, Encoded(s, true)), kind.Opposite()) == Ok(None)
    ensures Clean(carried, kind)
  {
    hide ValuesOf, Fields, Clean, RawParams, Single, Octet, Decoded, OctetMatchesFields;
    CleanIff(carried, kind);
    var sent := Fields(kind, Plain(s, true));
    FieldsHoldTheirValues(kind, Plain(s, true));
    SingleAcross(carried, Fields(kind, Encoded(s, true)), kind.Opposite());
    SingleAcross(Decoded(carried), sent, kind.Name());
    SingleAcross(Decoded(carried), sent, "RelayState");
    SingleAcross(Decoded(carried), sent, "SigAlg");
    SingleAcross(Decoded(carried), sent, "Signature");
  }

  lemma ReceivedParams(base: string, kind: Kind, s: Signed)
    requires s.Valid() && FragmentFree(base)
    ensures RawParams(TrimQuestionMarks(QueryOf(SignedUrl(base, kind, s))))
         == Carried(base) + Fields(kind, Encoded(s, true))
  {
    hide RawParams, OwnQuery, HasQuery, SignedUrl, QueryOf, TrimQuestionMarks, Fields, Octet;
    ReceivedQuery(base, kind, s);
    OctetParams(kind, s);
    if HasQuery(base) {
      RawParamsJoin(OwnQuery(base), SignedQuery(kind, s));
    } else {
      NothingBefore(Fields(kind, Encoded(s, true)));
    }
  }

  /**
   * Sender and receiver agree exactly when the base URL's own query leaves the binding's
   * names alone: then the receiver rebuilds the very octet string that was signed, and the
   * check of consumed fields accepts it. Message, relay state, algorithm and signature are
   * arbitrary bytes.
   */
  lemma ReceiverRebuildsTheSignedOctet(base: string, kind: Kind, s: Signed)
    requires s.Valid() && FragmentFree(base)
    ensures Delivered(kind, s, Receive(QueryOf(SignedUrl(base, kind, s)), kind)) <==> Clean(Carried(base), kind)
  {
    hide RawParams, HasQuery, SignedUrl, QueryOf, TrimQuestionMarks, Fields, Octet, Clean, Carried, Single, Delivered,
         Decoded;
    var query := TrimQuestionMarks(QueryOf(SignedUrl(base, kind, s)));
    var carried := Carried(base);
    ReceivedParams(base, kind, s);
    DecodedConcat(carried, Fields(kind, Encoded(s, true)));
    DecodedFields(kind, s, true);
    if Clean(carried, kind) {
      CleanRebuilds(query, carried, kind, s);
      CleanFieldsMatch(Receive(QueryOf(SignedUrl(base, kind, s)), kind).value, carried, kind, s);
    }
    var received := Receive(QueryOf(SignedUrl(base, kind, s)), kind);
    if Delivered(kind, s, received) {
      DeliveredMeansReceived(kind, s, received);
      DeliveredIsClean(received.value, carried, kind, s);
    }
  }

  lemma DeliveredMeansReceived(kind: Kind, s: Signed, received: Result<HttpRequest, SamlError>)
    requires s.Valid() && Delivered(kind, s, received)
    ensures received.Ok?
  {
  }

  /** A relay state in the base URL's own query, however it is spelled, breaks agreement for every message. */
  lemma CarriedRelayStateBreaksAgreement(base: string, kind: Kind, s: Signed, i: nat)
    requires s.Valid() && FragmentFree(base)
    requires i < |Carried(base)| && FormDecode(Carried(base)[i].0) == "RelayState"
    ensures !Delivered(kind, s, Receive(QueryOf(SignedUrl(base, kind, s)), kind))
  {
    hide HasQuery, SignedUrl, QueryOf, Octet, Carried, Delivered, FormDecode, Receive;
    assert Used(FormDecode(Carried(base)[i].0), kind);
    ReceiverRebuildsTheSignedOctet(base, kind, s);
  }

  const ENDPOINT: string := "https://idp.example.com/sso"

  const CARRIED_RELAY_STATE: string := "RelayState" + "=" + "r"

  lemma EndpointIsBare()
    ensures forall i :: 0 <= i < |ENDPOINT| ==> ENDPOINT[i] != '#' && ENDPOINT[i] != '?'
  {
  }

  lemma CarriedRelayStateIsBare()
    ensures FragmentFree(CARRIED_RELAY_STATE) && CARRIED_RELAY_STATE != "" && CARRIED_RELAY_STATE[0] == 'R'
  {
  }

  /** An endpoint with such a query. */
  lemma AnEndpointThatCarriesARelayState()
    ensures var base := ENDPOINT + "?" + CARRIED_RELAY_STATE;
            FragmentFree(base) && Carried(base) == [("RelayState", "r")]
            && FormDecode(Carried(base)[0].0) == "RelayState"
  {
    hide RawParams, FormDecode, ENDPOINT, CARRIED_RELAY_STATE;
    EndpointIsBare();
    CarriedRelayStateIsBare();
    FragmentFreeConcat(ENDPOINT, "?");
    FragmentFreeConcat(ENDPOINT + "?", CARRIED_RELAY_STATE);
    assert ENDPOINT + ['?'] + CARRIED_RELAY_STATE == ENDPOINT + "?" + CARRIED_RELAY_STATE;
    AroundFirst(ENDPOINT, '?', CARRIED_RELAY_STATE);
    FieldNamesArePlain("RelayState");
    OneRelayState();
    assert OwnQuery(ENDPOINT + "?" + CARRIED_RELAY_STATE) == CARRIED_RELAY_STATE;
  }

  lemma OneRelayState()
    ensures RawParams(CARRIED_RELAY_STATE) == [("RelayState", "r")]
  {
    FieldNamesArePlain("RelayState");
    FieldIsOneParam("RelayState", "r");
  }
}
