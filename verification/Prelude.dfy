/** Shared result types and the error values the modelled functions return. */
module Prelude {

  datatype Option<+T> = None | Some(value: T)

  datatype Result<+T, +E> = Ok(value: T) | Err(error: E) {
    predicate IsFailure() {
      Err?
    }

    /** The same failure at another value type (the early return of Rust's `?`). */
    function PropagateFailure<U>(): Result<U, E>
      requires Err?
    {
      Err(error)
    }

    function Extract(): T
      requires Ok?
    {
      value
    }
  }

  datatype TimeField =
    | PendingRequestExpiration
    | ReplayExpiration
    | SessionNotOnOrAfter
    | ConditionsWindow
    | LogoutRequestNotOnOrAfter
    | IdpIssuanceExpiration
    | MetadataValidUntil

  datatype ConfirmationReason =
    | InvalidMethod
    | MissingNotOnOrAfter
    | ConfirmationExpired
    | RecipientMismatch
    | ConfirmationInResponseToMismatch
    | MissingBearerConfirmation

  /** The error cases of `SamlError` that the modelled code distinguishes. */
  datatype SamlError =
    | Invalid
    | Xml
    | ProtocolProfile
    | TimeWindowInvalid(field: TimeField)
    | SubjectConfirmationInvalid(reason: ConfirmationReason)
    | ReplayDetected(key: string)
    | InResponseToMismatch
    | InvalidInResponseTo
    | DestinationMismatch
    | IssuerMismatch
    | RelayStateMismatch
    | UnsupportedBinding
    | UndefinedBinding
    | PotentialWrappingAttack
    | SignedReferenceMismatch
    | ReferenceResolution
    | SignatureMissing
    | MissingSigAlg
    | SignatureInvalid
    | AssertionSignatureRequired
    | CertificateMismatch
    | NoTrustedCertificate
    | Crypto
    | MissingBindingParameter

  // ----- characters, one per byte

  const VERTICAL_TAB: char := 11 as char

  /** `u8::is_ascii_whitespace`, which leaves out the vertical tab. */
  predicate AsciiWhitespace(c: char) {
    c == ' ' || c == '\t' || c == '\n' || c == 12 as char || c == '\r'
  }

  /** `char::is_whitespace` on ASCII characters. */
  predicate CharWhitespace(c: char) {
    AsciiWhitespace(c) || c == VERTICAL_TAB
  }

  /** White space in XML and in XML Schema. */
  predicate XmlSpace(c: char) {
    c == ' ' || c == '\t' || c == '\n' || c == '\r'
  }

  // ----- sequences

  lemma ConsConcat<T>(a: seq<T>, b: seq<T>)
    requires a != []
    ensures a + b != [] && (a + b)[0] == a[0] && (a + b)[1..] == a[1..] + b
  {
  }

  lemma NothingBefore<T>(b: seq<T>)
    ensures [] + b == b
  {
  }

  lemma NothingAfter<T>(a: seq<T>)
    ensures a + [] == a
  {
  }

  lemma TakeOneMore<T>(s: seq<T>, i: nat)
    requires i < |s|
    ensures s[..i + 1] == s[..i] + [s[i]]
    ensures s[i..] == [s[i]] + s[i + 1..]
  {
  }

  lemma SplitAt<T>(s: seq<T>, i: nat)
    requires i <= |s|
    ensures s == s[..i] + s[i..]
  {
  }

  lemma DropDrop<T>(s: seq<T>, i: nat, n: nat)
    requires i + n <= |s|
    ensures s[i..][n..] == s[i + n..]
  {
  }

  lemma Associate<T>(a: seq<T>, b: seq<T>, c: seq<T>)
    ensures a + b + c == a + (b + c)
  {
  }
}
