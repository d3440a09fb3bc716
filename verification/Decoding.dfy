/**
 * Bounded decoders of the HTTP bindings (src/binding/encoding.rs, src/binding/deflate.rs).
 * The base64 table and the DEFLATE decompressor are parameters with stated contracts.
 */
module Decoding {
  import opened Prelude

  type Bytes = seq<bv8>

  // `usize` and the length limit of any allocation, on a 64-bit target.
  const USIZE_MAX: nat := 0xFFFF_FFFF_FFFF_FFFF
  const ISIZE_MAX: nat := 0x7FFF_FFFF_FFFF_FFFF

  function SaturatingAdd(a: nat, b: nat): nat {
    if a + b > USIZE_MAX then USIZE_MAX else a + b
  }

  function SaturatingMul(a: nat, b: nat): nat {
    if a * b > USIZE_MAX then USIZE_MAX else a * b
  }

  // ----- base64

  predicate Ascii(s: string) {
    forall i :: 0 <= i < |s| ==> s[i] as int < 128
  }

  function Without(s: string, drop: char -> bool): string {
    if s == "" then "" else (if drop(s[0]) then "" else [s[0]]) + Without(s[1..], drop)
  }

  type Decoder = string -> Option<Bytes>

  /** The length law of section 4 of RFC 4648: four characters for three bytes, less at most two of padding. */
  ghost predicate LengthLaw(decode: Decoder) {
    forall s: string :: decode(s).Some? ==>
      |s| % 4 == 0 && |decode(s).value| <= 3 * (|s| / 4) <= |decode(s).value| + 2
  }

  function Required(decoded: Option<Bytes>): Result<Bytes, SamlError> {
    if decoded.Some? then Ok(decoded.value) else Err(Invalid)
  }

  /** `base64_decode`: whitespace is dropped, unless none is there. */
  function Base64Decode(input: string, decode: Decoder): Result<Bytes, SamlError> {
    if Ascii(input) && forall i :: 0 <= i < |input| ==> !AsciiWhitespace(input[i]) then Required(decode(input))
    else Required(decode(Without(input, CharWhitespace)))
  }

  function MaxEncoded(limit: nat): nat {
    SaturatingMul(SaturatingAdd(limit, 2) / 3, 4)
  }

  /** `base64_decode_with_limit`. */
  method Base64DecodeWithLimit(input: string, limit: nat, decode: Decoder) returns (r: Result<Bytes, SamlError>)
    ensures r == Base64DecodeBounded(input, limit, decode)
  {
    var normalizedLen := 0;
    for i := 0 to |input|
      invariant normalizedLen + |Without(input[i..], AsciiWhitespace)| == |Without(input, AsciiWhitespace)|
    {
      assert input[i..][0] == input[i] && input[i..][1..] == input[i + 1..];
      if !AsciiWhitespace(input[i]) {
        normalizedLen := normalizedLen + 1;
      }
    }
    if normalizedLen > MaxEncoded(limit) {
      return Err(Invalid);
    }
    var normalized := input;
    if normalizedLen != |input| || !Ascii(input) {
      normalized := Without(input, CharWhitespace);
    }
    var out := decode(normalized);
    if out.None? || |out.value| > limit {
      return Err(Invalid);
    }
    r := Ok(out.value);
  }

  function Base64DecodeBounded(input: string, limit: nat, decode: Decoder): Result<Bytes, SamlError> {
    var normalizedLen := |Without(input, AsciiWhitespace)|;
    if normalizedLen > MaxEncoded(limit) then Err(Invalid)
    else
      var normalized := if normalizedLen == |input| && Ascii(input) then input else Without(input, CharWhitespace);
      match decode(normalized)
      case None => Err(Invalid)
      case Some(out) => if |out| > limit then Err(Invalid) else Ok(out)
  }

  lemma {:induction false} NothingDropped(s: string)
    ensures |Without(s, AsciiWhitespace)| <= |s|
    ensures |Without(s, AsciiWhitespace)| == |s| <==> forall i :: 0 <= i < |s| ==> !AsciiWhitespace(s[i])
  {
    if s != "" {
      NothingDropped(s[1..]);
      assert forall i :: 1 <= i < |s| ==> s[i] == s[1..][i - 1];
    }
  }

  lemma {:induction false} WhitespaceAgrees(s: string)
    ensures |Without(s, CharWhitespace)| <= |Without(s, AsciiWhitespace)|
    ensures VERTICAL_TAB !in s ==> Without(s, CharWhitespace) == Without(s, AsciiWhitespace)
  {
    if s != "" {
      WhitespaceAgrees(s[1..]);
    }
  }

  /** The encoded-length check never turns away text whose decoded form would fit. */
  lemma FittingInputPassesTheCheck(n: nat, decoded: nat, limit: nat)
    requires n % 4 == 0 && 3 * (n / 4) <= decoded + 2 && decoded <= limit && n <= ISIZE_MAX
    ensures n <= MaxEncoded(limit)
  {
    assert n == 4 * (n / 4);
    if limit + 2 <= USIZE_MAX {
      assert n / 4 <= (limit + 2) / 3;
    }
  }

  /**
   * On ASCII input the bounded decoder succeeds exactly when the unbounded one does within
   * the limit and the characters it counts pass its length check; then both give the same
   * bytes. Without vertical tabs the length check is no extra condition.
   */
  lemma BoundedIsUnboundedWithinLimit(input: string, limit: nat, decode: Decoder)
    requires Ascii(input) && |input| <= ISIZE_MAX && LengthLaw(decode)
    ensures Base64DecodeBounded(input, limit, decode).Ok? <==>
            && Base64Decode(input, decode).Ok? && |Base64Decode(input, decode).value| <= limit
            && |Without(input, AsciiWhitespace)| <= MaxEncoded(limit)
    ensures VERTICAL_TAB !in input && Base64Decode(input, decode).Ok?
            && |Base64Decode(input, decode).value| <= limit ==>
              |Without(input, AsciiWhitespace)| <= MaxEncoded(limit)
    ensures Base64DecodeBounded(input, limit, decode).Ok? ==>
              Base64DecodeBounded(input, limit, decode) == Base64Decode(input, decode)
  {
    NothingDropped(input);
    WhitespaceAgrees(input);
    var normalized := if |Without(input, AsciiWhitespace)| == |input| then input else Without(input, CharWhitespace);
    assert Base64Decode(input, decode) == Required(decode(normalized));
    if VERTICAL_TAB !in input && decode(normalized).Some? && |decode(normalized).value| <= limit {
      FittingInputPassesTheCheck(|normalized|, |decode(normalized).value|, limit);
    }
  }

  /**
   * The vertical tab makes the difference: beside a space it is dropped before decoding, yet
   * it counts, so three bytes that fit the limit are refused.
   */
  lemma CountedVerticalTabRefusesFittingInput(decode: Decoder)
    requires LengthLaw(decode) && decode("QUJD").Some?
    ensures var input := "QUJD" + [VERTICAL_TAB] + " ";
            && Ascii(input) && Base64Decode(input, decode).Ok? && |Base64Decode(input, decode).value| <= 3
            && Base64DecodeBounded(input, 3, decode).Err?
  {
    hide Without;
    var input := "QUJD" + [VERTICAL_TAB] + " ";
    TabAndSpaceAreDropped();
    assert input[5] == ' ';
    assert |"QUJD"| == 4 && |decode("QUJD").value| <= 3;
    assert MaxEncoded(3) == 4;
  }

  lemma TabAndSpaceAreDropped()
    ensures var input := "QUJD" + [VERTICAL_TAB] + " ";
            Ascii(input) && Without(input, CharWhitespace) == "QUJD" && |Without(input, AsciiWhitespace)| == 5
  {
    hide Without;
    Associate("QUJD", [VERTICAL_TAB], " ");
    WithoutConcat("QUJD", [VERTICAL_TAB] + " ", CharWhitespace);
    WithoutConcat("QUJD", [VERTICAL_TAB] + " ", AsciiWhitespace);
    TabAndSpace();
    NothingAfter("QUJD");
  }

  lemma TabAndSpace()
    ensures Without([VERTICAL_TAB] + " ", CharWhitespace) == "" && |Without([VERTICAL_TAB] + " ", AsciiWhitespace)| == 1
    ensures Without("QUJD", CharWhitespace) == "QUJD" && Without("QUJD", AsciiWhitespace) == "QUJD"
  {
    assert ([VERTICAL_TAB] + " ")[1..] == " " && " "[1..] == "";
    KeptWhole("QUJD", CharWhitespace);
    KeptWhole("QUJD", AsciiWhitespace);
  }

  lemma {:induction false} KeptWhole(s: string, drop: char -> bool)
    requires forall i :: 0 <= i < |s| ==> !drop(s[i])
    ensures Without(s, drop) == s
  {
    if s != "" {
      KeptWhole(s[1..], drop);
      assert s == [s[0]] + s[1..];
    }
  }

  lemma {:induction false} WithoutConcat(a: string, b: string, drop: char -> bool)
    ensures Without(a + b, drop) == Without(a, drop) + Without(b, drop)
  {
    if a == "" {
      NothingBefore(b);
      NothingBefore(Without(b, drop));
    } else {
      ConsConcat(a, b);
      WithoutConcat(a[1..], b, drop);
      Associate(if drop(a[0]) then "" else [a[0]], Without(a[1..], drop), Without(b, drop));
    }
  }

  // ----- inflating

  /** What the bytes at the start of the input are, as raw DEFLATE: a whole stream, a cut one, or no stream. */
  datatype Deflated = Complete(output: Bytes) | Truncated(output: Bytes) | Corrupt(output: Bytes)

  datatype Reply = Failure | Reply(streamEnd: bool, consumed: nat, written: Bytes)

  /** One call of the decompressor, which has read and written so much: `step(totalIn, totalOut, room)`. */
  type Decompressor = (nat, nat, nat) -> Reply

  /**
   * The contract of a stepwise decompressor: it reads and writes within bounds, writes the
   * stream's next bytes, reports the end exactly when a complete stream has been written
   * out, never fails on a complete stream, and makes progress on one while there is room.
   */
  ghost predicate Stepwise(step: Decompressor, input: Bytes, stream: Deflated) {
    forall totalIn: nat, totalOut: nat, room: nat | totalIn <= |input| && totalOut <= |stream.output| ::
      var reply := step(totalIn, totalOut, room);
      if reply.Failure? then !stream.Complete?
      else
        && totalIn + reply.consumed <= |input| && |reply.written| <= room
        && reply.written <= stream.output[totalOut..]
        && (reply.streamEnd ==> stream.Complete? && totalOut + |reply.written| == |stream.output|)
        && (stream.Complete? && room > 0 && !reply.streamEnd ==> reply.consumed + |reply.written| > 0)
  }

  const BUFFER_LEN: nat := 4096

  /**
   * `deflate_raw_decode_with_limit`: it always terminates, never holds more than one byte
   * over the limit, and returns the whole stream exactly when the stream is complete and
   * within the limit, a stream of exactly the limit included.
   */
  method DeflateRawDecodeWithLimit(input: Bytes, limit: nat, step: Decompressor, ghost stream: Deflated)
    returns (r: Result<Bytes, SamlError>, peak: nat)
    requires Stepwise(step, input, stream) && |stream.output| < USIZE_MAX
    ensures r.Ok? <==> stream.Complete? && |stream.output| <= limit
    ensures r.Ok? ==> r.value == stream.output
    ensures peak <= limit + 1
  {
    var out: Bytes := [];
    var inputOffset: nat := 0;
    var readLimit := SaturatingAdd(limit, 1);
    peak := 0;
    while true
      invariant out <= stream.output && inputOffset <= |input|
      invariant |out| <= limit && peak <= limit + 1
      decreases |input| - inputOffset, limit - |out|
    {
      var free := if readLimit > |out| then readLimit - |out| else 0;
      var room := if free < BUFFER_LEN then free else BUFFER_LEN;
      var reply := step(inputOffset, |out|, room);
      if reply.Failure? {
        return Err(Invalid), peak;
      }
      inputOffset := inputOffset + reply.consumed;
      PrefixGrows(stream.output, out, reply.written);
      out := out + reply.written;
      peak := if |out| > peak then |out| else peak;
      if |out| > limit {
        return Err(Invalid), peak;
      }
      if reply.streamEnd {
        return Ok(out), peak;
      }
      if reply.consumed == 0 && reply.written == [] {
        return Err(Invalid), peak;
      }
    }
    assert false;
  }

  lemma PrefixGrows(whole: Bytes, done: Bytes, more: Bytes)
    requires done <= whole && more <= whole[|done|..]
    ensures done + more <= whole
  {
    assert whole == done + whole[|done|..];
  }
}
