/** Base 16 encoding as defined in section 8 of RFC 4648, in the lower-case
    form the `hex` crate's `encode` produces. */
module Hex {
  import opened Machine
  import opened Wrappers

  const ALPHABET: string := "0123456789abcdef"

  predicate IsLowerHexDigit(c: char) {
    ('0' <= c <= '9') || ('a' <= c <= 'f')
  }

  function DigitOf(v: int): (c: char)
    requires 0 <= v < 16
    ensures IsLowerHexDigit(c)
  {
    ALPHABET[v]
  }

  /** The value of one hex digit; upper and lower case are both accepted
      on decoding, as section 8 of RFC 4648 allows. */
  function ValueOf(c: char): (r: Option<int>)
    ensures r.Some? ==> 0 <= r.value < 16
    ensures IsLowerHexDigit(c) ==> r.Some?
  {
    if '0' <= c <= '9' then Some(c as int - '0' as int)
    else if 'a' <= c <= 'f' then Some(c as int - 'a' as int + 10)
    else if 'A' <= c <= 'F' then Some(c as int - 'A' as int + 10)
    else None
  }

  lemma ValueOfDigitOf(v: int)
    requires 0 <= v < 16
    ensures ValueOf(DigitOf(v)) == Some(v)
  {
  }

  /** `hex::encode`: two lower-case digits per byte, high nibble first. */
  function Encode(bytes: seq<byte>): (s: string)
    ensures |s| == 2 * |bytes|
    ensures forall k :: 0 <= k < |s| ==> IsLowerHexDigit(s[k])
  {
    if bytes == [] then []
    else [DigitOf(bytes[0] / 16), DigitOf(bytes[0] % 16)] + Encode(bytes[1..])
  }

  /** Decoding, the inverse of `Encode`: `None` for an odd length or a
      character outside the alphabet. */
  function Decode(s: string): (r: Option<seq<byte>>)
    ensures r.Some? ==> 2 * |r.value| == |s|
  {
    if |s| == 0 then Some([])
    else if |s| == 1 then None
    else
      match (ValueOf(s[0]), ValueOf(s[1]), Decode(s[2..]))
      case (Some(hi), Some(lo), Some(rest)) => Some([hi * 16 + lo] + rest)
      case _ => None
  }

  /** Decoding recovers every encoded byte sequence. */
  lemma {:induction false} DecodeEncode(bytes: seq<byte>)
    ensures Decode(Encode(bytes)) == Some(bytes)
  {
    if bytes != [] {
      var b := bytes[0];
      var s := Encode(bytes);
      assert s[2..] == Encode(bytes[1..]);
      ValueOfDigitOf(b / 16);
      ValueOfDigitOf(b % 16);
      DecodeEncode(bytes[1..]);
      assert bytes == [b / 16 * 16 + b % 16] + bytes[1..];
    }
  }

  /** Hence distinct byte sequences have distinct encodings. */
  lemma EncodeInjective(a: seq<byte>, b: seq<byte>)
    requires Encode(a) == Encode(b)
    ensures a == b
  {
    DecodeEncode(a);
    DecodeEncode(b);
  }
}
