/** Base16 as the `hex` crate does it (section 8 of RFC 4648): `Encode` writes
    lower-case digits, `Decode` accepts either case and fails on an odd length
    or on any character that is not a hex digit. */
module Hex {
  import opened Wrappers
  import opened Integers

  /** The lower-case digit for a value below 16. */
  function Digit(v: int): (c: char)
    requires 0 <= v < 16
    ensures IsLowerDigit(c)
  {
    if v < 10 then ('0' as int + v) as char else ('a' as int + v - 10) as char
  }

  predicate IsLowerDigit(c: char) {
    '0' <= c <= '9' || 'a' <= c <= 'f'
  }

  /** The value of one hex digit of either case; `None` for any other character. */
  function DigitValue(c: char): (r: Option<int>)
    ensures r.Some? ==> 0 <= r.value < 16
    ensures r.Some? <==> IsLowerDigit(c) || 'A' <= c <= 'F'
  {
    if '0' <= c <= '9' then Some(c as int - '0' as int)
    else if 'a' <= c <= 'f' then Some(c as int - 'a' as int + 10)
    else if 'A' <= c <= 'F' then Some(c as int - 'A' as int + 10)
    else None
  }

  lemma DigitValueOfDigit(v: int)
    requires 0 <= v < 16
    ensures DigitValue(Digit(v)) == Some(v)
  {
  }

  /** Digits are the only characters a lower-case digit decodes from. */
  lemma DigitOfDigitValue(c: char)
    requires IsLowerDigit(c)
    ensures DigitValue(c).Some? && Digit(DigitValue(c).value) == c
  {
  }

  /** Two lower-case digits per byte, high nibble first. */
  function Encode(bytes: seq<u8>): (s: string)
    ensures |s| == 2 * |bytes|
    ensures forall i | 0 <= i < |s| :: IsLowerDigit(s[i])
  {
    if bytes == [] then [] else [Digit(bytes[0] / 16), Digit(bytes[0] % 16)] + Encode(bytes[1..])
  }

  function Decode(s: string): (r: Option<seq<u8>>)
    ensures r.Some? ==> 2 * |r.value| == |s|
  {
    if |s| % 2 != 0 then None else DecodePairs(s)
  }

  /** Decodes an even-length string two characters at a time. */
  function DecodePairs(s: string): (r: Option<seq<u8>>)
    requires |s| % 2 == 0
    ensures r.Some? ==> 2 * |r.value| == |s|
  {
    if s == [] then Some([])
    else
      match (DigitValue(s[0]), DigitValue(s[1]), DecodePairs(s[2..]))
      case (Some(hi), Some(lo), Some(rest)) => Some([hi * 16 + lo] + rest)
      case _ => None
  }

  /** Decoding undoes encoding, for every byte string. */
  lemma {:induction false} DecodeEncode(bytes: seq<u8>)
    ensures Decode(Encode(bytes)) == Some(bytes)
  {
    if bytes != [] {
      var s := Encode(bytes);
      DigitValueOfDigit(bytes[0] / 16);
      DigitValueOfDigit(bytes[0] % 16);
      assert s[2..] == Encode(bytes[1..]);
      DecodeEncode(bytes[1..]);
      assert [bytes[0]] + bytes[1..] == bytes;
    }
  }

  /** Encoding undoes decoding, for strings written in lower case. */
  lemma {:induction false} EncodeDecode(s: string)
    requires Decode(s).Some?
    requires forall i | 0 <= i < |s| :: IsLowerDigit(s[i])
    ensures Encode(Decode(s).value) == s
  {
    if s != [] {
      var b := Decode(s).value;
      var hi, lo := DigitValue(s[0]).value, DigitValue(s[1]).value;
      assert b == [hi * 16 + lo] + Decode(s[2..]).value;
      DigitOfDigitValue(s[0]);
      DigitOfDigitValue(s[1]);
      EncodeDecode(s[2..]);
      assert b[1..] == Decode(s[2..]).value;
    }
  }

  /** Distinct byte strings have distinct encodings. */
  lemma EncodeInjective(a: seq<u8>, b: seq<u8>)
    requires Encode(a) == Encode(b)
    ensures a == b
  {
    DecodeEncode(a);
    DecodeEncode(b);
  }

  /** Byte `k` of a decoded string is spelled by characters `2k` and `2k+1`. */
  lemma {:induction false} DecodeAt(s: string, k: nat)
    requires |s| % 2 == 0 && DecodePairs(s).Some?
    requires k < |DecodePairs(s).value|
    ensures DigitValue(s[2 * k]).Some? && DigitValue(s[2 * k + 1]).Some?
    ensures DecodePairs(s).value[k] == DigitValue(s[2 * k]).value * 16 + DigitValue(s[2 * k + 1]).value
  {
    if k > 0 {
      DecodeAt(s[2..], k - 1);
    }
  }

  /** A decoded string whose first two bytes are zero begins with four '0' characters. */
  lemma LeadingZeroBytes(s: string)
    requires Decode(s).Some?
    requires |Decode(s).value| >= 2 && Decode(s).value[0] == 0 && Decode(s).value[1] == 0
    ensures |s| >= 4 && s[..4] == "0000"
  {
    DecodeAt(s, 0);
    DecodeAt(s, 1);
  }
}
