/** The block digest and the difficulty test on it (the free items of `src/app.rs`).
    SHA-256 over the JSON rendering of the five fields is foreign code: the model
    takes the whole of `calculate_hash` as a parameter of type `HashFn`, a total
    function onto 32-byte strings, so every result here holds for any such hash. */
module Digest {
  import opened Integers

  type Hash32 = s: seq<u8> | |s| == 32 witness seq(32, _ => 0)

  /** `calculate_hash(id, timestamp, previous_hash, data, nonce)` */
  type HashFn = (u64, i64, string, string, u64) -> Hash32

  const DIFFICULTY_PREFIX: string := "00"

  /** `str::starts_with` */
  predicate StartsWith(s: string, prefix: string) {
    |prefix| <= |s| && s[..|prefix|] == prefix
  }

  predicate IsBit(c: char) {
    c == '0' || c == '1'
  }

  function BitChar(bit: int): char
    requires 0 <= bit < 2
  {
    if bit == 0 then '0' else '1'
  }

  /** Rust's `format!("{:b}", n)`: the shortest base-2 numeral, with no padding. */
  function FormatBinary(n: nat): string
  {
    if n < 2 then [BitChar(n)] else FormatBinary(n / 2) + [BitChar(n % 2)]
  }

  /** The number a string of bits denotes, most significant bit first. */
  function ParseBinary(s: string): nat
  {
    if s == [] then 0 else 2 * ParseBinary(s[..|s| - 1]) + (if s[|s| - 1] == '1' then 1 else 0)
  }

  function Pow2(k: nat): (p: nat)
    ensures p >= 1
  {
    if k == 0 then 1 else 2 * Pow2(k - 1)
  }

  /** `{:b}` loses nothing: the numeral reads back as the number. */
  lemma {:induction false} FormatBinaryRoundTrip(n: nat)
    ensures ParseBinary(FormatBinary(n)) == n
  {
    if n >= 2 {
      var s := FormatBinary(n);
      assert s[..|s| - 1] == FormatBinary(n / 2);
      FormatBinaryRoundTrip(n / 2);
    }
  }

  /** The numeral is made of bits, is "0" exactly for zero, and otherwise leads with '1'. */
  lemma {:induction false} FormatBinaryShape(n: nat)
    ensures |FormatBinary(n)| >= 1
    ensures forall i | 0 <= i < |FormatBinary(n)| :: IsBit(FormatBinary(n)[i])
    ensures FormatBinary(n) == "0" <==> n == 0
    ensures n > 0 ==> FormatBinary(n)[0] == '1'
  {
    if n >= 2 {
      FormatBinaryShape(n / 2);
      assert FormatBinary(n)[0] == FormatBinary(n / 2)[0];
    }
  }

  /** A number below 2^k takes at most k characters. */
  lemma {:induction false} FormatBinaryLength(n: nat, k: nat)
    requires 1 <= k && n < Pow2(k)
    ensures |FormatBinary(n)| <= k
  {
    if n >= 2 {
      FormatBinaryLength(n / 2, k - 1);
    }
  }

  /** Each byte contributes between one and eight characters. */
  lemma ByteWidth(b: u8)
    ensures 1 <= |FormatBinary(b)| <= 8
  {
    FormatBinaryShape(b);
    assert Pow2(8) == 256;
    FormatBinaryLength(b, 8);
  }

  /** `hash_to_binary_representation`: the `{:b}` numerals of the bytes, concatenated. */
  function BinaryRepr(hash: seq<u8>): string
  {
    if hash == [] then "" else BinaryRepr(hash[..|hash| - 1]) + FormatBinary(hash[|hash| - 1])
  }

  /** The same concatenation, read from the first byte. */
  lemma {:induction false} BinaryReprFront(hash: seq<u8>)
    requires hash != []
    ensures BinaryRepr(hash) == FormatBinary(hash[0]) + BinaryRepr(hash[1..])
  {
    if |hash| > 1 {
      var init := hash[..|hash| - 1];
      BinaryReprFront(init);
      assert init[1..] == hash[1..][..|hash[1..]| - 1];
    }
  }

  /** Only '0' and '1' appear, and there are between one and eight per byte. */
  lemma {:induction false} BinaryReprShape(hash: seq<u8>)
    ensures |hash| <= |BinaryRepr(hash)| <= 8 * |hash|
    ensures forall i | 0 <= i < |BinaryRepr(hash)| :: IsBit(BinaryRepr(hash)[i])
  {
    if hash != [] {
      BinaryReprShape(hash[..|hash| - 1]);
      ByteWidth(hash[|hash| - 1]);
      FormatBinaryShape(hash[|hash| - 1]);
    }
  }

  /** The difficulty test that mining searches for and validation re-checks. */
  predicate MeetsDifficulty(hash: seq<u8>) {
    StartsWith(BinaryRepr(hash), DIFFICULTY_PREFIX)
  }

  /** Because `{:b}` does not pad, "00" leads the bit string exactly when the first
      two bytes are both zero: a zero byte is "0", any other byte starts with '1'. */
  lemma MeetsDifficultyIff(hash: seq<u8>)
    ensures MeetsDifficulty(hash) <==> |hash| >= 2 && hash[0] == 0 && hash[1] == 0
  {
    if hash != [] {
      BinaryReprFront(hash);
      FormatBinaryShape(hash[0]);
      var rest := BinaryRepr(hash[1..]);
      if hash[0] == 0 {
        if |hash| >= 2 {
          BinaryReprFront(hash[1..]);
          FormatBinaryShape(hash[1]);
          assert rest[0] == FormatBinary(hash[1])[0];
          assert BinaryRepr(hash)[..2] == ['0', rest[0]];
          assert rest[0] == '0' <==> hash[1] == 0;
        } else {
          assert rest == "";
        }
      } else {
        assert BinaryRepr(hash)[0] == '1';
      }
    }
  }

  /** `hash_to_binary_representation(hash)`, pushing one numeral per byte. */
  method HashToBinaryRepresentation(hash: seq<u8>) returns (res: string)
    ensures res == BinaryRepr(hash)
  {
    res := "";
    for i := 0 to |hash|
      invariant res == BinaryRepr(hash[..i])
    {
      assert hash[..i + 1][..i] == hash[..i];
      res := res + FormatBinary(hash[i]);
    }
    assert hash[..|hash|] == hash;
  }
}
