/**
 * Bytes, machine words and the fixed-width big-endian encoding that
 * `Uint::to_be_bytes` / `to_be_byte_array` produce.
 *
 * The deployed configuration is `U64`: one 64-bit limb, so a word is
 * eight bytes and every plain integer lies below 2^64.
 */
module Bytes {

  type byte = b: int | 0 <= b < 256

  /** Number of bytes in one `Uint<LIMBS>` for the `U64` configuration (LIMBS = 1). */
  const WORD_BYTES: nat := 8

  /** 2^64: every `Uint<1>` value is strictly below this bound. */
  const WORD_BOUND: nat := 0x1_0000_0000_0000_0000

  /** `base` to the power `n`. */
  function Pow(base: nat, n: nat): (r: nat)
    requires base > 0
    ensures r > 0
  {
    if n == 0 then 1 else base * Pow(base, n - 1)
  }

  lemma {:induction false} PowAdd(base: nat, a: nat, b: nat)
    requires base > 0
    ensures Pow(base, a + b) == Pow(base, a) * Pow(base, b)
  {
    if a > 0 {
      PowAdd(base, a - 1, b);
      assert base * (Pow(base, a - 1) * Pow(base, b)) == (base * Pow(base, a - 1)) * Pow(base, b);
    }
  }

  /** 2^64 written as a power of a bit, of a hex digit and of a byte. */
  lemma WordBoundPowers()
    ensures Pow(2, 64) == WORD_BOUND
    ensures Pow(16, 16) == WORD_BOUND
    ensures Pow(256, WORD_BYTES) == WORD_BOUND
  {
    assert Pow(2, 4) == 16;
    PowAdd(2, 4, 4);
    PowAdd(2, 8, 8);
    PowAdd(2, 16, 16);
    assert Pow(2, 32) == 0x1_0000_0000;
    PowAdd(2, 32, 32);
    assert Pow(16, 2) == 256;
    PowAdd(16, 2, 2);
    PowAdd(16, 4, 4);
    assert Pow(16, 8) == 0x1_0000_0000;
    PowAdd(16, 8, 8);
    assert Pow(256, 2) == 0x1_0000;
    PowAdd(256, 2, 2);
    assert Pow(256, 4) == 0x1_0000_0000;
    PowAdd(256, 4, 4);
  }

  /** The number whose big-endian encoding is `bs`. */
  function FromBeBytes(bs: seq<byte>): (v: nat)
    ensures v < Pow(256, |bs|)
  {
    if bs == [] then 0
    else
      var init := FromBeBytes(bs[..|bs| - 1]);
      assert init <= Pow(256, |bs| - 1) - 1;
      init * 256 + bs[|bs| - 1]
  }

  /** The `n`-byte big-endian encoding of `v` (truncated to its low `n` bytes). */
  function ToBeBytes(v: nat, n: nat): (bs: seq<byte>)
    ensures |bs| == n
  {
    if n == 0 then [] else ToBeBytes(v / 256, n - 1) + [v % 256]
  }

  /** Decoding an encoding gives back every value that fits in `n` bytes. */
  lemma {:induction false} FromToBeBytes(v: nat, n: nat)
    requires v < Pow(256, n)
    ensures FromBeBytes(ToBeBytes(v, n)) == v
  {
    if n > 0 {
      var bs := ToBeBytes(v, n);
      var q, r := v / 256, v % 256;
      assert v == q * 256 + r;
      assert bs[..n - 1] == ToBeBytes(q, n - 1) && bs[n - 1] == r;
      assert q < Pow(256, n - 1);
      FromToBeBytes(q, n - 1);
      assert FromBeBytes(bs) == FromBeBytes(ToBeBytes(q, n - 1)) * 256 + r;
    }
  }

  /** Encoding a decoded byte string gives back the same bytes. */
  lemma {:induction false} ToFromBeBytes(bs: seq<byte>)
    ensures ToBeBytes(FromBeBytes(bs), |bs|) == bs
  {
    if bs != [] {
      var n := |bs|;
      var init := FromBeBytes(bs[..n - 1]);
      var v := init * 256 + bs[n - 1];
      assert v / 256 == init && v % 256 == bs[n - 1];
      ToFromBeBytes(bs[..n - 1]);
      assert bs == bs[..n - 1] + [bs[n - 1]];
    }
  }
}
