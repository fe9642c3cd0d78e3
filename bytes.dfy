/** Bytes, 64-bit unsigned integers and their big-endian encoding
    (Rust's `u64::to_be_bytes` and `u64::from_be_bytes`). */
module Bytes {

  type byte = b: int | 0 <= b < 256

  const U64_LIMIT: nat := 0x1_0000_0000_0000_0000

  type u64 = n: int | 0 <= n < U64_LIMIT

  /** True when `s` ends `src`: what is left of a buffer or stream after
      bytes were consumed from its front. */
  predicate IsSuffix(s: seq<byte>, src: seq<byte>) {
    |s| <= |src| && src[|src| - |s|..] == s
  }

  /** 256 to the power k: one more than the largest value k bytes can hold. */
  function Pow256(k: nat): (p: nat)
    ensures p > 0
  {
    if k == 0 then 1 else 256 * Pow256(k - 1)
  }

  lemma Pow256Eight()
    ensures Pow256(8) == U64_LIMIT
  {
  }

  /** The unsigned value of `s` read most significant byte first. */
  function FromBE(s: seq<byte>): (n: nat)
    ensures n < Pow256(|s|)
  {
    if s == [] then 0
    else
      var high := FromBE(s[..|s| - 1]);
      assert high <= Pow256(|s| - 1) - 1;
      assert high * 256 <= (Pow256(|s| - 1) - 1) * 256;
      high * 256 + s[|s| - 1]
  }

  /** The lowest k bytes of n, most significant first; when n does not fit in
      k bytes the higher bytes are dropped, as a truncating cast does. */
  function ToBE(n: nat, k: nat): (s: seq<byte>)
    ensures |s| == k
  {
    if k == 0 then [] else ToBE(n / 256, k - 1) + [n % 256]
  }

  /** `u64::to_be_bytes`: always eight bytes. */
  function BE64(n: u64): (s: seq<byte>)
    ensures |s| == 8
  {
    ToBE(n, 8)
  }

  /** `u64::from_be_bytes` on the first eight bytes of `s`: the u64 whose
      big-endian encoding they are. */
  function FromBE64(s: seq<byte>): (n: u64)
    requires |s| >= 8
    ensures BE64(n) == s[..8]
  {
    Pow256Eight();
    ToBEFromBE(s[..8]);
    FromBE(s[..8])
  }

  /** Decoding inverts encoding for every value that fits in k bytes. */
  lemma {:induction false} FromBEToBE(n: nat, k: nat)
    requires n < Pow256(k)
    ensures FromBE(ToBE(n, k)) == n
  {
    if k > 0 {
      var s := ToBE(n, k);
      assert s[..k - 1] == ToBE(n / 256, k - 1);
      assert n / 256 < Pow256(k - 1);
      FromBEToBE(n / 256, k - 1);
    }
  }

  /** Encoding inverts decoding: every byte string is the encoding of its value. */
  lemma {:induction false} ToBEFromBE(s: seq<byte>)
    ensures ToBE(FromBE(s), |s|) == s
  {
    if s != [] {
      var k := |s|;
      var high := FromBE(s[..k - 1]);
      var n := high * 256 + s[k - 1];
      assert n / 256 == high && n % 256 == s[k - 1];
      ToBEFromBE(s[..k - 1]);
      assert s == s[..k - 1] + [s[k - 1]];
    }
  }

  /** `u64::from_be_bytes(u64::to_be_bytes(n)) == n`, with any bytes following. */
  lemma FromBE64OfBE64(n: u64, rest: seq<byte>)
    ensures FromBE64(BE64(n) + rest) == n
  {
    Pow256Eight();
    assert (BE64(n) + rest)[..8] == BE64(n);
    FromBEToBE(n, 8);
  }

  /** Distinct values have distinct encodings. */
  lemma BE64Injective(m: u64, n: u64)
    requires BE64(m) == BE64(n)
    ensures m == n
  {
    FromBE64OfBE64(m, []);
    FromBE64OfBE64(n, []);
    assert BE64(m) + [] == BE64(m);
    assert BE64(n) + [] == BE64(n);
  }
}
