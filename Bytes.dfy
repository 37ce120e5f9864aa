/** Octets and the big-endian layout of a number over several of them. */
module Bytes {
  type Byte = b: int | 0 <= b < 0x100

  /** 256 to the power k; the positivity clause only serves the proofs. */
  function Pow256(k: nat): (p: nat)
    ensures p > 0
  {
    if k == 0 then 1 else 0x100 * Pow256(k - 1)
  }

  /** The k bytes of v, most significant first. */
  function BigEndian(v: nat, k: nat): (b: seq<Byte>)
    requires v < Pow256(k)
    ensures |b| == k
  {
    if k == 0 then []
    else
      assert v / 0x100 < Pow256(k - 1) by {
        assert v < 0x100 * Pow256(k - 1);
      }
      BigEndian(v / 0x100, k - 1) + [v % 0x100]
  }

  /** The number whose big-endian bytes are b. */
  function BigEndianValue(b: seq<Byte>): (v: nat)
    ensures v < Pow256(|b|)
  {
    if b == [] then 0
    else
      var init := BigEndianValue(b[..|b| - 1]);
      assert 0x100 * init + b[|b| - 1] < 0x100 * (init + 1);
      0x100 * init + b[|b| - 1]
  }

  /** Laying a number out in bytes loses nothing. */
  lemma {:induction false} BigEndianRoundTrip(v: nat, k: nat)
    requires v < Pow256(k)
    ensures BigEndianValue(BigEndian(v, k)) == v
  {
    if k > 0 {
      var b := BigEndian(v, k);
      assert b[..k - 1] == BigEndian(v / 0x100, k - 1);
      BigEndianRoundTrip(v / 0x100, k - 1);
    }
  }
}
