/** Big-endian integers of a fixed number of bytes. */
module BigEndian {
  type Byte = b: int | 0 <= b < 256
  type Bytes = seq<Byte>

  function Power256(k: nat): (p: nat)
    ensures p > 0
  {
    if k == 0 then 1 else 256 * Power256(k - 1)
  }

  /** n.to_bytes(width, "big"), for an n that fits. */
  function ToBytes(n: nat, width: nat): (b: Bytes)
    requires n < Power256(width)
    ensures |b| == width
  {
    if width == 0 then [] else ToBytes(n / 256, width - 1) + [n % 256]
  }

  function FromBytes(b: Bytes): nat {
    if b == [] then 0 else 256 * FromBytes(b[..|b| - 1]) + b[|b| - 1]
  }

  lemma {:induction false} NumberRoundTrip(n: nat, width: nat)
    requires n < Power256(width)
    ensures FromBytes(ToBytes(n, width)) == n
  {
    if width > 0 {
      NumberRoundTrip(n / 256, width - 1);
      assert ToBytes(n, width)[..width - 1] == ToBytes(n / 256, width - 1);
    }
  }

  lemma {:induction false} BytesRoundTrip(b: Bytes)
    ensures FromBytes(b) < Power256(|b|)
    ensures ToBytes(FromBytes(b), |b|) == b
    decreases |b|
  {
    if b != [] {
      var n := |b| - 1;
      BytesRoundTrip(b[..n]);
      assert b == b[..n] + [b[n]];
    }
  }
}
