/** Unsigned big-endian integers, as produced by `int.from_bytes(..., byteorder='big')`. */
module BigEndian {

  /** One octet of the input. */
  type Byte = x: int | 0 <= x < 256

  /** 256 to the power n: the number of values an n-byte field can hold. */
  function Pow256(n: nat): (p: nat)
    ensures p >= 1
  {
    if n == 0 then 1 else 256 * Pow256(n - 1)
  }

  /** A wider field holds at least as many values. */
  lemma {:induction false} Pow256Monotone(m: nat, n: nat)
    requires m <= n
    ensures Pow256(m) <= Pow256(n)
  {
    if m < n {
      Pow256Monotone(m, n - 1);
    }
  }

  /** The unsigned big-endian value of `s`; the empty sequence is 0, as in Python. */
  function FromBytes(s: seq<Byte>): (v: nat)
    ensures v < Pow256(|s|)
  {
    if |s| == 0 then 0
    else
      var hi := FromBytes(s[..|s| - 1]);
      assert hi * 256 <= (Pow256(|s| - 1) - 1) * 256;
      hi * 256 + s[|s| - 1]
  }

  /** The `w`-byte big-endian encoding of `n`, the inverse of `FromBytes` at width `w`. */
  function ToBytes(n: nat, w: nat): (s: seq<Byte>)
    requires n < Pow256(w)
    ensures |s| == w
    ensures FromBytes(s) == n
  {
    if w == 0 then []
    else
      var hi := ToBytes(n / 256, w - 1);
      assert (hi + [n % 256])[..w - 1] == hi;
      hi + [n % 256]
  }

  /** `bs` is the big-endian encoding of `v` at the width of `bs`. */
  predicate Encodes(v: nat, bs: seq<Byte>)
  {
    v < Pow256(|bs|) && ToBytes(v, |bs|) == bs
  }

  /** Decoding is injective at a fixed width: every byte string is the encoding of its value. */
  lemma {:induction false} ToBytesFromBytes(s: seq<Byte>)
    ensures ToBytes(FromBytes(s), |s|) == s
  {
    if |s| > 0 {
      var init := s[..|s| - 1];
      ToBytesFromBytes(init);
      var v := FromBytes(s);
      assert v / 256 == FromBytes(init);
      assert v % 256 == s[|s| - 1];
      assert s == init + [s[|s| - 1]];
    }
  }

  /** `n` zero bytes. */
  function Zeros(n: nat): (s: seq<Byte>)
    ensures |s| == n
  {
    seq(n, _ => 0)
  }

  /** A value below 256 is written as leading zeros followed by the value itself. */
  lemma {:induction false} ToBytesOfByte(v: Byte, w: nat)
    requires 1 <= w
    ensures v < Pow256(w)
    ensures ToBytes(v, w) == Zeros(w - 1) + [v]
  {
    Pow256Monotone(1, w);
    var z := Zeros(w - 1);
    ToBytesFromBytes(z);
    FromBytesOfZeros(w - 1);
  }

  /** Zero bytes have the value 0. */
  lemma {:induction false} FromBytesOfZeros(n: nat)
    ensures FromBytes(Zeros(n)) == 0
  {
    if n > 0 {
      assert Zeros(n)[..n - 1] == Zeros(n - 1);
      FromBytesOfZeros(n - 1);
    }
  }
}
