/**
  Big-endian encoding of naturals into a fixed number of bytes, as done by
  `U256::to_be_bytes::<32>()` and its inverse `U256::from_be_bytes`.
 */
module BigEndian {
  import opened Words

  /** 256^n: the number of values that fit in n bytes. */
  function Pow256(n: nat): (p: nat)
    ensures p > 0
  {
    if n == 0 then 1 else 256 * Pow256(n - 1)
  }

  /** Byte counts add where magnitudes multiply. */
  lemma {:induction false} Pow256Add(a: nat, b: nat)
    ensures Pow256(a + b) == Pow256(a) * Pow256(b)
    decreases a
  {
    if a > 0 {
      Pow256Add(a - 1, b);
      assert Pow256(a + b) == 256 * Pow256(a - 1 + b);
    }
  }

  /** Thirty-two bytes hold exactly the U256 range. */
  lemma Pow256Of32()
    ensures Pow256(32) == TWO_256
  {
    assert Pow256(2) == 0x1_0000;
    Pow256Add(2, 2);
    Pow256Add(4, 4);
    Pow256Add(8, 8);
    Pow256Add(16, 16);
  }

  /** Appending a byte below a value and taking it off again are inverse. */
  lemma ShiftInByte(high: nat, low: Byte)
    ensures (high * 256 + low) / 256 == high
    ensures (high * 256 + low) % 256 == low
  {
  }

  /** The last n bytes of x, most significant first (x is truncated modulo 256^n). */
  function ToBE(x: nat, n: nat): (bs: seq<Byte>)
    ensures |bs| == n
    decreases n
  {
    if n == 0 then [] else ToBE(x / 256, n - 1) + [x % 256]
  }

  /** The natural number whose big-endian bytes are bs. */
  function FromBE(bs: seq<Byte>): (x: nat)
    ensures x < Pow256(|bs|)
  {
    if bs == [] then 0
    else
      var high := FromBE(bs[..|bs| - 1]);
      var low := bs[|bs| - 1];
      assert high <= Pow256(|bs| - 1) - 1;
      assert high * 256 <= Pow256(|bs|) - 256;
      high * 256 + low
  }

  /** Decoding an encoding gives back every value that fits. */
  lemma {:induction false} FromToBE(x: nat, n: nat)
    requires x < Pow256(n)
    ensures FromBE(ToBE(x, n)) == x
    decreases n
  {
    if n > 0 {
      var bs := ToBE(x, n);
      assert bs[..n - 1] == ToBE(x / 256, n - 1);
      assert x / 256 < Pow256(n - 1);
      FromToBE(x / 256, n - 1);
    }
  }

  /** Encoding a decoded byte string gives back the same bytes. */
  lemma {:induction false} ToFromBE(bs: seq<Byte>)
    ensures ToBE(FromBE(bs), |bs|) == bs
    decreases |bs|
  {
    if bs != [] {
      var n := |bs|;
      var high := FromBE(bs[..n - 1]);
      var low := bs[n - 1];
      ShiftInByte(high, low);
      ToFromBE(bs[..n - 1]);
      assert bs == bs[..n - 1] + [low];
    }
  }

  /** Two values that fit in n bytes have the same encoding only if they are equal. */
  lemma ToBEInjective(x: nat, y: nat, n: nat)
    requires x < Pow256(n) && y < Pow256(n)
    requires ToBE(x, n) == ToBE(y, n)
    ensures x == y
  {
    FromToBE(x, n);
    FromToBE(y, n);
  }

  /** The value of a concatenation: the first part is shifted by the length of the second. */
  lemma {:induction false} FromBEAppend(a: seq<Byte>, b: seq<Byte>)
    ensures FromBE(a + b) == FromBE(a) * Pow256(|b|) + FromBE(b)
    decreases |b|
  {
    if b == [] {
      assert a + b == a;
    } else {
      var n := |b|;
      var b' := b[..n - 1];
      var z := b[n - 1];
      assert (a + b)[..|a + b| - 1] == a + b';
      FromBEAppend(a, b');
      assert b == b' + [z];
      ShiftProduct(FromBE(a), Pow256(n - 1), FromBE(b'), z);
    }
  }

  lemma ShiftProduct(x: nat, p: nat, y: nat, z: nat)
    ensures (x * p + y) * 256 + z == x * (256 * p) + (y * 256 + z)
  {
  }

  /** Zero encodes as all-zero bytes. */
  lemma {:induction false} ToBEZero(n: nat)
    ensures ToBE(0, n) == seq(n, _ => 0)
    decreases n
  {
    if n > 0 {
      ToBEZero(n - 1);
    }
  }
}
