/** Bytes and the unsigned words made of them, with C's shifts and bitwise or. */
module ByteWords {

  type Byte = b: int | 0 <= b < 256

  function Pow2(k: nat): (p: nat)
    ensures p > 0
  {
    if k == 0 then 1 else 2 * Pow2(k - 1)
  }

  function Pow256(k: nat): (p: nat)
    ensures p > 0
  {
    if k == 0 then 1 else 256 * Pow256(k - 1)
  }

  lemma {:induction false} Pow256IsPow2(k: nat)
    ensures Pow256(k) == Pow2(8 * k)
  {
    if k > 0 {
      Pow256IsPow2(k - 1);
      var n := 8 * (k - 1);
      assert Pow2(n + 8) == 2 * Pow2(n + 7) && Pow2(n + 7) == 2 * Pow2(n + 6) && Pow2(n + 6) == 2 * Pow2(n + 5);
      assert Pow2(n + 5) == 2 * Pow2(n + 4) && Pow2(n + 4) == 2 * Pow2(n + 3) && Pow2(n + 3) == 2 * Pow2(n + 2);
      assert Pow2(n + 2) == 2 * Pow2(n + 1);
    }
  }

  /** Bitwise or. */
  function BitOr(a: nat, b: nat): nat {
    if a == 0 && b == 0 then 0
    else 2 * BitOr(a / 2, b / 2) + (if a % 2 == 1 || b % 2 == 1 then 1 else 0)
  }

  lemma {:induction false} OrZero(b: nat)
    ensures BitOr(0, b) == b
  {
    if b > 0 {
      OrZero(b / 2);
    }
  }

  /** Or-ing a number shifted past another one adds it. */
  lemma {:induction false} OrShifted(a: nat, b: nat, k: nat)
    requires a < Pow2(k)
    ensures BitOr(a, b * Pow2(k)) == a + b * Pow2(k)
  {
    if k == 0 {
      OrZero(b);
    } else {
      var m := b * Pow2(k - 1);
      assert b * Pow2(k) == 2 * m;
      OrShifted(a / 2, b, k - 1);
    }
  }

  // ---------- big-endian numbers ----------

  /** The number that a sequence of bytes encodes, most significant byte first. */
  function BigEndian(s: seq<Byte>): nat {
    if s == [] then 0 else 256 * BigEndian(s[..|s| - 1]) + s[|s| - 1]
  }

  lemma {:induction false} BigEndianBound(s: seq<Byte>)
    ensures BigEndian(s) < Pow256(|s|)
  {
    if s != [] {
      BigEndianBound(s[..|s| - 1]);
    }
  }

  lemma {:induction false} BigEndianSum(a: seq<Byte>, b: seq<Byte>)
    ensures BigEndian(a + b) == BigEndian(a) * Pow256(|b|) + BigEndian(b)
  {
    if b == [] {
      assert a + b == a;
    } else {
      var n := |b| - 1;
      BigEndianSum(a, b[..n]);
      assert (a + b)[..|a| + n] == a + b[..n];
      assert 256 * (BigEndian(a) * Pow256(n)) == BigEndian(a) * Pow256(n + 1);
    }
  }

  /** The byte `k` places from the right: a right shift and a mask. */
  function ByteOf(x: nat, k: nat): Byte {
    (x / Pow256(k)) % 256
  }

  lemma DivideOut(q: nat, r: nat, p: nat)
    requires r < p
    ensures (p * q + r) / p == q
  {
    var x := p * q + r;
    assert x == p * (x / p) + x % p;
    var d: int := x / p - q;
    assert p * d == r - x % p;
    assert (d >= 1 ==> p * d >= p) && (d <= -1 ==> p * d + p <= 0);
  }

  lemma ShiftTwice(x: nat, k: nat)
    ensures x / Pow256(k + 1) == (x / 256) / Pow256(k)
  {
    var p := Pow256(k);
    var q, r := x / (256 * p), x % (256 * p);
    assert x == 256 * p * q + r;
    assert x / 256 == p * q + r / 256 by {
      assert x == 256 * (p * q) + r;
    }
    assert r / 256 < p;
    DivideOut(q, r / 256, p);
  }

  /** Bytes written by shifting and masking encode the number again. */
  lemma {:induction false} BytesEncode(x: nat, s: seq<Byte>)
    requires x < Pow256(|s|) && forall i | 0 <= i < |s| :: s[i] == ByteOf(x, |s| - 1 - i)
    ensures BigEndian(s) == x
  {
    if s != [] {
      var n := |s| - 1;
      forall i | 0 <= i < n
        ensures s[..n][i] == ByteOf(x / 256, n - 1 - i)
      {
        ShiftTwice(x, n - 1 - i);
      }
      BytesEncode(x / 256, s[..n]);
      assert Pow256(0) == 1;
    }
  }

  /** Two byte strings of one length that encode the same number are the same. */
  lemma {:induction false} EncodingUnique(a: seq<Byte>, b: seq<Byte>)
    requires |a| == |b| && BigEndian(a) == BigEndian(b)
    ensures a == b
  {
    if a != [] {
      var n := |a| - 1;
      EncodingUnique(a[..n], b[..n]);
      assert a == a[..n] + [a[n]] && b == b[..n] + [b[n]];
    }
  }

  /** The number as bytes, most significant byte first. */
  function Bytes(x: nat, width: nat): (s: seq<Byte>)
    ensures |s| == width && forall i | 0 <= i < width :: s[i] == ByteOf(x, width - 1 - i)
  {
    seq(width, i requires 0 <= i < width => ByteOf(x, width - 1 - i))
  }

  /** Word to bytes to word, and bytes to word to bytes, give back what they started with. */
  lemma {:induction false} BytesRoundTrip(x: nat, s: seq<Byte>)
    ensures x < Pow256(|s|) ==> BigEndian(Bytes(x, |s|)) == x
    ensures Bytes(BigEndian(s), |s|) == s
  {
    hide ByteOf, BigEndian;
    if x < Pow256(|s|) {
      BytesEncode(x, Bytes(x, |s|));
    }
    BigEndianBound(s);
    BytesEncode(BigEndian(s), Bytes(BigEndian(s), |s|));
    EncodingUnique(Bytes(BigEndian(s), |s|), s);
  }
}
