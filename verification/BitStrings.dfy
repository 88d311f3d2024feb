/** Bit strings, the numbers they write, and octets. */
module BitStrings {
  type Bits = seq<bool>

  type byte = x: nat | x < 256

  function Pow2(n: nat): (r: nat)
    ensures r > 0
  {
    if n == 0 then 1 else 2 * Pow2(n - 1)
  }

  // The lowest n bits of k, most significant first.
  function BitsOf(k: nat, n: nat): (bits: Bits)
    ensures |bits| == n
  {
    if n == 0 then [] else [k / Pow2(n - 1) % 2 == 1] + BitsOf(k % Pow2(n - 1), n - 1)
  }

  // The number written by bits, most significant first.
  function Value(bits: Bits): (v: nat)
    ensures v < Pow2(|bits|)
  {
    if bits == [] then 0 else (if bits[0] then Pow2(|bits| - 1) else 0) + Value(bits[1..])
  }

  predicate AllOnes(p: Bits) {
    forall i :: 0 <= i < |p| ==> p[i]
  }

  function Ones(n: nat): (bits: Bits)
    ensures |bits| == n && AllOnes(bits)
  {
    seq(n, _ => true)
  }

  function Zeros(n: nat): (bits: Bits)
    ensures |bits| == n && forall i :: 0 <= i < n ==> !bits[i]
  {
    seq(n, _ => false)
  }

  lemma HalfBit(k: nat, half: nat)
    requires k < 2 * half
    ensures k / half % 2 == (if k >= half then 1 else 0)
    ensures k % half == if k >= half then k - half else k
  {
    if k >= half {
      assert k / half == 1 by { assert k == 1 * half + (k - half); }
    } else {
      assert k / half == 0;
    }
  }

  lemma {:induction false} BitsOfValue(bits: Bits)
    ensures BitsOf(Value(bits), |bits|) == bits
  {
    if bits != [] {
      HalfBit(Value(bits), Pow2(|bits| - 1));
      BitsOfValue(bits[1..]);
    }
  }

  lemma {:induction false} ValueOfBits(k: nat, n: nat)
    requires k < Pow2(n)
    ensures Value(BitsOf(k, n)) == k
  {
    if n > 0 {
      HalfBit(k, Pow2(n - 1));
      ValueOfBits(k % Pow2(n - 1), n - 1);
      assert BitsOf(k, n)[1..] == BitsOf(k % Pow2(n - 1), n - 1);
    }
  }

  lemma {:induction false} Pow2Sum(a: nat, b: nat)
    ensures Pow2(a + b) == Pow2(a) * Pow2(b)
  {
    if a == 0 {
      assert Pow2(a + b) == Pow2(b);
    } else {
      hide Pow2;
      Pow2Sum(a - 1, b);
      TwiceProduct(Pow2(a - 1), Pow2(b));
      Pow2Next(a - 1);
      Pow2Next(a - 1 + b);
      assert a - 1 + b + 1 == a + b;
    }
  }

  lemma Pow2Next(n: nat)
    ensures Pow2(n + 1) == 2 * Pow2(n)
  {
  }

  lemma TwiceProduct(p: nat, q: nat)
    ensures (2 * p) * q == 2 * (p * q)
  {
  }

  lemma {:induction false} ValueConcat(a: Bits, b: Bits)
    ensures Value(a + b) == Value(a) * Pow2(|b|) + Value(b)
  {
    if a == [] {
      assert a + b == b;
    } else {
      ValueConcat(a[1..], b);
      assert (a + b)[1..] == a[1..] + b;
      Pow2Sum(|a| - 1, |b|);
      Distribute(if a[0] then Pow2(|a| - 1) else 0, Value(a[1..]), Pow2(|b|));
    }
  }

  lemma Distribute(x: nat, y: nat, d: nat)
    ensures (x + y) * d == x * d + y * d
  {
  }

  lemma AtLeastOnce(a: nat, d: nat)
    requires a > 0
    ensures a * d >= d
  {
    assert a * d == d + (a - 1) * d;
  }

  lemma DivMod(q: nat, d: nat, r: nat)
    requires r < d
    ensures (q * d + r) / d == q && (q * d + r) % d == r
  {
    var x := q * d + r;
    var k := x / d;
    assert x == k * d + x % d;
    if k > q {
      assert (k - q) * d == k * d - q * d;
      AtLeastOnce(k - q, d);
    } else if k < q {
      assert (q - k) * d == q * d - k * d;
      AtLeastOnce(q - k, d);
    }
  }

  // Shifting right drops the low bits, masking drops the high ones.
  lemma SplitValue(a: Bits, b: Bits)
    ensures Value(a + b) / Pow2(|b|) == Value(a)
    ensures Value(a + b) % Pow2(|b|) == Value(b)
  {
    ValueConcat(a, b);
    DivMod(Value(a), Pow2(|b|), Value(b));
  }

  lemma {:induction false} ZerosValue(n: nat)
    ensures Value(Zeros(n)) == 0
  {
    if n > 0 {
      assert Zeros(n)[1..] == Zeros(n - 1);
      ZerosValue(n - 1);
    }
  }

  // Shifting left appends zeros, leading zeros count nothing.
  lemma PadValue(n: nat, a: Bits, k: nat)
    ensures Value(Zeros(n) + a + Zeros(k)) == Value(a) * Pow2(k)
  {
    ZerosValue(n);
    ZerosValue(k);
    ValueConcat(Zeros(n) + a, Zeros(k));
    ValueConcat(Zeros(n), a);
  }

  // --- octets ---

  lemma Octet()
    ensures Pow2(8) == 256
  {
  }

  function ByteBits(b: byte): (bits: Bits)
    ensures |bits| == 8
  {
    BitsOf(b, 8)
  }

  function ByteOf(bits: Bits): (b: byte)
    requires |bits| == 8
    ensures ByteBits(b) == bits
  {
    Octet();
    BitsOfValue(bits);
    Value(bits)
  }

  function OctetBits(bs: seq<byte>): Bits {
    if bs == [] then [] else ByteBits(bs[0]) + OctetBits(bs[1..])
  }

  lemma {:induction false} OctetsConcat(a: seq<byte>, b: seq<byte>)
    ensures OctetBits(a + b) == OctetBits(a) + OctetBits(b)
  {
    if a == [] {
      assert a + b == b;
    } else {
      assert (a + b)[1..] == a[1..] + b;
      OctetsConcat(a[1..], b);
    }
  }

  // The C operator | on octets.
  function Or(a: byte, b: byte): (c: byte)
    ensures ByteBits(c) == seq(8, i requires 0 <= i < 8 => ByteBits(a)[i] || ByteBits(b)[i])
  {
    ByteOf(seq(8, i requires 0 <= i < 8 => ByteBits(a)[i] || ByteBits(b)[i]))
  }

  // The cast of a number to an octet keeps the last eight bits of any bit string that writes it.
  lemma CastToByte(w: Bits)
    requires |w| >= 8
    ensures Value(w) % 256 < 256 && ByteBits(Value(w) % 256) == w[|w| - 8..]
  {
    hide Value, Pow2;
    Octet();
    assert w == w[..|w| - 8] + w[|w| - 8..];
    SplitValue(w[..|w| - 8], w[|w| - 8..]);
    BitsOfValue(w[|w| - 8..]);
  }

  lemma OrFills(a: byte, b: byte, h: Bits, x: Bits, k: nat)
    requires |h| + |x| + k == 8
    requires ByteBits(a) == h + Zeros(|x| + k)
    requires ByteBits(b) == Zeros(|h|) + x + Zeros(k)
    ensures ByteBits(Or(a, b)) == h + x + Zeros(k)
  {
    assert forall i :: 0 <= i < |h| ==> ByteBits(a)[i] == h[i] && !ByteBits(b)[i];
    assert forall i :: |h| <= i < 8 ==> !ByteBits(a)[i];
  }

  // A few bits shifted left inside an octet.
  lemma SmallByte(x: Bits, k: nat)
    requires |x| + k <= 8
    ensures ByteBits(Value(x) * Pow2(k) % 256) == Zeros(8 - |x| - k) + x + Zeros(k)
  {
    hide Value, Pow2, ByteBits;
    var w := Zeros(8 - |x| - k) + x + Zeros(k);
    PadValue(8 - |x| - k, x, k);
    CastToByte(w);
    assert w[|w| - 8..] == w;
  }

  // Shifting a word right by whole octets and casting picks one octet of it.
  lemma ShiftedByte(w: Bits, shift: nat)
    requires |w| == 32 && shift <= 24
    ensures ByteBits(Value(w) / Pow2(shift) % 256) == w[24 - shift..32 - shift]
  {
    hide Value, Pow2, ByteBits;
    var n := 32 - shift;
    assert w == w[..n] + w[n..];
    SplitValue(w[..n], w[n..]);
    CastToByte(w[..n]);
    assert w[..n][n - 8..] == w[24 - shift..n];
  }
}
