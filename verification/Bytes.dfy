/** Bytes, fixed-width integers and little-endian fields, shared by every file format and
    protocol of the model.  Widths are modelled on `int`; each wrap-around is written out. */
module Bytes {
  type byte = b: int | 0 <= b < 0x100
  type u16 = w: int | 0 <= w < 0x1_0000
  type u32 = w: int | 0 <= w < 0x1_0000_0000

  function Wrap32(x: int): u32 {
    x % 0x1_0000_0000
  }

  function Min(a: int, b: int): int {
    if a < b then a else b
  }

  function Zeros(n: nat): (z: seq<byte>)
    ensures |z| == n && forall k :: 0 <= k < n ==> z[k] == 0
  {
    seq(n, _ => 0)
  }

  /** The little-endian bytes of a 16-bit and of a 32-bit word. */
  function LE16(w: u16): (s: seq<byte>)
    ensures |s| == 2
  {
    [w % 0x100, w / 0x100]
  }

  function LE32(w: u32): (s: seq<byte>)
    ensures |s| == 4
  {
    [w % 0x100, w / 0x100 % 0x100, w / 0x1_0000 % 0x100, w / 0x100_0000]
  }

  /** The word stored at the start of `s`. */
  function Word16(s: seq<byte>): u16
    requires |s| >= 2
  {
    s[0] as int + 0x100 * s[1] as int
  }

  function Word32(s: seq<byte>): u32
    requires |s| >= 4
  {
    s[0] as int + 0x100 * s[1] as int + 0x1_0000 * s[2] as int + 0x100_0000 * s[3] as int
  }

  lemma Word32RoundTrip(w: u32)
    ensures Word32(LE32(w)) == w
  {
    assert w / 0x1_0000 == w / 0x100 / 0x100;
    assert w / 0x100_0000 == w / 0x100 / 0x100 / 0x100;
  }

  function Power2(n: nat): (p: nat)
    ensures p > 0
  {
    if n == 0 then 1 else 2 * Power2(n - 1)
  }

  /** Exclusive-or of the lowest `n` bits. */
  function XorBits(n: nat, a: nat, b: nat): (r: nat)
    ensures r < Power2(n)
  {
    if n == 0 then 0 else (a + b) % 2 + 2 * XorBits(n - 1, a / 2, b / 2)
  }

  lemma {:induction false} XorBitsTwice(n: nat, a: nat, b: nat)
    requires a < Power2(n)
    ensures XorBits(n, XorBits(n, a, b), b) == a
  {
    if n > 0 {
      XorBitsTwice(n - 1, a / 2, b / 2);
      LowBitTwice(a, b, XorBits(n - 1, a / 2, b / 2));
    }
  }

  lemma LowBitTwice(a: nat, b: nat, high: nat)
    ensures var x := (a + b) % 2 + 2 * high; x / 2 == high && (x + b) % 2 == a % 2
  {
  }

  function Xor(a: byte, b: byte): byte {
    assert Power2(8) == 0x100 by {
      assert Power2(4) == 16;
    }
    XorBits(8, a, b)
  }

  /** Bit `k` of the exclusive-or is set exactly if the bits of its operands differ. */
  lemma XorIsBitwise(a: byte, b: byte, k: nat)
    requires k < 8
    ensures Xor(a, b) / Power2(k) % 2 == 1 <==> a / Power2(k) % 2 != b / Power2(k) % 2
  {
    XorBitAt(8, a, b, k);
  }

  lemma {:induction false} XorBitAt(n: nat, a: nat, b: nat, k: nat)
    requires k < n
    ensures XorBits(n, a, b) / Power2(k) % 2 == 1 <==> a / Power2(k) % 2 != b / Power2(k) % 2
  {
    var x := XorBits(n, a, b);
    LowBitTwice(a, b, XorBits(n - 1, a / 2, b / 2));
    if k == 0 {
      LowBitDiffers(a, b, x, XorBits(n - 1, a / 2, b / 2));
    } else {
      XorBitAt(n - 1, a / 2, b / 2, k - 1);
      DivideTwice(x, Power2(k - 1));
      DivideTwice(a, Power2(k - 1));
      DivideTwice(b, Power2(k - 1));
    }
  }

  lemma LowBitDiffers(a: nat, b: nat, x: nat, high: nat)
    requires x == (a + b) % 2 + 2 * high
    ensures x % 2 == 1 <==> a % 2 != b % 2
  {
  }

  lemma XorTwice(a: byte, b: byte)
    ensures Xor(Xor(a, b), b) == a
  {
    assert Power2(8) == 0x100 by {
      assert Power2(4) == 16;
    }
    XorBitsTwice(8, a, b);
  }

  // Multiplication and remainder by a variable, in steps the solver takes on its own.

  lemma MulGrows(q: nat, m: nat)
    requires q > 0
    ensures q * m >= m
  {
  }

  lemma SmallMultipleIsZero(q: int, m: int)
    requires m > 0 && -m < q * m < m
    ensures q == 0
  {
    if q > 0 {
      MulGrows(q, m);
    }
  }

  lemma RemainderIsUnique(x: int, q: int, m: int, r: int)
    requires 0 <= r < m && x == q * m + r
    ensures x % m == r
  {
    assert x == (x / m) * m + x % m;
    assert (q - x / m) * m == x % m - r;
    SmallMultipleIsZero(q - x / m, m);
  }

  lemma QuotientIsUnique(x: int, q: int, m: int, r: int)
    requires 0 <= r < m && x == q * m + r
    ensures x / m == q
  {
    RemainderIsUnique(x, q, m, r);
    assert x == (x / m) * m + x % m;
    assert (q - x / m) * m == 0;
    SmallMultipleIsZero(q - x / m, m);
  }

  lemma DivideTwice(b: nat, m: nat)
    requires m > 0
    ensures 2 * m > 0 && b / 2 / m == b / (2 * m)
  {
    var q, r := b / 2 / m, b / 2 % m;
    assert b / 2 == q * m + r;
    assert b == q * (2 * m) + (2 * r + b % 2);
    QuotientIsUnique(b, q, 2 * m, 2 * r + b % 2);
  }

  lemma ModuloShift(k: int, m: int)
    requires m > 0
    ensures (k - m) % m == k % m
  {
    var q := k / m;
    assert (q - 1) * m == q * m - m;
    RemainderIsUnique(k - m, q - 1, m, k % m);
  }
}
