/** Powers of two. */
module Powers {

  /** One more than the largest 64-bit word. */
  const WORD: nat := 0x1_0000_0000_0000_0000

  function Pow2(n: nat): (r: nat)
    ensures r > 0
  {
    if n == 0 then 1 else 2 * Pow2(n - 1)
  }

  lemma Pow2Grows(m: nat, n: nat)
    requires m <= n
    ensures Pow2(m) <= Pow2(n)
  {
  }

  lemma Pow2Small()
    ensures Pow2(1) == 2 && Pow2(3) == 8 && Pow2(8) == 256 && Pow2(9) == 512 && Pow2(10) == 1024
    ensures Pow2(16) == 256 * 256
  {
    assert Pow2(8) == 256;
    Pow2Adds(8, 8);
  }

  lemma Pow2Of63()
    ensures Pow2(63) == WORD / 2
  {
    hide Pow2;
    Pow2Small();
    Pow2Adds(16, 16);
    Pow2Adds(32, 16);
    Pow2Adds(48, 9);
    Pow2Adds(57, 3);
    Pow2Adds(60, 3);
  }

  lemma {:induction false} Pow2Adds(m: nat, n: nat)
    ensures Pow2(m + n) == Pow2(m) * Pow2(n)
  {
    if n > 0 {
      Pow2Adds(m, n - 1);
      assert Pow2(m + n) == 2 * Pow2(m + (n - 1));
    }
  }

  // ---- Bitwise operations on words ----

  function Xor(x: nat, y: nat): nat {
    if x == 0 && y == 0 then 0 else 2 * Xor(x / 2, y / 2) + if x % 2 == y % 2 then 0 else 1
  }

  function And(x: nat, y: nat): nat {
    if x == 0 || y == 0 then 0 else 2 * And(x / 2, y / 2) + if x % 2 == 1 && y % 2 == 1 then 1 else 0
  }

  lemma {:induction false} XorTwice(x: nat, y: nat)
    ensures Xor(Xor(x, y), y) == x
  {
    if x != 0 || y != 0 {
      XorTwice(x / 2, y / 2);
      XorHalves(x, y);
      XorHalves(Xor(x, y), y);
      hide Xor;
    }
  }

  lemma {:induction false} XorSwap(x: nat, y: nat)
    ensures Xor(x, y) == Xor(y, x)
  {
    if x != 0 || y != 0 {
      XorSwap(x / 2, y / 2);
    }
  }

  /** The lower bits, as a remainder: the lowest bit and the lower bits of the half. */
  lemma LowBits(x: nat, e: nat)
    requires e > 0
    ensures x % Pow2(e) == 2 * (x / 2 % Pow2(e - 1)) + x % 2
  {
    var p := Pow2(e - 1);
    var q, r := x / 2 / p, x / 2 % p;
    assert x / 2 == q * p + r;
    assert x == (2 * p) * q + (2 * r + x % 2);
    RemainderIs(x, 2 * p, q, 2 * r + x % 2);
  }

  lemma AtLeastOnce(d: int, k: int)
    requires d >= 0 && k >= 1
    ensures d * k >= d
  {
  }

  lemma NoMultiple(d: int, k: int)
    requires -d < d * k < d
    ensures k == 0
  {
    if k >= 1 {
      AtLeastOnce(d, k);
      assert false;
    } else if k <= -1 {
      AtLeastOnce(d, -k);
      assert false;
    }
  }

  lemma RemainderIs(x: int, d: nat, q: int, r: nat)
    requires x == d * q + r && r < d
    ensures x % d == r
  {
    var k := q - x / d;
    assert d * k == x % d - r;
    NoMultiple(d, k);
  }

  /** Masking with all bits below the e-th is taking the remainder by 2^e. */
  lemma {:induction false} AndMask(x: nat, e: nat)
    ensures And(x, Pow2(e) - 1) == x % Pow2(e)
    decreases e
  {
    if e == 0 {
      NothingMasked(x);
    } else {
      AndMask(x / 2, e - 1);
      LowBits(x, e);
      AndHalves(x, Pow2(e) - 1);
      MaskHalves(e);
      hide And, Pow2;
    }
  }

  lemma NothingMasked(x: nat)
    ensures And(x, Pow2(0) - 1) == 0 == x % Pow2(0)
  {
  }

  lemma AndHalves(x: nat, y: nat)
    ensures And(x, y) == 2 * And(x / 2, y / 2) + if x % 2 == 1 && y % 2 == 1 then 1 else 0
  {
  }

  lemma MaskHalves(e: nat)
    requires e > 0
    ensures (Pow2(e) - 1) / 2 == Pow2(e - 1) - 1 && (Pow2(e) - 1) % 2 == 1
  {
  }

  /** The lower bits of an exclusive or are that of the lower bits. */
  lemma {:induction false} XorLow(x: nat, y: nat, e: nat)
    ensures Xor(x, y) % Pow2(e) == Xor(x % Pow2(e), y % Pow2(e))
    decreases e
  {
    if e == 0 {
      XorNothing();
    } else {
      XorLow(x / 2, y / 2, e - 1);
      LowBits(x, e);
      LowBits(y, e);
      LowBits(Xor(x, y), e);
      XorHalves(x, y);
      hide Xor, Pow2;
      XorJoin(x / 2 % Pow2(e - 1), y / 2 % Pow2(e - 1), x % 2, y % 2);
    }
  }

  lemma XorJoin(a: nat, b: nat, s: nat, t: nat)
    requires s < 2 && t < 2
    ensures Xor(2 * a + s, 2 * b + t) == 2 * Xor(a, b) + if s == t then 0 else 1
  {
    XorNothing();
  }

  lemma XorNothing()
    ensures Xor(0, 0) == 0
  {
  }

  lemma XorHalves(x: nat, y: nat)
    ensures Xor(x, y) / 2 == Xor(x / 2, y / 2) && Xor(x, y) % 2 == if x % 2 == y % 2 then 0 else 1
  {
  }

  /** A remainder by a multiple of `d` has the same remainder by `d`. */
  lemma RemainderOfRemainder(x: int, d: nat, k: nat)
    requires d > 0 && k > 0
    ensures d * k > 0 && x % (d * k) % d == x % d
  {
    var w := d * k;
    var q, r := x / w, x % w;
    assert x == d * (k * q) + r by { assert w * q == d * (k * q); }
    SameRemainder(r, d, k * q);
  }

  lemma SameRemainder(r: int, d: nat, q: int)
    requires d > 0
    ensures (d * q + r) % d == r % d
  {
    assert d * q + r == d * (q + r / d) + r % d;
    RemainderIs(d * q + r, d, q + r / d, r % d);
  }
}
