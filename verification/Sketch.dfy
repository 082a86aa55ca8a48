/** The count-min sketch of sketch.go: four rows of 4-bit counters, two to a byte. */
module Sketch {
  import opened Powers

  const DEPTH := 4

  /** A key hash, a 64-bit word. */
  type Hash = int

  // ---- Rounding up to a power of two ----

  /** All bits below some position, and no others. */
  ghost predicate IsMask(m: bv64) {
    m & (m + 1) == 0
  }

  lemma OrAtLeast(a: bv64, b: bv64)
    ensures a | b >= a
  {
  }

  lemma OrBelowMask(a: bv64, b: bv64, m: bv64)
    requires IsMask(m) && a <= m && b <= m
    ensures a | b <= m
  {
  }

  // x >> k and x |= x >> k, for each k the source uses.
  function Down1(z: bv64): bv64 { z >> 1 }
  function Down2(z: bv64): bv64 { z >> 2 }
  function Down4(z: bv64): bv64 { z >> 4 }
  function Down8(z: bv64): bv64 { z >> 8 }
  function Down16(z: bv64): bv64 { z >> 16 }
  function Down32(z: bv64): bv64 { z >> 32 }
  function Or1(z: bv64): bv64 { z | Down1(z) }
  function Or2(z: bv64): bv64 { z | Down2(z) }
  function Or4(z: bv64): bv64 { z | Down4(z) }
  function Or8(z: bv64): bv64 { z | Down8(z) }
  function Or16(z: bv64): bv64 { z | Down16(z) }
  function Or32(z: bv64): bv64 { z | Down32(z) }

  /** Copies the highest set bit of `a` to every lower position. */
  function Smeared(a: bv64): bv64 {
    Or32(Or16(Or8(Or4(Or2(Or1(a))))))
  }

  lemma SmearedIsMask(a: bv64)
    ensures IsMask(Smeared(a))
  {
  }

  lemma Shift1(z: bv64)
    ensures Down1(z) <= z
  {
  }

  lemma Shift2(z: bv64)
    ensures Down2(z) <= z
  {
    Shift1(z);
    Shift1(Down1(z));
    assert Down1(Down1(z)) == Down2(z);
  }

  lemma Shift4(z: bv64)
    ensures Down4(z) <= z
  {
    Shift2(z);
    Shift2(Down2(z));
    assert Down2(Down2(z)) == Down4(z);
  }

  lemma Shift8(z: bv64)
    ensures Down8(z) <= z
  {
    Shift4(z);
    Shift4(Down4(z));
    assert Down4(Down4(z)) == Down8(z);
  }

  lemma Shift16(z: bv64)
    ensures Down16(z) <= z
  {
    Shift8(z);
    Shift8(Down8(z));
    assert Down8(Down8(z)) == Down16(z);
  }

  lemma Shift32(z: bv64)
    ensures Down32(z) <= z
  {
    Shift16(z);
    Shift16(Down16(z));
    assert Down16(Down16(z)) == Down32(z);
  }

  /** `z` is at least `a` and at most every mask that is at least `a`. */
  ghost predicate Between(z: bv64, a: bv64) {
    a <= z && forall m :: IsMask(m) && a <= m ==> z <= m
  }

  lemma OrBetween(z: bv64, s: bv64, a: bv64)
    requires Between(z, a) && s <= z
    ensures Between(z | s, a)
  {
    OrAtLeast(z, s);
    forall m | IsMask(m) && a <= m
      ensures z | s <= m
    {
      OrBelowMask(z, s, m);
    }
  }

  lemma Or1Between(z: bv64, a: bv64)
    requires Between(z, a)
    ensures Between(Or1(z), a)
  {
    hide Between, Down1;
    Shift1(z);
    OrBetween(z, Down1(z), a);
  }

  lemma Or2Between(z: bv64, a: bv64)
    requires Between(z, a)
    ensures Between(Or2(z), a)
  {
    hide Between, Down2;
    Shift2(z);
    OrBetween(z, Down2(z), a);
  }

  lemma Or4Between(z: bv64, a: bv64)
    requires Between(z, a)
    ensures Between(Or4(z), a)
  {
    hide Between, Down4;
    Shift4(z);
    OrBetween(z, Down4(z), a);
  }

  lemma Or8Between(z: bv64, a: bv64)
    requires Between(z, a)
    ensures Between(Or8(z), a)
  {
    hide Between, Down8;
    Shift8(z);
    OrBetween(z, Down8(z), a);
  }

  lemma Or16Between(z: bv64, a: bv64)
    requires Between(z, a)
    ensures Between(Or16(z), a)
  {
    hide Between, Down16;
    Shift16(z);
    OrBetween(z, Down16(z), a);
  }

  lemma Or32Between(z: bv64, a: bv64)
    requires Between(z, a)
    ensures Between(Or32(z), a)
  {
    hide Between, Down32;
    Shift32(z);
    OrBetween(z, Down32(z), a);
  }

  lemma SmearedBetween(a: bv64)
    ensures Between(Smeared(a), a)
  {
    hide Between, IsMask, Or1, Or2, Or4, Or8, Or16, Or32;
    BetweenSelf(a);
    Or1Between(a, a);
    Or2Between(Or1(a), a);
    Or4Between(Or2(Or1(a)), a);
    Or8Between(Or4(Or2(Or1(a))), a);
    Or16Between(Or8(Or4(Or2(Or1(a)))), a);
    Or32Between(Or16(Or8(Or4(Or2(Or1(a))))), a);
  }

  lemma BetweenSelf(a: bv64)
    ensures Between(a, a)
  {
  }

  /** `r` is the least power of two that is at least `x`: `r - 1` is the least mask that covers `x - 1`. */
  ghost predicate IsNextPower(x: bv64, r: bv64) {
    IsMask(r - 1) && Between(r - 1, x - 1)
  }

  method Next2Power(x: bv64) returns (r: bv64)
    ensures IsNextPower(x, r)
  {
    hide IsNextPower, Or1, Or2, Or4, Or8, Or16, Or32;
    r := x;
    r := r - 1;
    r := Or1(r);
    r := Or2(r);
    r := Or4(r);
    r := Or8(r);
    r := Or16(r);
    r := Or32(r);
    SmearedNext(x);
    r := r + 1;
  }

  lemma SmearedNext(x: bv64)
    ensures IsNextPower(x, Smeared(x - 1) + 1)
  {
    hide Smeared, IsMask, Between;
    SmearedIsMask(x - 1);
    SmearedBetween(x - 1);
    assert Smeared(x - 1) + 1 - 1 == Smeared(x - 1);
  }

  // ---- The power of two as a number ----

  /** `n` is a power of two, from 2 to 2^62. */
  ghost predicate IsPower(n: nat) {
    exists e: nat :: 0 < e <= 62 && n == Pow2(e)
  }

  ghost predicate Number(r: bv64, e: nat) { r as nat == Pow2(e) }

  lemma Numbers()
    ensures Number(0x2, 1) && Number(0x4, 2) && Number(0x8, 3)
    ensures Number(0x10, 4) && Number(0x20, 5) && Number(0x40, 6)
    ensures Number(0x80, 7) && Number(0x100, 8) && Number(0x200, 9)
    ensures Number(0x400, 10) && Number(0x800, 11) && Number(0x1000, 12)
    ensures Number(0x2000, 13) && Number(0x4000, 14) && Number(0x8000, 15)
    ensures Number(0x1_0000, 16) && Number(0x2_0000, 17) && Number(0x4_0000, 18)
    ensures Number(0x8_0000, 19) && Number(0x10_0000, 20) && Number(0x20_0000, 21)
    ensures Number(0x40_0000, 22) && Number(0x80_0000, 23) && Number(0x100_0000, 24)
    ensures Number(0x200_0000, 25) && Number(0x400_0000, 26) && Number(0x800_0000, 27)
    ensures Number(0x1000_0000, 28) && Number(0x2000_0000, 29) && Number(0x4000_0000, 30)
    ensures Number(0x8000_0000, 31) && Number(0x1_0000_0000, 32) && Number(0x2_0000_0000, 33)
    ensures Number(0x4_0000_0000, 34) && Number(0x8_0000_0000, 35) && Number(0x10_0000_0000, 36)
    ensures Number(0x20_0000_0000, 37) && Number(0x40_0000_0000, 38) && Number(0x80_0000_0000, 39)
    ensures Number(0x100_0000_0000, 40) && Number(0x200_0000_0000, 41) && Number(0x400_0000_0000, 42)
    ensures Number(0x800_0000_0000, 43) && Number(0x1000_0000_0000, 44) && Number(0x2000_0000_0000, 45)
    ensures Number(0x4000_0000_0000, 46) && Number(0x8000_0000_0000, 47) && Number(0x1_0000_0000_0000, 48)
    ensures Number(0x2_0000_0000_0000, 49) && Number(0x4_0000_0000_0000, 50) && Number(0x8_0000_0000_0000, 51)
    ensures Number(0x10_0000_0000_0000, 52) && Number(0x20_0000_0000_0000, 53) && Number(0x40_0000_0000_0000, 54)
    ensures Number(0x80_0000_0000_0000, 55) && Number(0x100_0000_0000_0000, 56) && Number(0x200_0000_0000_0000, 57)
    ensures Number(0x400_0000_0000_0000, 58) && Number(0x800_0000_0000_0000, 59) && Number(0x1000_0000_0000_0000, 60)
    ensures Number(0x2000_0000_0000_0000, 61) && Number(0x4000_0000_0000_0000, 62)
  {
  }

  /** A single bit, from 2 up to 2^62. */
  ghost predicate Single(r: bv64) {
    || r == 0x2 || r == 0x4 || r == 0x8
    || r == 0x10 || r == 0x20 || r == 0x40
    || r == 0x80 || r == 0x100 || r == 0x200
    || r == 0x400 || r == 0x800 || r == 0x1000
    || r == 0x2000 || r == 0x4000 || r == 0x8000
    || r == 0x1_0000 || r == 0x2_0000 || r == 0x4_0000
    || r == 0x8_0000 || r == 0x10_0000 || r == 0x20_0000
    || r == 0x40_0000 || r == 0x80_0000 || r == 0x100_0000
    || r == 0x200_0000 || r == 0x400_0000 || r == 0x800_0000
    || r == 0x1000_0000 || r == 0x2000_0000 || r == 0x4000_0000
    || r == 0x8000_0000 || r == 0x1_0000_0000 || r == 0x2_0000_0000
    || r == 0x4_0000_0000 || r == 0x8_0000_0000 || r == 0x10_0000_0000
    || r == 0x20_0000_0000 || r == 0x40_0000_0000 || r == 0x80_0000_0000
    || r == 0x100_0000_0000 || r == 0x200_0000_0000 || r == 0x400_0000_0000
    || r == 0x800_0000_0000 || r == 0x1000_0000_0000 || r == 0x2000_0000_0000
    || r == 0x4000_0000_0000 || r == 0x8000_0000_0000 || r == 0x1_0000_0000_0000
    || r == 0x2_0000_0000_0000 || r == 0x4_0000_0000_0000 || r == 0x8_0000_0000_0000
    || r == 0x10_0000_0000_0000 || r == 0x20_0000_0000_0000 || r == 0x40_0000_0000_0000
    || r == 0x80_0000_0000_0000 || r == 0x100_0000_0000_0000 || r == 0x200_0000_0000_0000
    || r == 0x400_0000_0000_0000 || r == 0x800_0000_0000_0000 || r == 0x1000_0000_0000_0000
    || r == 0x2000_0000_0000_0000 || r == 0x4000_0000_0000_0000
  }

  lemma OneBit(r: bv64)
    requires IsMask(r - 1) && 2 <= r <= 0x4000_0000_0000_0000
    ensures Single(r)
  {
  }

  lemma SingleNumber(r: bv64) returns (e: nat)
    requires Single(r)
    ensures 0 < e <= 62 && Number(r, e)
  {
    hide Number;
    Numbers();
    assert exists n: nat :: 0 < n <= 62 && Number(r, n);
    e :| 0 < e <= 62 && Number(r, e);
  }

  /** Rounding up gives a power of two. */
  lemma RoundedIsPower(x: bv64, r: bv64)
    requires IsNextPower(x, r) && 2 <= x <= 0x4000_0000_0000_0000
    ensures IsPower(r as nat)
  {
    hide Single, Pow2;
    RoundedRange(x, r);
    OneBit(r);
    var e := SingleNumber(r);
  }

  lemma RoundedRange(x: bv64, r: bv64)
    requires IsNextPower(x, r) && 2 <= x <= 0x4000_0000_0000_0000
    ensures 2 <= r <= 0x4000_0000_0000_0000
  {
    assert IsMask(0x3FFF_FFFF_FFFF_FFFF);
  }

  lemma PowerIsEven(n: nat)
    requires IsPower(n)
    ensures n >= 2 && n % 2 == 0
  {
  }

  /** The bits that a mask of such a size leaves are the remainder. */
  lemma MaskedIs(x: nat, size: nat)
    requires IsPower(size)
    ensures size > 0 && And(x, size - 1) == x % size
  {
    hide And, Pow2;
    var e: nat :| 0 < e <= 62 && size == Pow2(e);
    AndMask(x, e);
  }

  lemma XorMasked(x: nat, y: nat, size: nat)
    requires IsPower(size)
    ensures size > 0 && Xor(x, y) % size == Xor(x % size, y % size)
  {
    hide Xor, Pow2;
    var e: nat :| 0 < e <= 62 && size == Pow2(e);
    XorLow(x, y, e);
  }

  /** A 64-bit word has the same lower bits as the number it was cut from. */
  lemma WordMasked(x: int, size: nat)
    requires IsPower(size)
    ensures size > 0 && x % WORD % size == x % size
  {
    hide Pow2;
    var e: nat :| 0 < e <= 62 && size == Pow2(e);
    Pow2Of63();
    Pow2Small();
    Pow2Adds(63, 1);
    Pow2Adds(e, 64 - e);
    RemainderOfRemainder(x, size, Pow2(64 - e));
  }

  // ---- A row of counters ----

  /** Counter `n` of a row: the low half of byte n / 2 if `n` is even, the high half if it is odd. */
  function Nibble(b: bv8, odd: bool): bv8 {
    (if odd then b >> 4 else b) & 0x0F
  }

  function Counter(r: seq<bv8>, n: nat): nat
    requires n / 2 < |r|
  {
    Nibble(r[n / 2], n % 2 == 1) as nat
  }

  /** Adding one at a half below 15 does not reach the other half. */
  lemma NibbleIncrement(b: bv8, odd: bool)
    requires Nibble(b, odd) < 15
    ensures var b' := b + if odd then 16 else 1;
      Nibble(b', odd) as nat == Nibble(b, odd) as nat + 1 && Nibble(b', !odd) == Nibble(b, !odd)
  {
  }

  /** Shifting the byte and masking out the bit that crossed over halves both counters. */
  lemma NibbleHalf(b: bv8, odd: bool)
    ensures Nibble((b >> 1) & 0x77, odd) as nat == Nibble(b, odd) as nat / 2
  {
    assert Nibble((b >> 1) & 0x77, odd) == Nibble(b, odd) >> 1;
    HalfByte(Nibble(b, odd));
  }

  lemma HalfByte(v: bv8)
    ensures (v >> 1) as nat == v as nat / 2
  {
  }

  lemma NibbleRange(b: bv8, odd: bool)
    ensures Nibble(b, odd) as nat <= 15
    ensures Nibble(b, odd) < 15 <==> Nibble(b, odd) as nat < 15
  {
  }

  method RowGet(r: array<bv8>, n: nat) returns (v: nat)
    requires n / 2 < r.Length
    ensures v == Counter(r[..], n) <= 15
  {
    NibbleRange(r[n / 2], n % 2 == 1);
    v := Nibble(r[n / 2], n % 2 == 1) as nat;
  }

  /** Adding to one half of a byte bumps that counter and leaves all others alone. */
  lemma RowBumped(r: seq<bv8>, n: nat, k: nat)
    requires n / 2 < |r| && k / 2 < |r| && Nibble(r[n / 2], n % 2 == 1) < 15
    ensures var r' := r[n / 2 := r[n / 2] + if n % 2 == 1 then 16 else 1];
      Counter(r', k) == if k == n then Counter(r, k) + 1 else Counter(r, k)
  {
    hide Nibble;
    NibbleIncrement(r[n / 2], n % 2 == 1);
    assert k / 2 == n / 2 && k != n ==> (k % 2 == 1) == !(n % 2 == 1);
  }

  /** Adds one to counter `n` unless it is at its maximum. */
  method RowIncrement(r: array<bv8>, n: nat)
    requires n / 2 < r.Length
    modifies r
    ensures Counter(r[..], n) == if old(Counter(r[..], n)) < 15 then old(Counter(r[..], n)) + 1 else 15
    ensures forall k: nat :: k / 2 < r.Length && k != n ==> Counter(r[..], k) == old(Counter(r[..], k))
  {
    hide Nibble, Counter;
    var i, odd := n / 2, n % 2 == 1;
    NibbleRange(r[i], odd);
    CounterIs(r[..], n);
    var v := Nibble(r[i], odd);
    if v < 15 {
      ghost var was := r[..];
      r[i] := r[i] + if odd then 16 else 1;
      assert r[..] == was[i := was[i] + if odd then 16 else 1];
      forall k: nat | k / 2 < r.Length
        ensures Counter(r[..], k) == if k == n then Counter(was, k) + 1 else Counter(was, k)
      {
        RowBumped(was, n, k);
      }
    }
  }

  lemma CounterIs(r: seq<bv8>, n: nat)
    requires n / 2 < |r|
    ensures Counter(r, n) == Nibble(r[n / 2], n % 2 == 1) as nat
  {
  }

  /** Halves every counter. */
  method RowReset(r: array<bv8>)
    modifies r
    ensures forall k: nat :: k / 2 < r.Length ==> Counter(r[..], k) == old(Counter(r[..], k)) / 2
  {
    for i := 0 to r.Length
      invariant forall j :: 0 <= j < i ==> r[j] == (old(r[j]) >> 1) & 0x77
      invariant forall j :: i <= j < r.Length ==> r[j] == old(r[j])
    {
      r[i] := (r[i] >> 1) & 0x77;
    }
    forall k: nat | k / 2 < r.Length
      ensures Counter(r[..], k) == old(Counter(r[..], k)) / 2
    {
      NibbleHalf(old(r[k / 2]), k % 2 == 1);
    }
  }

  method RowClear(r: array<bv8>)
    modifies r
    ensures forall j :: 0 <= j < r.Length ==> r[j] == 0
  {
    for i := 0 to r.Length
      invariant forall j :: 0 <= j < i ==> r[j] == 0
    {
      r[i] := 0;
    }
  }

  // ---- The sketch ----

  /** The number of counters a row has. */
  method Rounded(numCounters: bv64) returns (size: nat)
    requires 2 <= numCounters <= 0x4000_0000_0000_0000
    ensures exists r :: IsNextPower(numCounters, r) && size == r as nat
    ensures IsPower(size) && size >= 2 && size % 2 == 0
  {
    hide IsNextPower, IsPower;
    var r := Next2Power(numCounters);
    RoundedIsPower(numCounters, r);
    size := r as nat;
    PowerIsEven(size);
  }

  function Least(a: nat, b: nat): nat { if a < b then a else b }

  function LeastOf(a: nat, b: nat, c: nat, d: nat): nat { Least(Least(a, b), Least(c, d)) }

  /** A counter after one more hit: it stays at its maximum of 15. */
  function Bumped(c: nat): nat { if c < 15 then c + 1 else 15 }

  class CmSketch {
    const rows: seq<array<bv8>>
    const seed: seq<nat>
    const mask: nat
    const size: nat

    /** Four distinct rows of `size` counters, a power of two; the mask is one less. */
    ghost predicate Valid() {
      && |rows| == DEPTH && |seed| == DEPTH && IsPower(size) && size >= 2 && size % 2 == 0 && mask == size - 1
      && (forall i | 0 <= i < DEPTH :: rows[i].Length == size / 2)
      && (forall i, j | 0 <= i < j < DEPTH :: rows[i] != rows[j])
    }

    /** Rounds the number of counters up to the next power of two. */
    constructor (numCounters: bv64, seeds: seq<nat>)
      requires 2 <= numCounters <= 0x4000_0000_0000_0000 && |seeds| == DEPTH
      ensures Valid() && fresh(rows)
      ensures exists r :: IsNextPower(numCounters, r) && size == r as nat
      ensures forall i, n: nat | 0 <= i < DEPTH && n < size :: At(i, n) == 0
      ensures forall h: Hash :: Frequency(h) == 0
    {
      hide IsNextPower, IsPower;
      var count := Rounded(numCounters);
      size, mask := count, count - 1;
      seed := seeds;
      var a := new bv8[count / 2](i => 0);
      var b := new bv8[count / 2](i => 0);
      var c := new bv8[count / 2](i => 0);
      var d := new bv8[count / 2](i => 0);
      rows := [a, b, c, d];
      new;
      AllClear();
    }

    /** The counter of row `i` that `hashed` selects. */
    function Slot(i: nat, hashed: Hash): (n: nat)
      requires Valid() && i < DEPTH
      ensures n < size
    {
      MaskedIs(Xor(hashed % WORD, seed[i]), size);
      And(Xor(hashed % WORD, seed[i]), mask)
    }

    /** Which counter it is: the lower bits of hash and seed, combined. */
    lemma SlotIs(i: nat, hashed: Hash)
      requires Valid() && i < DEPTH
      ensures Slot(i, hashed) == Xor(hashed % size, seed[i] % size)
      ensures Xor(Slot(i, hashed), hashed % size) == seed[i] % size
    {
      hide And, Xor, IsPower;
      var h := hashed % WORD;
      MaskedIs(Xor(h, seed[i]), size);
      XorMasked(h, seed[i], size);
      WordMasked(hashed, size);
      XorSwap(hashed % size, seed[i] % size);
      XorTwice(seed[i] % size, hashed % size);
    }

    /** In every row, two hashes select the same counter exactly if their lower bits are the same. */
    lemma SameSlot(i: nat, hashed: Hash, other: Hash)
      requires Valid() && i < DEPTH
      ensures Slot(i, hashed) == Slot(i, other) <==> hashed % size == other % size
    {
      hide CmSketch.Slot, And, Xor, IsPower;
      SlotIs(i, hashed);
      SlotIs(i, other);
      var s := seed[i] % size;
      XorTwice(hashed % size, s);
      XorTwice(other % size, s);
    }

    ghost function At(i: nat, n: nat): nat
      requires Valid() && i < DEPTH && n < size
      reads rows
    {
      Counter(rows[i][..], n)
    }

    /** The counter of row `i` that `hashed` selects. */
    ghost function Hits(i: nat, hashed: Hash): nat
      requires Valid() && i < DEPTH
      reads rows
    {
      At(i, Slot(i, hashed))
    }

    /** The least of the counters that `hashed` selects in the first `k` rows. */
    ghost function LeastHits(hashed: Hash, k: nat): nat
      requires Valid() && k <= DEPTH
      reads rows
    {
      if k == 0 then 255 else Least(Hits(k - 1, hashed), LeastHits(hashed, k - 1))
    }

    ghost function Frequency(hashed: Hash): nat
      requires Valid()
      reads rows
    {
      LeastOf(Hits(0, hashed), Hits(1, hashed), Hits(2, hashed), Hits(3, hashed))
    }

    lemma AllClear()
      requires Valid() && forall i, j | 0 <= i < DEPTH && 0 <= j < rows[i].Length :: rows[i][j] == 0
      ensures forall i, n: nat | 0 <= i < DEPTH && n < size :: At(i, n) == 0
      ensures forall h: Hash :: Frequency(h) == 0
    {
      hide Slot, IsPower;
      forall i, n: nat | 0 <= i < DEPTH && n < size
        ensures At(i, n) == 0
      {
        assert rows[i][..][n / 2] == 0;
      }
      AllZero();
    }

    lemma AllZero()
      requires Valid() && forall i, n: nat | 0 <= i < DEPTH && n < size :: At(i, n) == 0
      ensures forall h: Hash :: Frequency(h) == 0
    {
      hide Slot, At;
      forall h: Hash
        ensures Frequency(h) == 0
      {
        assert Hits(0, h) == 0 && Hits(1, h) == 0 && Hits(2, h) == 0 && Hits(3, h) == 0;
      }
    }

    lemma FrequencyByRow(hashed: Hash)
      requires Valid()
      ensures Frequency(hashed) == LeastHits(hashed, DEPTH)
    {
      hide Hits;
      HitsRange(0, hashed);
      assert LeastHits(hashed, 1) == Hits(0, hashed);
      assert LeastHits(hashed, 2) == Least(Hits(1, hashed), Hits(0, hashed));
      assert LeastHits(hashed, 3) == Least(Hits(2, hashed), LeastHits(hashed, 2));
    }

    /** What every row counts at least, the least counter is at least. */
    lemma FrequencyAbove(hashed: Hash, n: nat)
      requires Valid() && n <= 15
      requires forall i: nat | i < DEPTH :: Hits(i, hashed) >= n
      ensures Frequency(hashed) >= n
    {
      hide Hits;
      assert Hits(0, hashed) >= n && Hits(1, hashed) >= n && Hits(2, hashed) >= n && Hits(3, hashed) >= n;
    }

    lemma FrequencyIs(hashed: Hash)
      requires Valid()
      ensures forall i: nat | i < DEPTH :: Frequency(hashed) <= Hits(i, hashed)
      ensures Frequency(hashed) in {Hits(0, hashed), Hits(1, hashed), Hits(2, hashed), Hits(3, hashed)}
    {
      hide Hits;
      HitsRange(0, hashed);
    }

    twostate lemma HitsRanges()
      requires Valid()
      ensures forall i: nat, h: Hash | i < DEPTH :: old(Hits(i, h)) <= 15
    {
      forall i: nat, h: Hash | i < DEPTH
        ensures old(Hits(i, h)) <= 15
      {
        var n := Slot(i, h);
        NibbleRange(old(rows[i][n / 2]), n % 2 == 1);
      }
    }

    lemma HitsRange(i: nat, hashed: Hash)
      requires Valid() && i < DEPTH
      ensures Hits(i, hashed) <= 15
    {
      var n := Slot(i, hashed);
      NibbleRange(rows[i][n / 2], n % 2 == 1);
    }

    /** Exactly one counter a row goes up, and only if it is below 15. */
    method Increment(hashed: Hash)
      requires Valid()
      modifies rows
      ensures forall i, n: nat | 0 <= i < DEPTH && n < size ::
        At(i, n) == if n == Slot(i, hashed) then Bumped(old(At(i, n))) else old(At(i, n))
      ensures forall i: nat, h: Hash | i < DEPTH :: old(Hits(i, h)) <= Hits(i, h)
      ensures forall i: nat | i < DEPTH :: Hits(i, hashed) == Bumped(old(Hits(i, hashed)))
    {
      hide Slot, Counter, IsPower;
      for k := 0 to DEPTH
        invariant forall i, n: nat | 0 <= i < k && n < size ::
          At(i, n) == if n == Slot(i, hashed) then Bumped(old(At(i, n))) else old(At(i, n))
        invariant forall i | k <= i < DEPTH :: rows[i][..] == old(rows[i][..])
      {
        RowIncrement(rows[k], Slot(k, hashed));
      }
      HitsRanges();
    }

    method Estimate(hashed: Hash) returns (least: nat)
      requires Valid()
      ensures least == Frequency(hashed) <= 15
    {
      hide Slot, Counter, Frequency;
      least := 255;
      for k := 0 to DEPTH
        invariant least == LeastHits(hashed, k) && (k > 0 ==> least <= 15)
      {
        var v := RowGet(rows[k], Slot(k, hashed));
        if v < least {
          least := v;
        }
      }
      FrequencyByRow(hashed);
    }

    /** Halves every counter of every row. */
    method Reset()
      requires Valid()
      modifies rows
      ensures forall i, n: nat | 0 <= i < DEPTH && n < size :: At(i, n) == old(At(i, n)) / 2
      ensures forall h: Hash :: Frequency(h) == old(Frequency(h)) / 2
    {
      for k := 0 to DEPTH
        invariant forall i, n: nat | 0 <= i < k && n < size :: At(i, n) == old(At(i, n)) / 2
        invariant forall i | k <= i < DEPTH :: rows[i][..] == old(rows[i][..])
      {
        RowReset(rows[k]);
      }
      Halved();
    }

    /** Halving every counter halves the least of them. */
    twostate lemma Halved()
      requires Valid()
      requires forall i, n: nat | 0 <= i < DEPTH && n < size :: At(i, n) == old(At(i, n)) / 2
      ensures forall h: Hash :: Frequency(h) == old(Frequency(h)) / 2
    {
      hide Slot, At;
      forall h: Hash
        ensures Frequency(h) == old(Frequency(h)) / 2
      {
        assert Hits(0, h) == old(Hits(0, h)) / 2;
        assert Hits(1, h) == old(Hits(1, h)) / 2;
        assert Hits(2, h) == old(Hits(2, h)) / 2;
        assert Hits(3, h) == old(Hits(3, h)) / 2;
      }
    }

    method Clear()
      requires Valid()
      modifies rows
      ensures forall i, n: nat | 0 <= i < DEPTH && n < size :: At(i, n) == 0
      ensures forall h: Hash :: Frequency(h) == 0
    {
      hide Slot, Counter, IsPower;
      for k := 0 to DEPTH
        invariant forall i, j | 0 <= i < k && 0 <= j < rows[i].Length :: rows[i][j] == 0
      {
        RowClear(rows[k]);
      }
      AllClear();
    }
  }
}
