/** The Bloom filter of z/bbloom.go that keeps one-hit keys out of the sketch. */
module Bloom {
  import opened Powers

  /** The least power of two that is at least 512 and at least `entries`. */
  method GetSize(entries: nat) returns (size: nat, exponent: nat)
    requires entries <= WORD / 2
    ensures size == Pow2(exponent) && 9 <= exponent < 64
    ensures 512 <= size && entries <= size
    ensures size > 512 ==> size / 2 < entries
  {
    hide Pow2;
    var n := if entries < 512 then 512 else entries;
    size, exponent := 1, 0;
    Pow2None();
    Pow2Of63();
    while size < n
      invariant size == Pow2(exponent) && exponent <= 63
      invariant size > 1 ==> size / 2 < n
      decreases 63 - exponent
    {
      PowerDoubles(exponent);
      size := size * 2 % WORD;
      exponent := exponent + 1;
    }
    AtLeast512(exponent, size);
  }

  lemma Pow2None()
    ensures Pow2(0) == 1
  {
  }

  /** Below 2^63 there is room for another doubling. */
  lemma PowerDoubles(e: nat)
    requires e <= 63 && Pow2(e) < WORD / 2
    ensures e < 63 && Pow2(e) * 2 % WORD == Pow2(e + 1) && Pow2(e + 1) / 2 == Pow2(e)
  {
    hide Pow2;
    Pow2Of63();
    Pow2Small();
    Pow2Adds(e, 1);
    Pow2Grows(e + 1, 64);
    Pow2Adds(63, 1);
  }

  lemma AtLeast512(e: nat, size: nat)
    requires size == Pow2(e) && size >= 512 && e <= 63
    ensures 9 <= e && (size > 512 ==> size >= 1024)
  {
    hide Pow2;
    Pow2Small();
    if e < 9 {
      Pow2Grows(e, 8);
      assert false;
    } else if e > 9 {
      Pow2Grows(10, e);
    }
  }

  // ---- Bits of a byte ----

  /** The source's table 1, 2, 4, ..., 128. */
  function Mask(k: nat): bv8
    requires k < 8
  {
    match k
    case 0 => 1
    case 1 => 2
    case 2 => 4
    case 3 => 8
    case 4 => 16
    case 5 => 32
    case 6 => 64
    case _ => 128
  }

  function Bit(b: bv8, k: nat): bool
    requires k < 8
  {
    (b >> k) & 1 == 1
  }

  lemma BitByMask(b: bv8, k: nat)
    requires k < 8
    ensures Bit(b, k) == (b & Mask(k) != 0)
  {
    match k
    case 0 =>
    case 1 =>
    case 2 =>
    case 3 =>
    case 4 =>
    case 5 =>
    case 6 =>
    case _ =>
  }

  lemma MasksDisjoint(j: nat, k: nat)
    requires j < 8 && k < 8
    ensures Mask(j) & Mask(k) == if j == k then Mask(j) else 0
    ensures Mask(j) != 0
  {
  }

  lemma OrMask(b: bv8, m: bv8, n: bv8)
    ensures m & n == 0 ==> (b | m) & n == b & n
    ensures m == n && m != 0 ==> (b | m) & n != 0
  {
  }

  lemma SetBit(b: bv8, k: nat, j: nat)
    requires k < 8 && j < 8
    ensures Bit(b | Mask(k), j) == (j == k || Bit(b, j))
  {
    hide Mask, Bit;
    BitByMask(b | Mask(k), j);
    BitByMask(b, j);
    MasksDisjoint(k, j);
    OrMask(b, Mask(k), Mask(j));
  }

  lemma NoBit(k: nat)
    requires k < 8
    ensures !Bit(0, k)
  {
    BitByMask(0, k);
  }

  lemma WholeBytes(exponent: nat)
    requires exponent >= 3
    ensures Pow2(exponent) % 8 == 0
  {
    hide Pow2;
    Pow2Adds(3, exponent - 3);
    Pow2Small();
  }

  // ---- The filter ----

  /** The `i`-th position of `hash` in a filter of 2^exp bits. */
  function Loc(hash: int, i: nat, exp: nat): (n: nat)
    requires exp <= 64
    ensures n < Pow2(exp)
  {
    var h := hash / Pow2(64 - exp);
    var l := hash % Pow2(exp);
    (h + i * l) % WORD % Pow2(exp)
  }

  lemma LocIs(hash: int, i: nat, exp: nat)
    requires exp <= 64
    ensures Loc(hash, i, exp) == (hash / Pow2(64 - exp) + i * (hash % Pow2(exp))) % Pow2(exp)
  {
    hide Pow2;
    WordHalves(exp);
    RemainderOfRemainder(hash / Pow2(64 - exp) + i * (hash % Pow2(exp)), Pow2(exp), Pow2(64 - exp));
  }

  /** The first position is the top bits of the hash, and each next one is the low bits further, all around. */
  lemma LocsProgress(hash: nat, i: nat, exp: nat)
    requires exp < 64 && hash < WORD
    ensures Loc(hash, 0, exp) == hash / Pow2(64 - exp)
    ensures Loc(hash, i + 1, exp) == (Loc(hash, i, exp) + hash % Pow2(exp)) % Pow2(exp)
  {
    hide Pow2, Loc;
    var p, h, l := Pow2(exp), hash / Pow2(64 - exp), hash % Pow2(exp);
    LocIs(hash, 0, exp);
    LocIs(hash, i, exp);
    LocIs(hash, i + 1, exp);
    TopBits(hash, exp);
    RemainderIs(h, p, 0, h);
    NextTimes(i, l);
    AddBefore(h + i * l, l, p);
  }

  lemma NextTimes(i: nat, l: int)
    ensures (i + 1) * l == i * l + l && 0 * l == 0
  {
  }

  lemma WordHalves(exp: nat)
    requires exp <= 64
    ensures Pow2(exp) * Pow2(64 - exp) == WORD
  {
    hide Pow2;
    Pow2Of63();
    Pow2Small();
    Pow2Adds(63, 1);
    Pow2Adds(exp, 64 - exp);
  }

  lemma TopBits(hash: nat, exp: nat)
    requires exp <= 64 && hash < WORD
    ensures hash / Pow2(64 - exp) < Pow2(exp)
  {
    hide Pow2;
    WordHalves(exp);
    QuotientBelow(hash, Pow2(64 - exp), Pow2(exp));
  }

  lemma TimesMore(d: nat, n: nat, q: nat)
    requires n <= q
    ensures d * n <= d * q
  {
  }

  lemma QuotientBelow(x: nat, d: nat, n: nat)
    requires d > 0 && x < n * d
    ensures x / d < n
  {
    var q := x / d;
    assert d * q <= x;
    if q >= n {
      TimesMore(d, n, q);
      assert false;
    }
  }

  lemma AddBefore(x: int, l: int, p: nat)
    requires p > 0
    ensures (x + l) % p == (x % p + l) % p
  {
    assert x + l == p * (x / p) + (x % p + l);
    SameRemainder(x % p + l, p, x / p);
  }

  ghost function Locs(hash: int, n: nat, exp: nat): set<nat>
    requires exp <= 64
  {
    set i: nat | i < n :: Loc(hash, i, exp)
  }

  /** The positions of the bits that are set. */
  ghost function BitsOf(b: seq<bv8>): set<nat> {
    set i: nat | i < 8 * |b| && Bit(b[i / 8], i % 8)
  }

  lemma NoBits(b: seq<bv8>)
    requires forall i :: 0 <= i < |b| ==> b[i] == 0
    ensures BitsOf(b) == {}
  {
    hide Mask, Bit;
    forall i: nat | i < 8 * |b|
      ensures !Bit(b[i / 8], i % 8)
    {
      NoBit(i % 8);
    }
  }

  lemma BitsOfUpdate(b: seq<bv8>, i: nat)
    requires i < 8 * |b|
    ensures BitsOf(b[i / 8 := b[i / 8] | Mask(i % 8)]) == BitsOf(b) + {i}
  {
    hide Mask, Bit;
    var c := b[i / 8 := b[i / 8] | Mask(i % 8)];
    forall j: nat | j < 8 * |b|
      ensures Bit(c[j / 8], j % 8) == (j == i || Bit(b[j / 8], j % 8))
    {
      SetBit(b[i / 8], i % 8, j % 8);
    }
  }

  class Filter {
    const bits: array<bv8>
    const sizeExp: nat
    const setLocs: nat
    var elemNum: nat

    /** The bits, as bytes: bit i is bit i % 8 of byte i / 8. */
    ghost predicate Valid() {
      9 <= sizeExp < 64 && 8 * bits.Length == Pow2(sizeExp)
    }

    constructor (entries: nat, locs: nat)
      requires entries <= WORD / 2
      ensures Valid() && setLocs == locs && Bits() == {} && fresh(bits)
    {
      hide Pow2, BitsOf;
      var size, exponent := GetSize(entries);
      WholeBytes(exponent);
      bits := new bv8[size / 8](i => 0);
      sizeExp, setLocs, elemNum := exponent, locs, 0;
      new;
      NoBits(bits[..]);
    }

    /** The positions that are set. */
    ghost function Bits(): set<nat>
      reads bits
    {
      BitsOf(bits[..])
    }

    /** The positions of one hash. */
    ghost function Of(hash: int): set<nat>
      requires Valid()
    {
      Locs(hash, setLocs, sizeExp)
    }

    lemma OfEmpty()
      requires Valid() && Bits() == {}
      ensures forall hash: int :: Of(hash) <= Bits() <==> setLocs == 0
    {
      hide Loc, BitsOf;
      forall hash: int
        ensures Of(hash) <= Bits() <==> setLocs == 0
      {
        if setLocs > 0 {
          assert Loc(hash, 0, sizeExp) in Of(hash);
        }
      }
    }

    method Set(idx: nat)
      requires Valid() && idx < Pow2(sizeExp)
      modifies bits
      ensures Bits() == old(Bits()) + {idx}
    {
      hide BitsOf, Mask;
      BitsOfUpdate(bits[..], idx);
      ghost var before := bits[..];
      bits[idx / 8] := bits[idx / 8] | Mask(idx % 8);
      assert bits[..] == before[idx / 8 := before[idx / 8] | Mask(idx % 8)];
    }

    method IsSet(idx: nat) returns (r: bool)
      requires Valid() && idx < Pow2(sizeExp)
      ensures r == (idx in Bits())
    {
      r := (bits[idx / 8] >> (idx % 8)) & 1 == 1;
    }

    method Add(hash: int)
      requires Valid()
      modifies this, bits
      ensures Bits() == old(Bits()) + Of(hash)
      ensures elemNum == old(elemNum) + setLocs
    {
      hide BitsOf, Loc;
      var i := 0;
      while i < setLocs
        invariant i <= setLocs
        invariant Bits() == old(Bits()) + Locs(hash, i, sizeExp)
        invariant elemNum == old(elemNum) + i
      {
        Set(Loc(hash, i, sizeExp));
        assert Locs(hash, i + 1, sizeExp) == Locs(hash, i, sizeExp) + {Loc(hash, i, sizeExp)};
        elemNum := elemNum + 1;
        i := i + 1;
      }
    }

    /** Has answers yes exactly if every position of the hash is set. */
    method Has(hash: int) returns (r: bool)
      requires Valid()
      ensures r == (Of(hash) <= Bits())
    {
      hide BitsOf, Loc;
      var i := 0;
      while i < setLocs
        invariant i <= setLocs
        invariant Locs(hash, i, sizeExp) <= Bits()
      {
        var set_ := IsSet(Loc(hash, i, sizeExp));
        if !set_ {
          assert Loc(hash, i, sizeExp) in Of(hash);
          return false;
        }
        assert Locs(hash, i + 1, sizeExp) == Locs(hash, i, sizeExp) + {Loc(hash, i, sizeExp)};
        i := i + 1;
      }
      return true;
    }

    method AddIfNotHas(hash: int) returns (added: bool)
      requires Valid()
      modifies this, bits
      ensures added == !(Of(hash) <= old(Bits()))
      ensures Bits() == old(Bits()) + Of(hash)
    {
      hide BitsOf, Locs;
      var has := Has(hash);
      if has {
        return false;
      }
      Add(hash);
      return true;
    }

    method Clear()
      requires Valid()
      modifies bits
      ensures Bits() == {}
    {
      for i := 0 to bits.Length
        invariant forall j | 0 <= j < i :: bits[j] == 0
      {
        bits[i] := 0;
      }
      forall i: nat | i < 8 * bits.Length
        ensures !Bit(bits[i / 8], i % 8)
      {
        NoBit(i % 8);
      }
    }
  }
}
