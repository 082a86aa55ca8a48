/** The in-node key search of z/simd: a flat slice holds `key, value, key, value, ...` and the search
    returns the number of the first pair whose key is at least `k`. */
module Search {

  const TWO16 := 0x1_0000

  /** The number of key slots in a flat slice: indices 0, 2, 4, ... */
  function Slots(xs: seq<int>): nat {
    (|xs| + 1) / 2
  }

  /** Go's conversion of a non-negative int to int16. */
  function ToInt16(i: nat): int {
    var low := i % TWO16;
    if low < TWO16 / 2 then low else low - TWO16
  }

  ghost predicate SlotBelow(xs: seq<int>, k: int, i: int) {
    0 <= i < Slots(xs) && xs[2 * i] < k
  }

  /** `r` is the first slot from which on a key is at least `k`, or the number of slots. */
  ghost predicate IsFirstAtLeast(xs: seq<int>, k: int, r: int) {
    && 0 <= r <= Slots(xs)
    && (forall i :: 0 <= i < r ==> SlotBelow(xs, k, i))
    && !SlotBelow(xs, k, r)
  }

  /** There is exactly one such slot, so the searches below agree wherever they are specified. */
  lemma FirstAtLeastIsUnique(xs: seq<int>, k: int, r: int, s: int)
    requires IsFirstAtLeast(xs, k, r) && IsFirstAtLeast(xs, k, s)
    ensures r == s
  {
    assert r < s ==> SlotBelow(xs, k, r);
    assert s < r ==> SlotBelow(xs, k, s);
  }

  /** The reference search: one slot at a time. */
  method Naive(xs: seq<int>, k: int) returns (r: int)
    ensures exists slot :: IsFirstAtLeast(xs, k, slot) && r == ToInt16(slot)
  {
    var i := 0;
    while i < |xs|
      invariant i % 2 == 0 && 0 <= i <= |xs| + 1
      invariant forall j :: 0 <= j < i / 2 ==> SlotBelow(xs, k, j)
    {
      var x := xs[i];
      if x >= k {
        assert xs[2 * (i / 2)] >= k;
        assert IsFirstAtLeast(xs, k, i / 2);
        return ToInt16(i / 2);
      }
      i := i + 2;
    }
    assert IsFirstAtLeast(xs, k, i / 2);
    r := ToInt16(i / 2);
  }

  /** Every slot before `slot` is below `k`: it is the one searched for, or below `k` too. */
  lemma LookAt(xs: seq<int>, k: int, slot: nat)
    requires slot < Slots(xs) && forall j :: 0 <= j < slot ==> SlotBelow(xs, k, j)
    ensures if xs[2 * slot] >= k then IsFirstAtLeast(xs, k, slot) else SlotBelow(xs, k, slot)
  {
  }

  lemma LookedAtAll(xs: seq<int>, k: int, slot: nat)
    requires slot == Slots(xs) && forall j :: 0 <= j < slot ==> SlotBelow(xs, k, j)
    ensures IsFirstAtLeast(xs, k, slot)
  {
  }

  lemma GroupsOf(xs: seq<int>) returns (groups: nat)
    requires |xs| % 8 == 0
    ensures |xs| == 8 * groups && Slots(xs) == |xs| / 2 == 4 * groups
  {
    groups := |xs| / 8;
  }

  /** The four-way unrolled search used on platforms without the assembly version. */
  method Search(xs: seq<int>, k: int) returns (r: int)
    ensures exists slot :: IsFirstAtLeast(xs, k, slot) && r == ToInt16(slot)
  {
    hide IsFirstAtLeast, SlotBelow, ToInt16, Slots;
    if |xs| < 8 || |xs| % 8 != 0 {
      r := Naive(xs, k);
      return;
    }
    ghost var groups := GroupsOf(xs);
    var twos, pk := new int[4], new int[4];
    pk[0], pk[1], pk[2], pk[3] := k, k, k, k;
    var i := 0;
    ghost var slot, round := 0, 0;
    while i < |xs|
      invariant i == 8 * round && slot == 4 * round && round <= groups
      invariant pk[..] == [k, k, k, k]
      invariant forall j :: 0 <= j < slot ==> SlotBelow(xs, k, j)
    {
      twos[0], twos[1], twos[2], twos[3] := xs[i], xs[i + 2], xs[i + 4], xs[i + 6];
      assert i / 2 == slot && (i + 2) / 2 == slot + 1 && (i + 4) / 2 == slot + 2 && (i + 6) / 2 == slot + 3;
      LookAt(xs, k, slot);
      if twos[0] >= pk[0] {
        return ToInt16(i / 2);
      }
      LookAt(xs, k, slot + 1);
      if twos[1] >= pk[1] {
        return ToInt16((i + 2) / 2);
      }
      LookAt(xs, k, slot + 2);
      if twos[2] >= pk[2] {
        return ToInt16((i + 4) / 2);
      }
      LookAt(xs, k, slot + 3);
      if twos[3] >= pk[3] {
        return ToInt16((i + 6) / 2);
      }
      i, slot, round := i + 8, slot + 4, round + 1;
    }
    LookedAtAll(xs, k, slot);
    r := ToInt16(|xs| / 2);
  }

  /** The keys of the slice, one a slot, are in ascending order. */
  ghost predicate SortedSlots(xs: seq<int>) {
    forall i, j :: 0 <= i <= j < Slots(xs) ==> xs[2 * i] <= xs[2 * j]
  }

  /** The binary search over all |xs| positions, where a position past the last slot counts as found. */
  method Binary(xs: seq<int>, k: int) returns (r: int)
    requires SortedSlots(xs)
    ensures exists slot :: IsFirstAtLeast(xs, k, slot) && r == ToInt16(slot)
  {
    var lo, hi := 0, |xs|;
    while lo < hi
      invariant 0 <= lo <= Slots(xs) && lo <= hi <= |xs|
      invariant forall i :: 0 <= i < lo ==> SlotBelow(xs, k, i)
      invariant hi < Slots(xs) ==> xs[2 * hi] >= k
    {
      var mid := (lo + hi) / 2;
      if mid * 2 >= |xs| || xs[mid * 2] >= k {
        hi := mid;
      } else {
        assert forall i :: 0 <= i <= mid ==> xs[2 * i] <= xs[2 * mid];
        lo := mid + 1;
      }
    }
    assert IsFirstAtLeast(xs, k, lo);
    r := ToInt16(lo);
  }
}
