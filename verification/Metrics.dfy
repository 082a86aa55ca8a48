/** The sharded counters of cache.go. */
module Metrics {
  import opened Powers

  const SLOTS: nat := 256

  datatype Metric =
    | Hit | Miss | KeyAdd | KeyUpdate | KeyEvict | CostAdd | CostEvict | DropSets | RejectSets | DropGets | KeepGets

  const KINDS: nat := 11

  function Index(t: Metric): (i: nat)
    ensures i < KINDS
  {
    match t
    case Hit => 0
    case Miss => 1
    case KeyAdd => 2
    case KeyUpdate => 3
    case KeyEvict => 4
    case CostAdd => 5
    case CostEvict => 6
    case DropSets => 7
    case RejectSets => 8
    case DropGets => 9
    case KeepGets => 10
  }

  function Sum(s: seq<int>): int {
    if s == [] then 0 else Sum(s[..|s| - 1]) + s[|s| - 1]
  }

  lemma {:induction false} SumUpdate(s: seq<int>, i: nat, x: int)
    requires i < |s|
    ensures Sum(s[i := x]) == Sum(s) - s[i] + x
  {
    var u := s[i := x];
    if i < |s| - 1 {
      SumUpdate(s[..|s| - 1], i, x);
      assert u[..|s| - 1] == s[..|s| - 1][i := x];
    } else {
      assert u[..|s| - 1] == s[..|s| - 1];
    }
  }

  /** Adding to a slot, which wraps around, adds to the total, which wraps around. */
  lemma SlotAdds(s: seq<int>, i: nat, delta: int)
    requires i < |s|
    ensures Sum(s[i := (s[i] + delta) % WORD]) % WORD == (Sum(s) % WORD + delta) % WORD
  {
    SumUpdate(s, i, (s[i] + delta) % WORD);
    Wrapped(Sum(s), s[i], delta);
  }

  lemma Wrapped(sum: int, x: int, delta: int)
    ensures (sum - x + (x + delta) % WORD) % WORD == (sum % WORD + delta) % WORD
  {
    var q := (x + delta) / WORD;
    var p := sum / WORD;
    var a := sum - x + (x + delta) % WORD;
    assert a == sum + delta - q * WORD;
    assert sum % WORD + delta == a + (q - p) * WORD;
  }

  /** Counters that are switched off, which the source has as nil, count nothing. */
  class Counters {
    const enabled: bool
    const all: array2<nat>

    ghost predicate Valid() {
      all.Length0 == KINDS && all.Length1 == SLOTS
    }

    constructor (on: bool)
      ensures Valid() && fresh(all) && enabled == on
      ensures forall t: Metric :: Value(t) == 0
    {
      enabled := on;
      all := new nat[KINDS, SLOTS]((i, j) => 0);
      new;
      AllZero();
    }

    /** The slots of one counter. */
    ghost function Slots(t: Metric): (s: seq<int>)
      requires Valid()
      reads all
    {
      seq(SLOTS, i requires 0 <= i < SLOTS reads all => all[Index(t), i])
    }

    /** The value of a counter: its slots added up, modulo 2^64. */
    ghost function Value(t: Metric): (v: nat)
      requires Valid()
      reads all
      ensures v < WORD
    {
      Sum(Slots(t)) % WORD
    }

    lemma AllZero()
      requires Valid() && forall i, j | 0 <= i < KINDS && 0 <= j < SLOTS :: all[i, j] == 0
      ensures forall t: Metric :: Value(t) == 0
    {
      forall t: Metric
        ensures Value(t) == 0
      {
        assert forall i | 0 <= i < SLOTS :: Slots(t)[i] == all[Index(t), i];
        ZeroSum(Slots(t));
      }
    }

    /** Adds to the slot that the hash selects; the counter goes up by `delta`, all others stay. */
    method Add(t: Metric, hash: int, delta: nat)
      requires Valid()
      modifies all
      ensures Value(t) == if enabled then (old(Value(t)) + delta) % WORD else old(Value(t))
      ensures forall u: Metric | u != t :: Value(u) == old(Value(u))
    {
      if !enabled {
        return;
      }
      ghost var before := Slots(t);
      var idx := (hash % 25) * 10;
      all[Index(t), idx] := (all[Index(t), idx] + delta) % WORD;
      assert Slots(t) == before[idx := (before[idx] + delta) % WORD];
      SlotAdds(before, idx, delta);
      forall u: Metric | u != t
        ensures Value(u) == old(Value(u))
      {
        assert Index(u) != Index(t);
        assert Slots(u) == old(Slots(u));
      }
    }

    method Get(t: Metric) returns (total: nat)
      requires Valid()
      ensures total == if enabled then Value(t) else 0
    {
      if !enabled {
        return 0;
      }
      total := 0;
      ghost var s := Slots(t);
      for i := 0 to SLOTS
        invariant total == Sum(s[..i]) % WORD
      {
        assert s[..i + 1][..i] == s[..i];
        assert (Sum(s[..i]) % WORD + s[i]) % WORD == (Sum(s[..i]) + s[i]) % WORD;
        total := (total + all[Index(t), i]) % WORD;
      }
      assert s[..SLOTS] == s;
    }

    method Clear()
      requires Valid()
      modifies all
      ensures enabled ==> forall t: Metric :: Value(t) == 0
    {
      if !enabled {
        return;
      }
      forall i, j | 0 <= i < KINDS && 0 <= j < SLOTS {
        all[i, j] := 0;
      }
      AllZero();
    }
  }

  lemma {:induction false} ZeroSum(s: seq<int>)
    requires forall i | 0 <= i < |s| :: s[i] == 0
    ensures Sum(s) == 0
  {
    if s != [] {
      ZeroSum(s[..|s| - 1]);
    }
  }
}
