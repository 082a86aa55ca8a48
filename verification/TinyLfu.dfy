/** The admission counter of policy.go: a Bloom doorkeeper in front of a count-min sketch. */
module TinyLfu {
  import Bloom
  import Powers
  import Sketch

  /** The increments counted after one more: none, if that one filled the sample period. */
  ghost function Counted(seen: multiset<Sketch.Hash>, key: Sketch.Hash, resetAt: int): multiset<Sketch.Hash> {
    var s := seen + multiset{key};
    if |s| >= resetAt then multiset{} else s
  }

  ghost function CountedAll(seen: multiset<Sketch.Hash>, keys: seq<Sketch.Hash>, resetAt: int): multiset<Sketch.Hash> {
    if keys == [] then seen
    else Counted(CountedAll(seen, keys[..|keys| - 1], resetAt), keys[|keys| - 1], resetAt)
  }

  /** The last `m` keys. */
  ghost function Window(keys: seq<Sketch.Hash>, m: nat): multiset<Sketch.Hash>
    requires m <= |keys|
  {
    multiset(keys[|keys| - m..])
  }

  /** From a fresh counter, exactly the keys after the last full sample period are counted. */
  lemma CountedIsTail(keys: seq<Sketch.Hash>, resetAt: nat)
    requires resetAt > 0
    ensures CountedAll(multiset{}, keys, resetAt) == multiset(keys[|keys| - |keys| % resetAt..])
  {
    hide CountedAll;
    CountedTail(keys, resetAt, |keys| / resetAt, |keys| % resetAt);
  }

  /** After `q` full periods and `m` keys more. */
  lemma {:induction false} CountedTail(keys: seq<Sketch.Hash>, resetAt: nat, q: nat, m: nat)
    requires m < resetAt && |keys| == q * resetAt + m
    ensures CountedAll(multiset{}, keys, resetAt) == Window(keys, m)
    decreases |keys|
  {
    hide CountedAll, Window;
    if keys == [] {
      NoneCounted(resetAt);
    } else if m > 0 {
      CountedTail(keys[..|keys| - 1], resetAt, q, m - 1);
      CountedStep(keys, m - 1, resetAt);
    } else {
      OneFewer(q, resetAt, |keys|);
      CountedTail(keys[..|keys| - 1], resetAt, q - 1, resetAt - 1);
      CountedStep(keys, resetAt - 1, resetAt);
    }
  }

  lemma OneFewer(q: nat, d: nat, n: nat)
    requires d > 0 && n > 0 && n == q * d
    ensures q > 0 && n - 1 == (q - 1) * d + (d - 1)
  {
  }

  lemma NoneCounted(resetAt: nat)
    ensures CountedAll(multiset{}, [], resetAt) == Window([], 0)
  {
  }

  lemma CountedStep(keys: seq<Sketch.Hash>, m: nat, resetAt: nat)
    requires m < |keys| && CountedAll(multiset{}, keys[..|keys| - 1], resetAt) == Window(keys[..|keys| - 1], m)
    ensures CountedAll(multiset{}, keys, resetAt) == if m + 1 < resetAt then Window(keys, m + 1) else Window(keys, 0)
  {
    hide Window;
    WindowStep(keys, m);
  }

  lemma WindowStep(keys: seq<Sketch.Hash>, m: nat)
    requires m < |keys|
    ensures |Window(keys[..|keys| - 1], m)| == m && Window(keys, 0) == multiset{}
    ensures Window(keys, m + 1) == Window(keys[..|keys| - 1], m) + multiset{keys[|keys| - 1]}
  {
    var front := keys[..|keys| - 1];
    assert keys[|keys| - (m + 1)..] == front[|front| - m..] + [keys[|keys| - 1]];
  }

  /** The part of `n` increments that the sketch must show: the doorkeeper takes the first. */
  function Owed(n: nat): nat {
    if n == 0 then 0 else Sketch.Least(15, n - 1)
  }

  /** One more increment is one more hit at most, and none the first time. */
  lemma OwedSteps()
    ensures Owed(0) == 0 == Owed(1)
    ensures forall h: nat, n: nat | h >= Owed(n) :: Sketch.Bumped(h) >= Owed(n + 1)
  {
  }

  class Counter {
    const freq: Sketch.CmSketch
    const door: Bloom.Filter
    const resetAt: int
    var incrs: int
    // The increments since the last reset or clear.
    ghost var seen: multiset<Sketch.Hash>

    ghost predicate Shape()
      reads this
    {
      && freq.Valid() && door.Valid() && door.bits !in freq.rows && incrs == |seen|
    }

    /** No key is counted below the number of its increments, one of which the doorkeeper holds. */
    ghost predicate Valid()
      reads this, door.bits, freq.rows
    {
      && Shape()
      && (forall key | key in seen :: door.Of(key) <= door.Bits())
      && (forall key, i: nat | i < Sketch.DEPTH :: freq.Hits(i, key) >= Owed(seen[key]))
    }

    /** `bits` and `locs` are what the filter's sizing formula gives. */
    constructor (numCounters: bv64, seeds: seq<nat>, bits: nat, locs: nat)
      requires 2 <= numCounters <= 0x4000_0000_0000_0000 && |seeds| == Sketch.DEPTH && bits <= Powers.WORD / 2
      ensures Valid() && seen == multiset{} && fresh(freq.rows) && fresh(door) && fresh(door.bits)
      ensures resetAt == numCounters as int
      ensures forall key: Sketch.Hash :: Estimated(key) == if locs == 0 then 1 else 0
    {
      hide Bloom.Loc, Bloom.BitsOf, Bloom.Filter.Bits, Bloom.Filter.Of, Bloom.Filter.Valid;
      hide Sketch.CmSketch.Frequency, Sketch.CmSketch.Slot, Sketch.CmSketch.At, Sketch.CmSketch.Hits;
      freq := new Sketch.CmSketch(numCounters, seeds);
      door := new Bloom.Filter(bits, locs);
      resetAt, incrs, seen := numCounters as int, 0, multiset{};
      new;
      door.OfEmpty();
    }

    ghost function Estimated(key: Sketch.Hash): nat
      requires Shape()
      reads this, door.bits, freq.rows
    {
      freq.Frequency(key) + if door.Of(key) <= door.Bits() then 1 else 0
    }

    /** Never below the key's increments since the last reset or clear, up to 16. */
    method Estimate(key: Sketch.Hash) returns (hits: nat)
      requires Valid()
      ensures hits == Estimated(key) == freq.Frequency(key) + if door.Of(key) <= door.Bits() then 1 else 0
      ensures Sketch.Least(seen[key], 16) <= hits <= 16
    {
      hide Bloom.Filter.Bits, Bloom.Filter.Of, Sketch.CmSketch.Hits;
      hits := freq.Estimate(key);
      freq.FrequencyAbove(key, Owed(seen[key]));
      var has := door.Has(key);
      if has {
        hits := hits + 1;
      }
    }

    method Increment(key: Sketch.Hash)
      requires Valid()
      modifies this, door, door.bits, freq.rows
      ensures Valid() && seen == Counted(old(seen), key, resetAt)
      ensures var full := old(incrs) + 1 >= resetAt;
        && door.Bits() == (if full then {} else old(door.Bits()) + door.Of(key))
        && forall i: nat, n: nat | i < Sketch.DEPTH && n < freq.size ::
             var seenBefore := old(door.Of(key) <= door.Bits());
             var c := if seenBefore && n == freq.Slot(i, key) then Sketch.Bumped(old(freq.At(i, n)))
               else old(freq.At(i, n));
             freq.At(i, n) == if full then c / 2 else c
    {
      hide Bloom.Filter.Bits, Bloom.Filter.Of, Sketch.CmSketch.Slot, Sketch.CmSketch.At, Sketch.CmSketch.Hits;
      Count(key);
      if incrs >= resetAt {
        Reset();
      }
    }

    /** The first sighting goes to the doorkeeper, later ones to the sketch. */
    method Count(key: Sketch.Hash)
      requires Valid()
      modifies this, door, door.bits, freq.rows
      ensures Valid() && seen == old(seen) + multiset{key} && incrs == old(incrs) + 1
      ensures door.Bits() == old(door.Bits()) + door.Of(key)
      ensures forall i: nat, n: nat | i < Sketch.DEPTH && n < freq.size ::
        freq.At(i, n) ==
          if old(door.Of(key) <= door.Bits()) && n == freq.Slot(i, key) then Sketch.Bumped(old(freq.At(i, n)))
          else old(freq.At(i, n))
    {
      hide Bloom.Filter.Bits, Bloom.Filter.Of, Sketch.CmSketch.Slot, Sketch.CmSketch.At, Sketch.CmSketch.Hits,
           Bloom.Filter.Valid, Sketch.CmSketch.Valid, Owed, Sketch.Bumped;
      var added := door.AddIfNotHas(key);
      if !added {
        freq.Increment(key);
      }
      seen := seen + multiset{key};
      incrs := incrs + 1;
      OwedSteps();
      forall k, i: nat | i < Sketch.DEPTH
        ensures freq.Hits(i, k) >= Owed(seen[k])
      {
        assert old(freq.Hits(i, k)) >= Owed(old(seen)[k]);
        if k == key {
          assert seen[k] == old(seen)[k] + 1;
        } else {
          assert seen[k] == old(seen)[k];
        }
      }
      forall k | k in seen
        ensures door.Of(k) <= door.Bits()
      {
        assert k != key ==> k in old(seen);
      }
    }

    /** Forgets the doorkeeper and halves every estimate of the sketch. */
    method Reset()
      requires Shape()
      modifies this, door.bits, freq.rows
      ensures Valid() && seen == multiset{} && door.Bits() == {}
      ensures forall i: nat, n: nat | i < Sketch.DEPTH && n < freq.size :: freq.At(i, n) == old(freq.At(i, n)) / 2
      ensures forall key: Sketch.Hash :: freq.Frequency(key) == old(freq.Frequency(key)) / 2
    {
      hide Sketch.CmSketch.Hits, Sketch.CmSketch.At, Sketch.CmSketch.Frequency, Bloom.Filter.Bits, Bloom.Filter.Of;
      incrs, seen := 0, multiset{};
      door.Clear();
      freq.Reset();
    }

    method Clear()
      requires Shape()
      modifies this, door.bits, freq.rows
      ensures Valid() && seen == multiset{} && door.Bits() == {}
      ensures forall key: Sketch.Hash :: freq.Frequency(key) == 0
    {
      incrs, seen := 0, multiset{};
      door.Clear();
      freq.Clear();
    }

    method Push(keys: seq<Sketch.Hash>)
      requires Valid()
      modifies this, door, door.bits, freq.rows
      ensures Valid() && seen == CountedAll(old(seen), keys, resetAt)
    {
      hide Valid, Counted;
      for i := 0 to |keys|
        invariant Valid() && seen == CountedAll(old(seen), keys[..i], resetAt)
      {
        Increment(keys[i]);
        assert keys[..i + 1][..i] == keys[..i];
      }
      assert keys[..|keys|] == keys;
    }
  }
}
