/** The bump allocator of z/allocator.go, used by one goroutine. */
module Allocator {
  import opened Collections
  import opened Powers

  const MAX_ALLOC: nat := 0x4000_0000
  const BUFFERS: nat := 64

  // compIdx holds the buffer index in its high and the position in its low 32 bits.
  const LOW: nat := 0x1_0000_0000

  /** Splits the packed word. */
  function Parse(pos: nat): (int, int) {
    (pos / LOW, pos % LOW)
  }

  function Pack(bufIdx: nat, posIdx: nat): nat {
    bufIdx * LOW + posIdx
  }

  // ---- Growing ----

  /** Doubles a page size until it holds `minSz`. */
  function Doubled(page: nat, minSz: nat): (r: nat)
    requires page > 0
    ensures r >= minSz && r >= page
    decreases minSz - page
  {
    if page < minSz then Doubled(2 * page, minSz) else page
  }

  /** The size of the buffer after one of size `prev` when `minSz` is asked for. */
  function PageSize(prev: nat, minSz: nat): (r: nat)
    requires prev > 0
    ensures 0 < r <= MAX_ALLOC
    ensures minSz <= MAX_ALLOC ==> minSz <= r
  {
    var page := Doubled(2 * prev, minSz);
    if page > MAX_ALLOC then MAX_ALLOC else page
  }

  /**
   * Finds or makes, from buffer `i` on, a buffer that holds `minSz`; only the lengths of the
   * buffers matter, 0 for one not there. Nothing if all buffers are in use.
   */
  function Grown(lens: seq<nat>, i: nat, minSz: nat): (r: Option<seq<nat>>)
    requires 0 < i && (i < |lens| && lens[i] == 0 ==> lens[i - 1] > 0)
    decreases |lens| - i
  {
    if i >= |lens| then None
    else if lens[i] == 0 then Some(lens[i := PageSize(lens[i - 1], minSz)])
    else if minSz <= lens[i] then Some(lens)
    else Grown(lens, i + 1, minSz)
  }

  /**
   * How long a new buffer is: the least multiple of the one before by a power of two, from two on,
   * that holds the request, cut to the maximum.
   */
  ghost predicate NewLength(prev: nat, sz: nat, len: nat) {
    exists e: nat :: e > 0 && LeastDoubling(prev, sz, e) && len == AtMost(Pow2(e) * prev, MAX_ALLOC)
  }

  ghost predicate LeastDoubling(prev: nat, sz: nat, e: nat)
    requires e > 0
  {
    Pow2(e) * prev >= sz && (e == 1 || Pow2(e - 1) * prev < sz)
  }

  function AtMost(x: nat, max: nat): nat { if x > max then max else x }

  lemma {:induction false} DoubledIs(page: nat, minSz: nat) returns (d: nat)
    requires page > 0
    ensures Doubled(page, minSz) == Pow2(d) * page >= minSz && (d == 0 || Pow2(d - 1) * page < minSz)
    decreases minSz - page
  {
    d := 0;
    if page < minSz {
      var c := DoubledIs(2 * page, minSz);
      d := c + 1;
      TwiceAsMuch(c, page);
      if c > 0 {
        TwiceAsMuch(c - 1, page);
      }
    }
  }

  lemma TwiceAsMuch(e: nat, page: nat)
    ensures Pow2(e + 1) * page == Pow2(e) * (2 * page)
  {
    var p := Pow2(e);
    assert Pow2(e + 1) == 2 * p;
    assert (2 * p) * page == p * (2 * page);
  }

  lemma PageSizeIs(prev: nat, minSz: nat)
    requires prev > 0
    ensures NewLength(prev, minSz, PageSize(prev, minSz))
  {
    var d := DoubledIs(2 * prev, minSz);
    TwiceAsMuch(d, prev);
    if d > 0 {
      TwiceAsMuch(d - 1, prev);
    }
    assert LeastDoubling(prev, minSz, d + 1);
  }

  /** The buffer is there and too small. */
  predicate TooSmall(len: nat, sz: nat) { 0 < len < sz }

  /** Growing finds the first buffer that is not too small, or makes it; it fails if all are too small. */
  ghost predicate FirstUsable(lens: seq<nat>, i: nat, sz: nat, j: nat, more: seq<nat>) {
    && i <= j < |lens| == |more| && (forall k | i <= k < j :: TooSmall(lens[k], sz))
    && more == lens[j := more[j]]
    && (if lens[j] > 0 then more[j] == lens[j] >= sz else j > 0 && NewLength(lens[j - 1], sz, more[j]))
  }

  lemma {:induction false} GrownIs(lens: seq<nat>, i: nat, minSz: nat) returns (j: nat)
    requires 0 < i && (i < |lens| && lens[i] == 0 ==> lens[i - 1] > 0)
    ensures match Grown(lens, i, minSz)
      case None => forall k | i <= k < |lens| :: TooSmall(lens[k], minSz)
      case Some(more) => FirstUsable(lens, i, minSz, j, more)
    decreases |lens| - i
  {
    j := i;
    if i < |lens| {
      if lens[i] == 0 {
        PageSizeIs(lens[i - 1], minSz);
      } else if minSz > lens[i] {
        j := GrownIs(lens, i + 1, minSz);
      }
    }
  }

  /** `more` has every buffer of `lens`, unchanged. */
  ghost predicate Extends(lens: seq<nat>, more: seq<nat>) {
    |more| == |lens| && forall i | 0 <= i < |lens| && lens[i] > 0 :: more[i] == lens[i]
  }

  /** Growing keeps all buffers, makes the next one exist, and makes at most one, not above the maximum. */
  lemma {:induction false} GrownKeeps(lens: seq<nat>, i: nat, minSz: nat)
    requires 0 < i && (i < |lens| && lens[i] == 0 ==> lens[i - 1] > 0)
    ensures var g := Grown(lens, i, minSz);
      g.Some? ==>
        && i < |lens| && Extends(lens, g.value) && g.value[i] > 0
        && (forall j | 0 <= j < |lens| && g.value[j] != lens[j] ::
              i <= j && lens[j] == 0 && 0 < g.value[j] <= MAX_ALLOC)
    decreases |lens| - i
  {
    if i < |lens| && lens[i] != 0 && minSz > lens[i] {
      GrownKeeps(lens, i + 1, minSz);
    }
  }

  /** Once grown, growing again for the same request changes nothing. */
  lemma {:induction false} GrownAgain(lens: seq<nat>, i: nat, minSz: nat, more: seq<nat>)
    requires 0 < i && (i <= |lens| ==> lens[i - 1] > 0) && minSz <= MAX_ALLOC
    requires Grown(lens, i, minSz).Some? && Extends(Grown(lens, i, minSz).value, more)
    ensures |more| == |lens| && more[i - 1] > 0 && Grown(more, i, minSz) == Some(more)
    decreases |lens| - i
  {
    GrownKeeps(lens, i, minSz);
    if lens[i] != 0 && minSz > lens[i] {
      GrownAgain(lens, i + 1, minSz, more);
    }
  }

  // ---- One request ----

  /** Where a request goes: bytes [lo, lo + sz) of buffer `buf`, with the buffers as they are then. */
  datatype Placement = Placement(buf: nat, lo: nat, lens: seq<nat>)

  ghost predicate Sound(lens: seq<nat>, bi: nat, low: nat) {
    && bi < |lens| == BUFFERS
    && (forall i | 0 <= i <= bi :: lens[i] > 0)
    && (forall i | 0 <= i < |lens| :: lens[i] < 3 * MAX_ALLOC)
    && low <= lens[bi]
  }

  function Placed(lens: seq<nat>, bi: nat, low: nat, sz: nat): (r: Option<Placement>)
    requires bi < |lens| && lens[bi] > 0
    decreases |lens| - bi
  {
    if low + sz <= lens[bi] then Some(Placement(bi, low, lens))
    else
      var g := Grown(lens, bi + 1, sz);
      GrownKeeps(lens, bi + 1, sz);
      if g.None? then None else Placed(g.value, bi + 1, 0, sz)
  }

  lemma PlacedStep(lens: seq<nat>, bi: nat, low: nat, sz: nat)
    requires bi < |lens| && lens[bi] > 0
    ensures var r := Placed(lens, bi, low, sz);
      if low + sz <= lens[bi] then r == Some(Placement(bi, low, lens))
      else match Grown(lens, bi + 1, sz)
        case None => r == None
        case Some(l) => bi + 1 < |l| && l[bi + 1] > 0 && r == Placed(l, bi + 1, 0, sz)
  {
    GrownKeeps(lens, bi + 1, sz);
  }

  /** A placement is inside its buffer and after everything placed before it. */
  lemma {:induction false} PlacedInside(lens: seq<nat>, bi: nat, low: nat, sz: nat)
    requires Sound(lens, bi, low)
    ensures var r := Placed(lens, bi, low, sz);
      r.Some? ==>
        && Sound(r.value.lens, r.value.buf, r.value.lo + sz) && Extends(lens, r.value.lens)
        && (r.value.buf > bi || (r.value.buf == bi && r.value.lo == low))
    decreases |lens| - bi
  {
    if low + sz > lens[bi] {
      GrownKeeps(lens, bi + 1, sz);
      var g := Grown(lens, bi + 1, sz);
      if g.Some? {
        PlacedInside(g.value, bi + 1, 0, sz);
      }
    }
  }

  /** Behind a buffer without room, a request goes to the start of the first buffer that is not too small. */
  lemma {:induction false} PlacedIs(lens: seq<nat>, bi: nat, low: nat, sz: nat)
    requires Sound(lens, bi, low) && 0 < sz <= MAX_ALLOC && low + sz > lens[bi]
    ensures match Placed(lens, bi, low, sz)
      case None => forall k | bi < k < |lens| :: TooSmall(lens[k], sz)
      case Some(p) => p.lo == 0 && FirstUsable(lens, bi + 1, sz, p.buf, p.lens)
    decreases |lens| - bi
  {
    PlacedStep(lens, bi, low, sz);
    GrownKeeps(lens, bi + 1, sz);
    var j := GrownIs(lens, bi + 1, sz);
    var g := Grown(lens, bi + 1, sz);
    if g.Some? {
      var more := g.value;
      GrownFits(lens, bi + 1, sz, j, more);
      PlacedStep(more, bi + 1, 0, sz);
      if sz > more[bi + 1] {
        PlacedIs(more, bi + 1, 0, sz);
        hide NewLength, Sound;
      }
    }
  }

  lemma PlacedNever(lens: seq<nat>, bi: nat, low: nat, sz: nat)
    requires Sound(lens, bi, low) && 0 < sz <= MAX_ALLOC && low + sz > lens[bi]
    requires Placed(lens, bi, low, sz).Some?
    ensures !forall k | bi < k < |lens| :: 0 < lens[k] < sz
  {
    PlacedIs(lens, bi, low, sz);
    var p := Placed(lens, bi, low, sz).value;
    assert !(0 < lens[p.buf] < sz);
  }

  /** A buffer that growing found or made holds the request. */
  lemma GrownFits(lens: seq<nat>, i: nat, sz: nat, j: nat, more: seq<nat>)
    requires FirstUsable(lens, i, sz, j, more) && sz <= MAX_ALLOC
    ensures more[j] >= sz
  {
  }

  /** With the buffers of any later state, the same request from the same place goes to the same place. */
  lemma {:induction false} PlacedAgain(lens: seq<nat>, bi: nat, low: nat, sz: nat, more: seq<nat>)
    requires Sound(lens, bi, low) && sz <= MAX_ALLOC && Placed(lens, bi, low, sz).Some?
    requires Extends(Placed(lens, bi, low, sz).value.lens, more)
    ensures |more| == |lens| && more[bi] == lens[bi]
    ensures Placed(more, bi, low, sz) == Some(Placed(lens, bi, low, sz).value.(lens := more))
    decreases |lens| - bi
  {
    PlacedInside(lens, bi, low, sz);
    if low + sz > lens[bi] {
      var g := Grown(lens, bi + 1, sz);
      GrownKeeps(lens, bi + 1, sz);
      PlacedInside(g.value, bi + 1, 0, sz);
      GrownAgain(lens, bi + 1, sz, more);
      PlacedAgain(g.value, bi + 1, 0, sz, more);
    }
  }

  // ---- A run of requests ----

  /** Where each of a sequence of requests goes, and the buffers at the end. */
  datatype Outcome = Outcome(places: seq<(nat, nat)>, lens: seq<nat>)

  function OutcomeOf(lens: seq<nat>, bi: nat, low: nat, requests: seq<nat>): (r: Option<Outcome>)
    requires Sound(lens, bi, low)
    decreases |requests|
  {
    if requests == [] then Some(Outcome([], lens))
    else
      PlacedInside(lens, bi, low, requests[0]);
      var p := Placed(lens, bi, low, requests[0]);
      if p.None? then None
      else
        var rest := OutcomeOf(p.value.lens, p.value.buf, p.value.lo + requests[0], requests[1..]);
        if rest.None? then None
        else Some(Outcome([(p.value.buf, p.value.lo)] + rest.value.places, rest.value.lens))
  }

  lemma {:induction false} OutcomeExtends(lens: seq<nat>, bi: nat, low: nat, requests: seq<nat>)
    requires Sound(lens, bi, low) && OutcomeOf(lens, bi, low, requests).Some?
    ensures Extends(lens, OutcomeOf(lens, bi, low, requests).value.lens)
    decreases |requests|
  {
    if requests != [] {
      PlacedInside(lens, bi, low, requests[0]);
      var p := Placed(lens, bi, low, requests[0]).value;
      OutcomeExtends(p.lens, p.buf, p.lo + requests[0], requests[1..]);
    }
  }

  lemma {:induction false} RunAgain(lens: seq<nat>, bi: nat, low: nat, requests: seq<nat>, more: seq<nat>)
    requires Sound(lens, bi, low) && Sound(more, bi, low)
    requires forall k | 0 <= k < |requests| :: requests[k] <= MAX_ALLOC
    requires OutcomeOf(lens, bi, low, requests).Some? && Extends(OutcomeOf(lens, bi, low, requests).value.lens, more)
    ensures OutcomeOf(more, bi, low, requests) == Some(OutcomeOf(lens, bi, low, requests).value.(lens := more))
    decreases |requests|
  {
    hide Placed;
    if requests == [] {
    } else {
      var sz := requests[0];
      PlacedInside(lens, bi, low, sz);
      var p := Placed(lens, bi, low, sz).value;
      OutcomeExtends(p.lens, p.buf, p.lo + sz, requests[1..]);
      PlacedAgain(lens, bi, low, sz, more);
      PlacedInside(more, bi, low, sz);
      RunAgain(p.lens, p.buf, p.lo + sz, requests[1..], more);
    }
  }

  /** After Reset, the same requests get the same places and no new buffer is made. */
  lemma ReplayAfterReset(lens: seq<nat>, requests: seq<nat>)
    requires Sound(lens, 0, 0) && forall k | 0 <= k < |requests| :: requests[k] <= MAX_ALLOC
    requires OutcomeOf(lens, 0, 0, requests).Some?
    ensures var first := OutcomeOf(lens, 0, 0, requests).value;
      Sound(first.lens, 0, 0) && OutcomeOf(first.lens, 0, 0, requests) == Some(first)
  {
    OutcomeExtends(lens, 0, 0, requests);
    RunSound(lens, 0, 0, requests);
    RunAgain(lens, 0, 0, requests, OutcomeOf(lens, 0, 0, requests).value.lens);
  }

  lemma {:induction false} RunSound(lens: seq<nat>, bi: nat, low: nat, requests: seq<nat>)
    requires Sound(lens, bi, low) && OutcomeOf(lens, bi, low, requests).Some?
    ensures Sound(OutcomeOf(lens, bi, low, requests).value.lens, bi, low)
    decreases |requests|
  {
    if requests != [] {
      PlacedInside(lens, bi, low, requests[0]);
      var p := Placed(lens, bi, low, requests[0]).value;
      RunSound(p.lens, p.buf, p.lo + requests[0], requests[1..]);
      OutcomeExtends(lens, bi, low, requests);
    }
  }

  // ---- The first buffer's size ----

  function OnesCount(n: nat): nat {
    if n == 0 then 0 else n % 2 + OnesCount(n / 2)
  }

  /** More than one bit is set exactly if the number is above the power of two it starts with. */
  lemma {:induction false} OnesOfPower(n: nat, k: nat)
    requires Pow2(k) <= n < Pow2(k + 1)
    ensures OnesCount(n) > 1 <==> n > Pow2(k)
    ensures OnesCount(n) > 0
  {
    if k > 0 {
      OnesOfPower(n / 2, k - 1);
    } else {
      assert n == 1;
    }
  }

  /** The table of logarithms for small sizes. */
  function SmallLog2(n: nat): (r: nat)
    requires n > 0
    ensures Pow2(r) <= n < Pow2(r + 1)
  {
    if n == 1 then 0 else 1 + SmallLog2(n / 2)
  }

  lemma HalfBetween(s: nat, p: nat, n: nat)
    requires s * p <= n < (s + 1) * p
    ensures s / 2 * (2 * p) <= n < (s / 2 + 1) * (2 * p)
  {
    var h := s / 2;
    assert h * (2 * p) == 2 * h * p && (h + 1) * (2 * p) == (2 * h + 2) * p;
    if s == 2 * h {
      assert (2 * h + 2) * p == (s + 1) * p + p;
    } else {
      assert s == 2 * h + 1 && s * p == 2 * h * p + p;
    }
  }

  method Log2(size: nat) returns (pow: nat)
    requires size > 0
    ensures Pow2(pow) <= size < Pow2(pow + 1)
  {
    if size < 1025 {
      return SmallLog2(size);
    }
    Pow2Small();
    pow := 10;
    var sz := size / 1024;
    while sz > 1
      invariant sz >= 1 && sz * Pow2(pow) <= size < (sz + 1) * Pow2(pow)
    {
      HalfBetween(sz, Pow2(pow), size);
      sz := sz / 2;
      pow := pow + 1;
    }
  }

  method FirstSize(sz: nat) returns (size: nat, ghost l2: nat)
    ensures size == Pow2(l2) && size >= 512 && size >= sz
    ensures size > 512 ==> size / 2 < sz
  {
    hide Pow2, OnesCount;
    var n := if sz < 512 then 512 else sz;
    var l := Log2(n);
    OnesOfPower(n, l);
    Pow2Adds(l, 1);
    Pow2Small();
    if OnesCount(n) > 1 {
      l := l + 1;
    }
    if l > 9 {
      Pow2Grows(10, l);
    } else {
      Pow2Grows(l, 9);
    }
    size, l2 := Pow2(l), l;
  }

  // ---- The allocator ----

  /** What Allocate gives back: nothing for size 0, bytes [lo, hi) of a buffer, or a panic. */
  datatype Result = Nil | Data(buf: nat, lo: nat, hi: nat) | Panic

  /** The sum of the first `n` lengths. */
  function Total(lens: seq<nat>, n: nat): nat
    requires n <= |lens|
  {
    if n == 0 then 0 else Total(lens, n - 1) + lens[n - 1]
  }

  /** How many buffers TrimTo keeps: those before the first gap whose running total is below `max`. */
  function KeptBuffers(lens: seq<nat>, max: nat, i: nat): (r: nat)
    requires i <= |lens|
    ensures i <= r <= |lens|
    decreases |lens| - i
  {
    if i == |lens| || lens[i] == 0 || Total(lens, i + 1) >= max then i else KeptBuffers(lens, max, i + 1)
  }

  /** The lengths after TrimTo: the kept buffers, and whatever lies behind the first gap. */
  ghost function Trimmed(lens: seq<nat>, max: nat): (r: seq<nat>)
    ensures |r| == |lens|
  {
    seq(|lens|, j requires 0 <= j < |lens| => if j < KeptBuffers(lens, max, 0) || Gap(lens, j) then lens[j] else 0)
  }

  /** A buffer at or before `j` is not there. */
  ghost predicate Gap(lens: seq<nat>, j: nat)
    requires j < |lens|
  {
    exists g :: 0 <= g <= j && lens[g] == 0
  }

  /** Before the first gap a buffer is kept exactly if all up to it are less than `max` bytes. */
  lemma {:induction false} KeptIs(lens: seq<nat>, max: nat, i: nat, j: nat)
    requires i <= j < |lens| && !Gap(lens, j)
    ensures j < KeptBuffers(lens, max, i) <==> Total(lens, j + 1) < max
    decreases |lens| - i
  {
    TotalUp(lens, i + 1, j + 1);
    assert lens[i] > 0;
    if i < j && Total(lens, i + 1) < max {
      KeptIs(lens, max, i + 1, j);
    } else if Total(lens, i + 1) < max {
      assert KeptBuffers(lens, max, i) == KeptBuffers(lens, max, i + 1) > i;
    }
  }

  lemma {:induction false} TotalUp(lens: seq<nat>, i: nat, j: nat)
    requires i <= j <= |lens|
    ensures Total(lens, i) <= Total(lens, j)
  {
    if i < j {
      TotalUp(lens, i, j - 1);
    }
  }

  lemma TrimmedIs(lens: seq<nat>, max: nat)
    ensures forall j | 0 <= j < |lens| ::
      Trimmed(lens, max)[j] == if Gap(lens, j) || Total(lens, j + 1) < max then lens[j] else 0
  {
    forall j | 0 <= j < |lens|
      ensures Trimmed(lens, max)[j] == if Gap(lens, j) || Total(lens, j + 1) < max then lens[j] else 0
    {
      if !Gap(lens, j) {
        KeptIs(lens, max, 0, j);
      }
    }
  }

  /** What is left can be used from its start exactly if the first buffer was below `max`; if not, there is none. */
  lemma TrimmedSound(lens: seq<nat>, bi: nat, low: nat, max: nat)
    requires Sound(lens, bi, low)
    ensures Sound(Trimmed(lens, max), 0, 0) <==> lens[0] < max
    ensures lens[0] >= max ==> Trimmed(lens, max)[0] == 0
  {
    assert Total(lens, 1) == Total(lens, 0) + lens[0];
    assert !Gap(lens, 0);
    assert Trimmed(lens, max)[0] == if KeptBuffers(lens, max, 0) > 0 then lens[0] else 0;
  }

  class Allocator {
    var compIdx: nat
    // The lengths of the buffers; 0 is a buffer not there.
    const buffers: array<nat>

    ghost function Bi(): nat reads this { compIdx / LOW }

    ghost function Low(): nat reads this { compIdx % LOW }

    ghost predicate Valid()
      reads this, buffers
    {
      buffers.Length == BUFFERS && Bi() < BUFFERS && Sound(buffers[..], Bi(), Low())
    }

    constructor (sz: nat)
      requires sz <= 2 * MAX_ALLOC
      ensures Valid() && fresh(buffers) && compIdx == 0
      ensures buffers[0] >= sz && buffers[0] >= 512 && (buffers[0] > 512 ==> buffers[0] / 2 < sz)
      ensures exists k :: buffers[0] == Pow2(k)
      ensures forall i | 1 <= i < BUFFERS :: buffers[i] == 0
    {
      var size, l2 := FirstSize(sz);
      BelowTwice(l2);
      buffers := new nat[BUFFERS](i => 0);
      compIdx := 0;
      new;
      buffers[0] := size;
    }

    method AddBufferAt(from: nat, minSz: nat) returns (ok: bool)
      requires buffers.Length == BUFFERS && 0 < from <= BUFFERS && buffers[from - 1] > 0
      modifies buffers
      ensures var g := Grown(old(buffers[..]), from, minSz);
        ok == g.Some? && buffers[..] == if ok then g.value else old(buffers[..])
      ensures !ok <==> forall k | from <= k < BUFFERS :: 0 < old(buffers[k]) < minSz
      ensures ok ==> exists j: nat :: FirstUsable(old(buffers[..]), from, minSz, j, buffers[..])
    {
      ghost var at := GrownIs(buffers[..], from, minSz);
      var bufIdx := from;
      while true
        invariant 0 < bufIdx <= BUFFERS && buffers[bufIdx - 1] > 0
        invariant Grown(buffers[..], bufIdx, minSz) == Grown(buffers[..], from, minSz)
        decreases BUFFERS - bufIdx
      {
        if bufIdx >= buffers.Length {
          return false;
        }
        if buffers[bufIdx] == 0 {
          break;
        }
        if minSz <= buffers[bufIdx] {
          return true;
        }
        bufIdx := bufIdx + 1;
      }
      var pageSize := 2 * buffers[bufIdx - 1];
      ghost var first := pageSize;
      while pageSize < minSz
        invariant pageSize > 0 && Doubled(pageSize, minSz) == Doubled(first, minSz)
      {
        pageSize := pageSize * 2;
      }
      if pageSize > MAX_ALLOC {
        pageSize := MAX_ALLOC;
      }
      buffers[bufIdx] := pageSize;
      return true;
    }

    /** Requests above the maximum panic; running out of buffers panics too, and leaves the allocator unusable. */
    method Allocate(sz: nat) returns (r: Result)
      requires Valid()
      modifies this, buffers
      ensures sz > MAX_ALLOC ==> r == Panic
      ensures sz == 0 ==> r == Nil
      ensures sz == 0 || sz > MAX_ALLOC ==> compIdx == old(compIdx) && buffers[..] == old(buffers[..])
      ensures 0 < sz <= MAX_ALLOC ==>
        match Placed(old(buffers[..]), old(Bi()), old(Low()), sz)
        case None => r == Panic
        case Some(p) =>
          r == Data(p.buf, p.lo, p.lo + sz) && buffers[..] == p.lens && compIdx == Pack(p.buf, p.lo + sz)
      ensures 0 < sz <= MAX_ALLOC ==>
        (r == Panic <==>
           old(Low()) + sz > old(buffers[Bi()]) && forall k | old(Bi()) < k < BUFFERS :: 0 < old(buffers[k]) < sz)
      ensures r.Data? && old(Low()) + sz <= old(buffers[Bi()]) ==>
        r.buf == old(Bi()) && r.lo == old(Low()) && buffers[..] == old(buffers[..])
      ensures r.Data? && old(Low()) + sz > old(buffers[Bi()]) ==>
        r.lo == 0 && FirstUsable(old(buffers[..]), old(Bi()) + 1, sz, r.buf, buffers[..])
      ensures r != Panic ==> Valid() && Extends(old(buffers[..]), buffers[..])
      ensures r.Data? ==>
        && r.lo < r.hi <= buffers[r.buf] && r.hi - r.lo == sz
        && (r.buf > old(Bi()) || (r.buf == old(Bi()) && r.lo == old(Low())))
        && Bi() == r.buf && Low() == r.hi
    {
      if sz > MAX_ALLOC {
        return Panic;
      }
      if sz == 0 {
        return Nil;
      }
      hide FirstUsable;
      PlacedInside(buffers[..], Bi(), Low(), sz);
      PlacedStep(buffers[..], Bi(), Low(), sz);
      if Low() + sz > buffers[Bi()] {
        PlacedIs(buffers[..], Bi(), Low(), sz);
        if Placed(buffers[..], Bi(), Low(), sz).Some? {
          PlacedNever(buffers[..], Bi(), Low(), sz);
        }
      }
      hide Placed;
      r := Reserve(sz);
    }

    /** With the lock held: no other goroutine can have moved on, so the index is the one just read. */
    method NextBuffer(bufIdx: nat, sz: nat) returns (ok: bool)
      requires buffers.Length == BUFFERS && bufIdx < BUFFERS
      requires forall i | 0 <= i <= bufIdx :: buffers[i] > 0
      requires forall i | 0 <= i < BUFFERS :: buffers[i] < 3 * MAX_ALLOC
      modifies this, buffers
      ensures var g := Grown(old(buffers[..]), bufIdx + 1, sz);
        && ok == g.Some?
        && (ok ==> buffers[..] == g.value && Valid() && Bi() == bufIdx + 1 && Low() == 0)
    {
      hide Grown;
      GrownKeeps(buffers[..], bufIdx + 1, sz);
      ok := AddBufferAt(bufIdx + 1, sz);
      if ok {
        PackParse(bufIdx + 1, 0);
        compIdx := Pack(bufIdx + 1, 0);
      }
    }

    /** Moves the position on and reads where that is. */
    method Bump(sz: nat) returns (bufIdx: nat, posIdx: nat)
      requires Valid() && 0 < sz <= MAX_ALLOC
      modifies `compIdx
      ensures compIdx == Pack(bufIdx, posIdx) && bufIdx == old(Bi()) && posIdx == old(Low()) + sz
    {
      PackParse(Bi(), Low() + sz);
      compIdx := (compIdx + sz) % WORD;
      bufIdx, posIdx := Parse(compIdx).0, Parse(compIdx).1;
    }

    method Reserve(sz: nat) returns (r: Result)
      requires Valid() && 0 < sz <= MAX_ALLOC
      modifies this, buffers
      ensures match Placed(old(buffers[..]), old(Bi()), old(Low()), sz)
        case None => r == Panic
        case Some(p) =>
          r == Data(p.buf, p.lo, p.lo + sz) && buffers[..] == p.lens && compIdx == Pack(p.buf, p.lo + sz)
    {
      hide Placed, Grown, Pack, Extends;
      while true
        invariant Valid()
        invariant Placed(buffers[..], Bi(), Low(), sz) == Placed(old(buffers[..]), old(Bi()), old(Low()), sz)
        decreases BUFFERS - Bi()
      {
        ghost var bi, low := Bi(), Low();
        PlacedStep(buffers[..], bi, low, sz);
        var bufIdx, posIdx := Bump(sz);
        if posIdx > buffers[bufIdx] {
          var ok := NextBuffer(bufIdx, sz);
          if !ok {
            return Panic;
          }
          continue;
        }
        return Data(bufIdx, posIdx - sz, posIdx);
      }
    }

    method Reset()
      modifies `compIdx
      ensures compIdx == 0 && (old(Valid()) ==> Valid())
    {
      compIdx := 0;
    }

    method Size() returns (sz: nat)
      requires Valid()
      ensures sz == Total(buffers[..], Bi()) + Low()
    {
      var (bi, pi) := Parse(compIdx);
      sz := 0;
      for i := 0 to bi
        invariant sz == Total(buffers[..], i)
      {
        sz := sz + buffers[i];
      }
      sz := sz + pi;
    }

    /** Keeps the first buffers, as long as their total is below `max`, and frees all others before a gap. */
    method FreeBehind(max: nat)
      requires buffers.Length == BUFFERS
      modifies buffers
      ensures buffers[..] == Trimmed(old(buffers[..]), max)
    {
      var alloc := 0;
      ghost var lens := buffers[..];
      var i := 0;
      while i < buffers.Length
        invariant i <= BUFFERS
        invariant alloc == Total(lens, i)
        invariant forall j | 0 <= j < i :: lens[j] > 0
        invariant alloc < max || i == 0 ==> KeptBuffers(lens, max, 0) == KeptBuffers(lens, max, i)
        invariant alloc >= max && i > 0 ==> KeptBuffers(lens, max, 0) < i
        invariant forall j | 0 <= j < i :: buffers[j] == if j < KeptBuffers(lens, max, 0) then lens[j] else 0
        invariant forall j | i <= j < BUFFERS :: buffers[j] == lens[j]
      {
        if buffers[i] == 0 {
          break;
        }
        alloc := alloc + buffers[i];
        if alloc < max {
          i := i + 1;
          continue;
        }
        buffers[i] := 0;
        i := i + 1;
      }
      assert forall j | 0 <= j < i :: !Gap(lens, j);
      if i < BUFFERS {
        assert forall j | i <= j < BUFFERS :: Gap(lens, j) by {
          assert lens[i] == 0;
        }
      }
    }

    /** Before the first gap a buffer stays exactly if all up to it are less than `max` bytes. */
    method TrimTo(max: nat)
      requires buffers.Length == BUFFERS
      modifies buffers
      ensures buffers[..] == Trimmed(old(buffers[..]), max)
      ensures forall j | 0 <= j < BUFFERS ::
        buffers[j] == if Gap(old(buffers[..]), j) || Total(old(buffers[..]), j + 1) < max then old(buffers[j]) else 0
    {
      hide Trimmed, Gap, Total;
      ghost var lens := buffers[..];
      TrimmedIs(lens, max);
      FreeBehind(max);
      assert forall j | 0 <= j < BUFFERS :: buffers[j] == Trimmed(lens, max)[j];
    }

    /** As the pool does between two users: the allocator is usable again exactly if its first buffer is below `max`. */
    method Recycle(max: nat)
      requires Valid()
      modifies this, buffers
      ensures Valid() <==> old(buffers[0]) < max
      ensures compIdx == 0 && buffers[..] == Trimmed(old(buffers[..]), max)
      ensures old(buffers[0]) >= max ==> buffers[0] == 0
    {
      TrimmedSound(buffers[..], Bi(), Low(), max);
      TrimTo(max);
      Reset();
    }
  }

  lemma BelowTwice(l2: nat)
    ensures Pow2(l2) > 512 && Pow2(l2) / 2 < 2 * MAX_ALLOC ==> Pow2(l2) < 3 * MAX_ALLOC
  {
    hide Pow2;
    Pow2Of30();
    Pow2Adds(30, 1);
    Pow2Adds(31, 1);
    if l2 >= 32 {
      Pow2Grows(32, l2);
    } else {
      Pow2Grows(l2, 31);
    }
  }

  lemma Pow2Of30()
    ensures Pow2(30) == MAX_ALLOC && Pow2(1) == 2
  {
    hide Pow2;
    Pow2Small();
    Pow2Adds(10, 10);
    Pow2Adds(20, 10);
  }

  lemma PackParse(bufIdx: nat, posIdx: nat)
    requires bufIdx <= BUFFERS && posIdx < LOW
    ensures Pack(bufIdx, posIdx) == bufIdx * LOW + posIdx < WORD && Parse(Pack(bufIdx, posIdx)) == (bufIdx, posIdx)
  {
  }
}
