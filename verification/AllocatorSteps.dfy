/**
 * Goroutines that call Allocate at once, one atomic step at a time. A run is any sequence of
 * steps, so a statement about all runs is one about every interleaving.
 */
module AllocatorSteps {
  import opened Allocator
  import opened Collections
  import opened Powers

  /** Where a goroutine is inside Allocate, with what it has read so far. */
  datatype Pc =
    | Idle
    | Adding(sz: nat)
    | Checking(sz: nat, pos: nat)
    | WantLock(sz: nat, bufIdx: nat)
    | Locked(sz: nat, bufIdx: nat)
    | Growing(sz: nat, bufIdx: nat)
    | Storing(sz: nat, bufIdx: nat)
    | Unlocking(sz: nat)
    | Refused      // asked for more than the maximum
    | OutOfBuffers // panicked while growing, with the lock held
    | Crashed      // an index or a slice out of range, or a loop without end

  /** Bytes [lo, hi) of a buffer. */
  datatype Range = Range(buf: nat, lo: nat, hi: nat)

  datatype State = State(comp: nat, lens: seq<nat>, lock: Option<nat>, pc: seq<Pc>, granted: seq<Range>)

  /** Goroutine `t` takes its next step, asking for `sz` bytes if it is idle; or all start afresh. */
  datatype Action = Go(t: nat, sz: nat) | ResetAll

  function Bi(s: State): nat { s.comp / LOW }

  function Low(s: State): nat { s.comp % LOW }

  function Moved(s: State, t: nat, pc: Pc): State
    requires t < |s.pc|
  {
    s.(pc := s.pc[t := pc])
  }

  /** Reads the buffer that the reservation names and cuts the slice out of it. */
  function Check(s: State, t: nat): State
    requires t < |s.pc| && s.pc[t].Checking?
  {
    var (b, p) := (s.pc[t].pos / LOW, s.pc[t].pos % LOW);
    var z := s.pc[t].sz;
    if b >= |s.lens| then Moved(s, t, Crashed)
    else if p > s.lens[b] then Moved(s, t, WantLock(z, b))
    else if p < z then Moved(s, t, Crashed)
    else Moved(s, t, Idle).(granted := s.granted + [Range(b, p - z, p)])
  }

  function Grow(s: State, t: nat): State
    requires t < |s.pc| && s.pc[t].Growing?
  {
    var Growing(z, b) := s.pc[t];
    if b + 1 < |s.lens| && s.lens[b] == 0 && s.lens[b + 1] == 0 then Moved(s, t, Crashed)
    else
      match Grown(s.lens, b + 1, z)
      case None => Moved(s, t, OutOfBuffers)
      case Some(l) => Moved(s, t, Storing(z, b)).(lens := l)
  }

  function StepOf(s: State, t: nat, sz: nat): State
    requires t < |s.pc|
  {
    match s.pc[t]
    case Idle =>
      if sz > MAX_ALLOC then Moved(s, t, Refused)
      else if sz == 0 then s
      else Moved(s, t, Adding(sz))
    case Adding(z) => Moved(s, t, Checking(z, (s.comp + z) % WORD)).(comp := (s.comp + z) % WORD)
    case Checking(_, _) => Check(s, t)
    case WantLock(z, b) => if s.lock.None? then Moved(s, t, Locked(z, b)).(lock := Some(t)) else s
    case Locked(z, b) => if Bi(s) != b then Moved(s, t, Unlocking(z)) else Moved(s, t, Growing(z, b))
    case Growing(_, _) => Grow(s, t)
    case Storing(z, b) => Moved(s, t, Unlocking(z)).(comp := Pack(b + 1, 0) % WORD)
    case Unlocking(z) => Moved(s, t, Adding(z)).(lock := None)
    case _ => s
  }

  predicate Quiet(s: State) {
    forall t | 0 <= t < |s.pc| :: s.pc[t].Idle?
  }

  /** An action that is not enabled leaves the state as it is. */
  function Step(s: State, a: Action): State {
    match a
    case Go(t, sz) => if t < |s.pc| then StepOf(s, t, sz) else s
    case ResetAll => if Quiet(s) then s.(comp := 0, granted := []) else s
  }

  function Run(s: State, acts: seq<Action>): State
    decreases |acts|
  {
    if acts == [] then s else Run(Step(s, acts[0]), acts[1..])
  }

  // ---- What every step keeps ----

  /** The bytes a goroutine has reserved but not returned yet. */
  ghost predicate Pending(s: State, t: nat, r: Range) {
    t < |s.pc| && s.pc[t].Checking? && s.pc[t].pos % LOW >= s.pc[t].sz &&
    r == Range(s.pc[t].pos / LOW, s.pc[t].pos % LOW - s.pc[t].sz, s.pc[t].pos % LOW)
  }

  predicate Apart(r: Range, q: Range) {
    r.buf != q.buf || r.hi <= q.lo || q.hi <= r.lo
  }

  predicate Within(lens: seq<nat>, r: Range) {
    r.buf < |lens| && r.lo <= r.hi <= lens[r.buf]
  }

  /** Nonempty, and behind the place where the next reservation starts. */
  predicate Behind(s: State, r: Range) {
    r.lo < r.hi && (r.buf < Bi(s) || (r.buf == Bi(s) && r.hi <= Low(s)))
  }

  ghost predicate Separate(s: State) {
    && (forall i | 0 <= i < |s.granted| :: Behind(s, s.granted[i]) && Within(s.lens, s.granted[i]))
    && (forall t, r | Pending(s, t, r) :: Behind(s, r))
    && (forall i, j | 0 <= i < j < |s.granted| :: Apart(s.granted[i], s.granted[j]))
    && (forall i, t, r | 0 <= i < |s.granted| && Pending(s, t, r) :: Apart(s.granted[i], r))
    && (forall t, r, u, q | Pending(s, t, r) && Pending(s, u, q) && t != u :: Apart(r, q))
  }

  predicate Holds(p: Pc) {
    p.Locked? || p.Growing? || p.Storing? || p.Unlocking? || p.OutOfBuffers?
  }

  predicate AtMostHere(s: State, p: Pc) {
    match p
    case Idle => true
    case Adding(z) => 0 < z <= MAX_ALLOC
    case Checking(z, pos) => 0 < z <= MAX_ALLOC && z <= pos % LOW && pos / LOW <= Bi(s)
    case WantLock(z, b) => 0 < z <= MAX_ALLOC && b <= Bi(s)
    case Locked(z, b) => 0 < z <= MAX_ALLOC && b <= Bi(s)
    case Growing(z, b) => 0 < z <= MAX_ALLOC && b == Bi(s)
    case Storing(z, b) => 0 < z <= MAX_ALLOC && b == Bi(s) && b + 1 < |s.lens| && s.lens[b + 1] > 0
    case Unlocking(z) => 0 < z <= MAX_ALLOC
    case Refused => true
    case OutOfBuffers => true
    case Crashed => false
  }

  ghost predicate Shape(s: State) {
    && s.comp < WORD && |s.lens| == BUFFERS && Bi(s) < BUFFERS
    && (forall i | 0 <= i <= Bi(s) :: s.lens[i] > 0)
    && (forall t | 0 <= t < |s.pc| :: AtMostHere(s, s.pc[t]) && (Holds(s.pc[t]) ==> s.lock == Some(t)))
  }

  ghost predicate Inv(s: State) {
    Shape(s) && Separate(s)
  }

  /** The next reservation does not carry into the buffer index. */
  predicate NoCarry(s: State, a: Action) {
    a.Go? && a.t < |s.pc| && s.pc[a.t].Adding? ==> Low(s) + s.pc[a.t].sz < LOW
  }

  /** A step of one goroutine that reserves nothing and returns nothing. */
  ghost predicate Quietly(s: State, s': State, t: nat) {
    && t < |s.pc| && |s'.pc| == |s.pc| && s'.granted == s.granted && !s'.pc[t].Checking?
    && (forall u | 0 <= u < |s.pc| && u != t :: s'.pc[u] == s.pc[u])
    && Extends(s.lens, s'.lens)
    && (Bi(s') > Bi(s) || (Bi(s') == Bi(s) && Low(s') >= Low(s)))
  }

  lemma QuietlySeparate(s: State, s': State, t: nat)
    requires Inv(s) && Quietly(s, s', t)
    ensures Separate(s')
  {
    hide Shape, Apart;
    assert forall u, r | Pending(s', u, r) :: Pending(s, u, r);
    assert forall i | 0 <= i < |s.granted| :: Within(s'.lens, s.granted[i]) by {
      assert Shape(s);
      GrantedWithin(s, s');
    }
  }

  lemma GrantedWithin(s: State, s': State)
    requires Separate(s) && Extends(s.lens, s'.lens)
    ensures forall i | 0 <= i < |s.granted| :: Within(s'.lens, s.granted[i])
  {
  }

  lemma QuietlyShape(s: State, s': State, t: nat)
    requires Inv(s) && Quietly(s, s', t) && s'.comp < WORD && Bi(s') < BUFFERS
    requires forall i | 0 <= i <= Bi(s') :: s'.lens[i] > 0
    requires AtMostHere(s', s'.pc[t]) && (Holds(s'.pc[t]) ==> s'.lock == Some(t))
    requires s'.lock == s.lock || s.lock == None || s.lock == Some(t)
    requires Bi(s') > Bi(s) ==> s.lock == Some(t)
    ensures Shape(s')
  {
    hide Separate;
    forall u | 0 <= u < |s'.pc|
      ensures AtMostHere(s', s'.pc[u]) && (Holds(s'.pc[u]) ==> s'.lock == Some(u))
    {
      if u != t {
        assert AtMostHere(s, s.pc[u]) && (Holds(s.pc[u]) ==> s.lock == Some(u));
      }
    }
  }

  lemma QuietlyInv(s: State, s': State, t: nat)
    requires Inv(s) && Quietly(s, s', t) && s'.comp < WORD && Bi(s') < BUFFERS
    requires forall i | 0 <= i <= Bi(s') :: s'.lens[i] > 0
    requires AtMostHere(s', s'.pc[t]) && (Holds(s'.pc[t]) ==> s'.lock == Some(t))
    requires s'.lock == s.lock || s.lock == None || s.lock == Some(t)
    requires Bi(s') > Bi(s) ==> s.lock == Some(t)
    ensures Inv(s')
  {
    hide Shape, Separate;
    QuietlySeparate(s, s', t);
    QuietlyShape(s, s', t);
  }

  lemma GrowKeeps(s: State, t: nat)
    requires Inv(s) && t < |s.pc| && s.pc[t].Growing?
    ensures Inv(Grow(s, t))
  {
    hide Separate;
    var Growing(z, b) := s.pc[t];
    assert AtMostHere(s, s.pc[t]) && Holds(s.pc[t]);
    GrownKeeps(s.lens, b + 1, z);
    QuietlyInv(s, Grow(s, t), t);
  }

  lemma StoreKeeps(s: State, t: nat)
    requires Inv(s) && t < |s.pc| && s.pc[t].Storing?
    ensures Inv(StepOf(s, t, 0))
  {
    hide Separate;
    var Storing(z, b) := s.pc[t];
    assert AtMostHere(s, s.pc[t]) && Holds(s.pc[t]);
    PackParse(b + 1, 0);
    QuietlyInv(s, StepOf(s, t, 0), t);
  }

  lemma AddStep(s: State, t: nat)
    requires Inv(s) && t < |s.pc| && s.pc[t].Adding? && Low(s) + s.pc[t].sz < LOW
    ensures var s' := StepOf(s, t, 0);
      && s'.lens == s.lens && s'.pc == s.pc[t := Checking(s.pc[t].sz, s'.comp)]
      && Bi(s') == Bi(s) < |s.lens| && Low(s') == Low(s) + s.pc[t].sz && s'.comp < WORD
  {
    hide Separate;
    PackParse(Bi(s), Low(s) + s.pc[t].sz);
  }

  lemma AddKeeps(s: State, t: nat)
    requires Inv(s) && t < |s.pc| && s.pc[t].Adding? && Low(s) + s.pc[t].sz < LOW
    ensures Inv(StepOf(s, t, 0))
  {
    var z := s.pc[t].sz;
    var s' := StepOf(s, t, 0);
    assert AtMostHere(s, s.pc[t]);
    hide Shape, Separate;
    AddStep(s, t);
    hide Bi, Low;
    AddSeparate(s, s', t, z);
    AddShape(s, s', t, z);
  }

  lemma AddShape(s: State, s': State, t: nat, z: nat)
    requires Shape(s) && t < |s.pc| && 0 < z <= MAX_ALLOC && s' == Moved(s, t, Checking(z, s'.comp)).(comp := s'.comp)
    requires Bi(s') == Bi(s) && Low(s') == Low(s) + z && s'.comp < WORD && !Holds(s.pc[t])
    ensures Shape(s')
  {
    forall u | 0 <= u < |s'.pc|
      ensures AtMostHere(s', s'.pc[u]) && (Holds(s'.pc[u]) ==> s'.lock == Some(u))
    {
      if u != t {
        assert AtMostHere(s, s.pc[u]) && (Holds(s.pc[u]) ==> s.lock == Some(u));
      }
    }
  }

  lemma AddSeparate(s: State, s': State, t: nat, z: nat)
    requires Inv(s) && t < |s.pc| && z > 0 && s'.pc == s.pc[t := Checking(z, s'.comp)]
    requires s'.granted == s.granted && s'.lens == s.lens && Bi(s') == Bi(s) && Low(s') == Low(s) + z
    ensures Separate(s')
  {
    hide Shape;
    forall u, r | Pending(s', u, r)
      ensures Behind(s', r)
      ensures if u == t then r == Range(Bi(s), Low(s), Low(s) + z) else Pending(s, u, r)
    {
      if u != t {
        assert Pending(s, u, r);
        assert Behind(s, r);
      }
    }
  }

  lemma CheckKeeps(s: State, t: nat)
    requires Inv(s) && t < |s.pc| && s.pc[t].Checking?
    ensures Inv(Check(s, t))
  {
    hide Separate;
    var Checking(z, pos) := s.pc[t];
    assert AtMostHere(s, s.pc[t]);
    var s' := Check(s, t);
    if s'.granted == s.granted {
      QuietlyInv(s, s', t);
    } else {
      var r := Range(pos / LOW, pos % LOW - z, pos % LOW);
      assert Pending(s, t, r);
      ReturnSeparate(s, s', t, r);
    }
  }

  lemma ReturnSeparate(s: State, s': State, t: nat, r: Range)
    requires Inv(s) && Pending(s, t, r) && Within(s.lens, r)
    requires s' == Moved(s, t, Idle).(granted := s.granted + [r])
    ensures Separate(s')
  {
    hide Shape, Apart;
    assert forall u, q | Pending(s', u, q) :: u != t && Pending(s, u, q);
    assert forall i | 0 <= i < |s.granted| :: s'.granted[i] == s.granted[i];
  }

  lemma OtherKeeps(s: State, t: nat, sz: nat)
    requires Inv(s) && t < |s.pc| && (s.pc[t].Idle? || s.pc[t].WantLock? || s.pc[t].Locked? || s.pc[t].Unlocking?)
    ensures Inv(StepOf(s, t, sz))
  {
    hide Separate;
    assert AtMostHere(s, s.pc[t]);
    if StepOf(s, t, sz) != s {
      QuietlyInv(s, StepOf(s, t, sz), t);
    }
  }

  lemma ResetKeeps(s: State)
    requires Inv(s) && Quiet(s)
    ensures Inv(Step(s, ResetAll))
  {
  }

  /** Every step keeps the invariant, as long as no reservation carries. */
  lemma StepKeeps(s: State, a: Action)
    requires Inv(s) && NoCarry(s, a)
    ensures Inv(Step(s, a))
  {
    hide Inv, Check, Grow;
    if a.ResetAll? {
      if Quiet(s) {
        ResetKeeps(s);
      }
    } else if a.t < |s.pc| {
      match s.pc[a.t]
      case Adding(_) => AddKeeps(s, a.t);
      case Checking(_, _) => CheckKeeps(s, a.t);
      case Growing(_, _) => GrowKeeps(s, a.t);
      case Storing(_, _) => StoreKeeps(s, a.t);
      case Refused =>
      case OutOfBuffers =>
      case Crashed =>
      case _ => OtherKeeps(s, a.t, a.sz);
    }
  }

  // ---- No carry ----

  /** A goroutine whose reservation at the current buffer did not fit, and that has not given up on it yet. */
  predicate Failed(s: State, p: Pc) {
    match p
    case Checking(z, pos) => pos / LOW == Bi(s) && pos / LOW < |s.lens| && pos % LOW > s.lens[pos / LOW]
    case WantLock(_, b) => b == Bi(s)
    case Locked(_, b) => b == Bi(s)
    case Growing(_, b) => b == Bi(s)
    case Storing(_, b) => b == Bi(s)
    case OutOfBuffers => true
    case _ => false
  }

  ghost function FailedSet(s: State): (f: set<nat>)
    ensures |f| <= |s.pc|
  {
    var f := set t: nat | t < |s.pc| && Failed(s, s.pc[t]);
    SetBelow(f, |s.pc|);
    f
  }

  lemma {:induction false} SetBelow(f: set<nat>, n: nat)
    requires forall t | t in f :: t < n
    ensures |f| <= n
  {
    if n == 0 {
      assert f == {};
    } else {
      SetBelow(f - {n - 1}, n - 1);
    }
  }

  predicate SmallRequest(p: Pc, most: nat) {
    match p
    case Adding(z) => z <= most
    case Checking(z, _) => z <= most
    case WantLock(z, _) => z <= most
    case Locked(z, _) => z <= most
    case Growing(z, _) => z <= most
    case Storing(z, _) => z <= most
    case Unlocking(z) => z <= most
    case _ => true
  }

  /** The low half is at most a buffer and one failed request a goroutine. */
  ghost predicate Bounded(s: State, largest: nat, most: nat) {
    && (forall i | 0 <= i < |s.lens| :: s.lens[i] <= largest)
    && (forall t | 0 <= t < |s.pc| :: SmallRequest(s.pc[t], most))
    && Low(s) <= largest + most * |FailedSet(s)|
    && (Low(s) <= (if Bi(s) < |s.lens| then s.lens[Bi(s)] else 0) ==> FailedSet(s) == {})
  }

  lemma BoundedNoCarry(s: State, a: Action, largest: nat, most: nat)
    requires Bounded(s, largest, most) && largest + most * |s.pc| < LOW
    ensures NoCarry(s, a)
  {
    if a.Go? && a.t < |s.pc| && s.pc[a.t].Adding? {
      hide FailedSet;
      AnotherFailed(s, a.t);
      assert SmallRequest(s.pc[a.t], most);
      Room(Low(s), s.pc[a.t].sz, largest, most, |FailedSet(s)|, |s.pc|);
    }
  }

  lemma AnotherFailed(s: State, t: nat)
    requires t < |s.pc| && s.pc[t].Adding?
    ensures |FailedSet(s)| + 1 <= |s.pc|
  {
    var f := FailedSet(s);
    assert t !in f;
    SetBelow(f + {t}, |s.pc|);
  }

  lemma Room(low: nat, z: nat, largest: nat, most: nat, m: nat, n: nat)
    requires low <= largest + most * m && z <= most && m + 1 <= n && largest + most * n < LOW
    ensures low + z < LOW
  {
    Times(most, m + 1, n);
    assert most * (m + 1) == most * m + most;
  }

  lemma Times(k: nat, m: nat, n: nat)
    requires m <= n
    ensures k * m <= k * n
  {
    assert k * n == k * m + k * (n - m);
  }

  /** A step that leaves the same goroutines failed at the same place. */
  lemma SameFailed(s: State, s': State, largest: nat, most: nat)
    requires Bounded(s, largest, most) && s'.comp == s.comp && |s'.pc| == |s.pc| && |s'.lens| == |s.lens|
    requires Bi(s) < |s.lens| && s'.lens[Bi(s)] == s.lens[Bi(s)]
    requires forall i | 0 <= i < |s'.lens| :: s'.lens[i] <= largest
    requires forall t | 0 <= t < |s.pc| :: Failed(s', s'.pc[t]) == Failed(s, s.pc[t]) && SmallRequest(s'.pc[t], most)
    ensures Bounded(s', largest, most)
  {
    assert FailedSet(s') == FailedSet(s);
  }

  /** No step but a reservation and a store changes which requests have failed, or the current buffer. */
  lemma OtherStep(s: State, t: nat, sz: nat, largest: nat, most: nat)
    requires Inv(s) && t < |s.pc| && !s.pc[t].Adding? && !s.pc[t].Storing? && sz <= most && SmallRequest(s.pc[t], most)
    requires MAX_ALLOC <= largest && forall i | 0 <= i < |s.lens| :: s.lens[i] <= largest
    ensures var s' := StepOf(s, t, sz);
      && s'.comp == s.comp && s'.pc == s.pc[t := s'.pc[t]] && |s'.lens| == |s.lens| == BUFFERS
      && Bi(s) < |s.lens| && s'.lens[Bi(s)] == s.lens[Bi(s)]
      && (forall i | 0 <= i < |s'.lens| :: s'.lens[i] <= largest)
      && SmallRequest(s'.pc[t], most) && Failed(s', s'.pc[t]) == Failed(s, s.pc[t])
  {
    hide Separate, Grown;
    assert AtMostHere(s, s.pc[t]);
    if s.pc[t].Growing? {
      GrownKeeps(s.lens, s.pc[t].bufIdx + 1, s.pc[t].sz);
    }
  }

  lemma OtherBound(s: State, a: Action, largest: nat, most: nat)
    requires Inv(s) && Bounded(s, largest, most) && MAX_ALLOC <= largest
    requires a.Go? && a.sz <= most && a.t < |s.pc| && !s.pc[a.t].Adding? && !s.pc[a.t].Storing?
    ensures Bounded(Step(s, a), largest, most)
  {
    hide Bounded, Inv, StepOf, SmallRequest, Failed;
    var t, s' := a.t, Step(s, a);
    BoundedParts(s, largest, most);
    OtherStep(s, t, a.sz, largest, most);
    forall u | 0 <= u < |s.pc| && u != t
      ensures Failed(s', s'.pc[u]) == Failed(s, s.pc[u]) && SmallRequest(s'.pc[u], most)
    {
      assert s'.pc[u] == s.pc[u];
      FailedAlike(s, s', s.pc[u]);
    }
    SameFailed(s, s', largest, most);
  }

  lemma FailedAlike(s: State, s': State, p: Pc)
    requires s'.comp == s.comp && |s'.lens| == |s.lens| && Bi(s) < |s.lens| && s'.lens[Bi(s)] == s.lens[Bi(s)]
    ensures Failed(s', p) == Failed(s, p)
  {
  }

  lemma BoundedParts(s: State, largest: nat, most: nat)
    requires Bounded(s, largest, most)
    ensures forall i | 0 <= i < |s.lens| :: s.lens[i] <= largest
    ensures forall t | 0 <= t < |s.pc| :: SmallRequest(s.pc[t], most)
  {
  }

  /** What a reservation that does not carry changes. */
  lemma AddBound(s: State, t: nat, largest: nat, most: nat)
    requires Inv(s) && Bounded(s, largest, most) && t < |s.pc| && s.pc[t].Adding? && Low(s) + s.pc[t].sz < LOW
    ensures Bounded(StepOf(s, t, 0), largest, most)
  {
    hide Inv, Bounded, FailedSet, StepOf, Failed;
    AddStep(s, t);
    AddFailed(s, StepOf(s, t, 0), t);
    AddCount(s, StepOf(s, t, 0), t, largest, most);
  }

  /** One more reservation of at most `most` bytes is one more failed request, or it fits. */
  lemma AddCount(s: State, s': State, t: nat, largest: nat, most: nat)
    requires Bounded(s, largest, most) && t < |s.pc| && s.pc[t].Adding?
    requires s'.lens == s.lens && s'.pc == s.pc[t := Checking(s.pc[t].sz, s'.comp)]
    requires Bi(s') == Bi(s) < |s.lens| && Low(s') == Low(s) + s.pc[t].sz
    requires FailedSet(s') == if Low(s') > s.lens[Bi(s)] then FailedSet(s) + {t} else FailedSet(s)
    requires t !in FailedSet(s)
    ensures Bounded(s', largest, most)
  {
    hide FailedSet, Low, Bi;
    assert SmallRequest(s.pc[t], most);
    forall u | 0 <= u < |s'.pc|
      ensures SmallRequest(s'.pc[u], most)
    {
      assert SmallRequest(s.pc[u], most);
    }
    var n := |FailedSet(s)|;
    if Low(s') > s.lens[Bi(s)] {
      assert |FailedSet(s')| == n + 1;
      assert most * (n + 1) == most * n + most;
    } else {
      assert FailedSet(s) == {};
      Times(most, 0, n);
    }
  }

  lemma AddFailed(s: State, s': State, t: nat)
    requires t < |s.pc| && s.pc[t].Adding? && s'.pc == s.pc[t := Checking(s.pc[t].sz, s'.comp)]
    requires s'.lens == s.lens && Bi(s') == Bi(s) < |s.lens|
    ensures FailedSet(s') == if Low(s') > s.lens[Bi(s)] then FailedSet(s) + {t} else FailedSet(s)
    ensures t !in FailedSet(s)
  {
    forall u: nat | u < |s.pc| && u != t
      ensures Failed(s', s'.pc[u]) == Failed(s, s.pc[u])
    {
      assert s'.pc[u] == s.pc[u];
    }
    assert Failed(s', s'.pc[t]) <==> Low(s') > s.lens[Bi(s)];
  }

  lemma StoreBound(s: State, t: nat, largest: nat, most: nat)
    requires Inv(s) && Bounded(s, largest, most) && t < |s.pc| && s.pc[t].Storing?
    ensures Bounded(StepOf(s, t, 0), largest, most)
  {
    hide Separate, FailedSet;
    var s' := StepOf(s, t, 0);
    assert AtMostHere(s, s.pc[t]) && Holds(s.pc[t]);
    PackParse(s.pc[t].bufIdx + 1, 0);
    assert Bi(s') == Bi(s) + 1 && Low(s') == 0;
    forall u: nat | u < |s.pc|
      ensures !Failed(s', s'.pc[u]) && SmallRequest(s'.pc[u], most)
    {
      assert AtMostHere(s, s.pc[u]) && (Holds(s.pc[u]) ==> u == t) && SmallRequest(s.pc[u], most);
      assert u != t ==> s'.pc[u] == s.pc[u];
    }
    NoneFailed(s');
    Times(most, 0, |FailedSet(s')|);
  }

  lemma NoneFailed(s: State)
    requires forall u: nat | u < |s.pc| :: !Failed(s, s.pc[u])
    ensures FailedSet(s) == {}
  {
  }

  /** A step keeps the bound if what it asks for is at most `most`. */
  lemma StepKeepsBound(s: State, a: Action, largest: nat, most: nat)
    requires Inv(s) && NoCarry(s, a) && Bounded(s, largest, most)
    requires MAX_ALLOC <= largest && (a.Go? ==> a.sz <= most)
    ensures Bounded(Step(s, a), largest, most)
  {
    if a.Go? && a.t < |s.pc| {
      var t, s' := a.t, Step(s, a);
      assert AtMostHere(s, s.pc[t]) && SmallRequest(s.pc[t], most);
      if s.pc[t].Adding? {
        AddBound(s, t, largest, most);
      } else if s.pc[t].Storing? {
        StoreBound(s, t, largest, most);
      } else {
        OtherBound(s, a, largest, most);
      }
    } else if a.ResetAll? && Quiet(s) {
      assert FailedSet(Step(s, a)) == {};
    }
  }

  // ---- All interleavings ----

  /** All goroutines idle, nothing handed out, and the first buffer in place. */
  ghost predicate Start(s: State, largest: nat) {
    && s.comp == 0 && s.granted == [] && s.lock == None && Quiet(s) && |s.lens| == BUFFERS && s.lens[0] > 0
    && forall i | 0 <= i < BUFFERS :: s.lens[i] <= largest
  }

  /** No request of the run is for more than `most` bytes. */
  predicate Asks(acts: seq<Action>, most: nat) {
    forall k | 0 <= k < |acts| && acts[k].Go? :: acts[k].sz <= most
  }

  /** What was handed out lies inside its buffers and does not overlap, and nobody has crashed. */
  predicate Safe(s: State) {
    && (forall i | 0 <= i < |s.granted| :: Within(s.lens, s.granted[i]) && s.granted[i].lo < s.granted[i].hi)
    && (forall i, j | 0 <= i < j < |s.granted| :: Apart(s.granted[i], s.granted[j]))
    && (forall t | 0 <= t < |s.pc| :: !s.pc[t].Crashed?)
  }

  lemma InvSafe(s: State)
    requires Inv(s)
    ensures Safe(s)
  {
    forall t | 0 <= t < |s.pc|
      ensures !s.pc[t].Crashed?
    {
      assert AtMostHere(s, s.pc[t]);
    }
  }

  lemma StartInv(s: State, largest: nat)
    requires Start(s, largest)
    ensures Inv(s)
  {
  }

  lemma {:induction false} RunKeeps(s: State, acts: seq<Action>, largest: nat, most: nat)
    requires Inv(s) && Bounded(s, largest, most)
    requires MAX_ALLOC <= largest && largest + most * |s.pc| < LOW && Asks(acts, most)
    ensures Inv(Run(s, acts)) && Bounded(Run(s, acts), largest, most)
    decreases |acts|
  {
    hide Inv, Bounded, StepOf;
    if acts != [] {
      var a := acts[0];
      BoundedNoCarry(s, a, largest, most);
      StepKeeps(s, a);
      StepKeepsBound(s, a, largest, most);
      SameGoroutines(s, a);
      RunKeeps(Step(s, a), acts[1..], largest, most);
    }
  }

  lemma SameGoroutines(s: State, a: Action)
    ensures |Step(s, a).pc| == |s.pc|
  {
  }

  /**
   * With at most `most` bytes a request and room for one failed request of every goroutine above
   * the largest buffer, every interleaving is safe.
   */
  lemma AllRunsSafe(s: State, acts: seq<Action>, largest: nat, most: nat)
    requires Start(s, largest) && MAX_ALLOC <= largest && largest + most * |s.pc| < LOW && Asks(acts, most)
    ensures Safe(Run(s, acts))
  {
    hide Run, Safe, Inv;
    StartInv(s, largest);
    NoneFailed(s);
    Times(most, 0, |s.pc|);
    assert Bounded(s, largest, most) by { StartBounded(s, largest, most); }
    RunKeeps(s, acts, largest, most);
    InvSafe(Run(s, acts));
  }

  lemma StartBounded(s: State, largest: nat, most: nat)
    requires Start(s, largest)
    ensures Bounded(s, largest, most)
  {
    NoneFailed(s);
  }

  // ---- Runs in which no reservation carries ----

  /** No step of the run carries. */
  ghost predicate NeverCarries(s: State, acts: seq<Action>)
    decreases |acts|
  {
    acts == [] || (NoCarry(s, acts[0]) && NeverCarries(Step(s, acts[0]), acts[1..]))
  }

  lemma {:induction false} CarryFreeKeeps(s: State, acts: seq<Action>)
    requires Inv(s) && NeverCarries(s, acts)
    ensures Inv(Run(s, acts))
    decreases |acts|
  {
    hide Inv, Step, NoCarry;
    if acts != [] {
      StepKeeps(s, acts[0]);
      CarryFreeKeeps(Step(s, acts[0]), acts[1..]);
    }
  }

  /** Every interleaving in which the low half never carries is safe, whatever is asked for. */
  lemma CarryFreeSafe(s: State, acts: seq<Action>, largest: nat)
    requires Start(s, largest) && NeverCarries(s, acts)
    ensures Safe(Run(s, acts))
  {
    hide Run, Safe, Inv, NeverCarries;
    StartInv(s, largest);
    CarryFreeKeeps(s, acts);
    InvSafe(Run(s, acts));
  }

  /** Between resets the buffer index never goes back and what was handed out stays so. */
  lemma IndexNeverBack(s: State, a: Action)
    requires Inv(s) && NoCarry(s, a) && a.Go?
    ensures Bi(Step(s, a)) >= Bi(s) && s.granted <= Step(s, a).granted
  {
    hide Separate;
    if a.t < |s.pc| {
      assert AtMostHere(s, s.pc[a.t]);
      if s.pc[a.t].Adding? {
        PackParse(Bi(s), Low(s) + s.pc[a.t].sz);
      } else if s.pc[a.t].Storing? {
        PackParse(Bi(s) + 1, 0);
      }
    }
  }

  /** So it is over whole runs between resets: the index grows and no range that was handed out is lost. */
  lemma {:induction false} IndexNeverBackInRuns(s: State, acts: seq<Action>)
    requires Inv(s) && NeverCarries(s, acts) && forall k | 0 <= k < |acts| :: acts[k].Go?
    ensures Bi(Run(s, acts)) >= Bi(s) && s.granted <= Run(s, acts).granted
    decreases |acts|
  {
    hide Inv, Step, NoCarry;
    if acts != [] {
      IndexNeverBack(s, acts[0]);
      StepKeeps(s, acts[0]);
      IndexNeverBackInRuns(Step(s, acts[0]), acts[1..]);
    }
  }

  /**
   * Overwriting the packed word drops only reservations that failed: the buffer was used up, and
   * every reservation inside it is still pending afterwards.
   */
  lemma StoreDropsOnlyFailed(s: State, t: nat, largest: nat, most: nat)
    requires Inv(s) && Bounded(s, largest, most) && t < |s.pc| && s.pc[t].Storing?
    ensures var s' := StepOf(s, t, 0);
      && Low(s) > s.lens[Bi(s)] && s'.granted == s.granted
      && forall u, r | Pending(s, u, r) :: Pending(s', u, r)
  {
    hide Separate;
    assert AtMostHere(s, s.pc[t]);
    assert t in FailedSet(s);
  }

  lemma {:induction false} RunThen(s: State, acts: seq<Action>, a: Action)
    ensures Run(s, acts + [a]) == Step(Run(s, acts), a)
    decreases |acts|
  {
    if acts == [] {
      assert (acts + [a])[1..] == [];
    } else {
      RunThen(Step(s, acts[0]), acts[1..], a);
      assert (acts + [a])[1..] == acts[1..] + [a];
    }
  }

  // ---- Beyond the bound ----

  /** One more step of a run that asks for at most `most`. */
  lemma Then(s: State, acts: seq<Action>, a: Action, most: nat) returns (more: seq<Action>)
    requires Asks(acts, most) && a.Go? && a.sz <= most
    ensures more == acts + [a] && Run(s, more) == Step(Run(s, acts), a) && Asks(more, most)
  {
    more := acts + [a];
    RunThen(s, acts, a);
  }

  /** A goroutine that is idle asks for `sz` bytes and reserves them; nothing else changes. */
  lemma Reserves(s: State, acts: seq<Action>, t: nat, sz: nat, most: nat) returns (more: seq<Action>)
    requires Asks(acts, most) && 0 < sz <= most && sz <= MAX_ALLOC
    requires var e := Run(s, acts); t < |e.pc| && e.pc[t].Idle? && e.comp + sz < WORD
    ensures Asks(more, most)
    ensures var e := Run(s, acts);
      Run(s, more) == Moved(e, t, Checking(sz, e.comp + sz)).(comp := e.comp + sz)
  {
    hide Run;
    var e := Run(s, acts);
    more := Then(s, acts, Go(t, sz), most);
    more := Then(s, more, Go(t, 0), most);
    assert e.pc[t := Adding(sz)][t := Checking(sz, e.comp + sz)] == e.pc[t := Checking(sz, e.comp + sz)];
  }

  /**
   * Buffer `b`, of `len` bytes, is the last one there, `low` bytes of it are reserved, nobody
   * holds the lock, and from `t` on all goroutines are idle.
   */
  ghost predicate Filling(s: State, b: nat, len: nat, n: nat, low: nat, t: nat) {
    && b + 2 < BUFFERS && low < LOW && s.comp == Pack(b, low)
    && |s.lens| == BUFFERS && s.lens[b] == len > 0 && (forall i | b < i < BUFFERS :: s.lens[i] == 0)
    && s.lock == None && |s.pc| == n && forall u | t <= u < n :: s.pc[u].Idle?
  }

  /** A request that fits is granted. */
  lemma Fits(s: State, begun: seq<Action>, b: nat, len: nat, n: nat, low: nat, sz: nat, most: nat)
      returns (acts: seq<Action>)
    requires Asks(begun, most) && Filling(Run(s, begun), b, len, n, low, 0) && n > 0
    requires 0 < sz <= most && sz <= MAX_ALLOC && low + sz <= len && low + sz < LOW
    ensures Asks(acts, most) && Filling(Run(s, acts), b, len, n, low + sz, 0)
  {
    hide Run;
    PackParse(b, low);
    PackParse(b, low + sz);
    acts := Reserves(s, begun, 0, sz, most);
    acts := Then(s, acts, Go(0, 0), most);
  }

  /** The first goroutine fills the buffer up to `level`. */
  lemma Fill(s: State, begun: seq<Action>, b: nat, len: nat, n: nat, low: nat, level: nat, most: nat)
      returns (acts: seq<Action>)
    requires Asks(begun, most) && Filling(Run(s, begun), b, len, n, low, 0) && n > 0
    requires 0 < most <= MAX_ALLOC && low <= level <= len && level < LOW
    ensures Asks(acts, most) && Filling(Run(s, acts), b, len, n, level, 0)
  {
    hide Run, Filling;
    acts := begun;
    var c := low;
    while c < level
      invariant c <= level && Asks(acts, most) && Filling(Run(s, acts), b, len, n, c, 0)
    {
      var sz := if level - c < most then level - c else most;
      acts := Fits(s, acts, b, len, n, c, sz, most);
      c := c + sz;
    }
  }

  /** Where the first goroutine is, `i` steps after it found that one byte more than buffer `b` has does not fit. */
  ghost predicate Replacing(e: State, start: State, i: nat, b: nat, len: nat)
    requires start.pc != [] && b + 1 < |start.lens| && len > 0
  {
    && e.pc != [] && e.pc == start.pc[0 := e.pc[0]]
    && e.lens == (if i < 4 then start.lens else start.lens[b + 1 := PageSize(len, 1)])
    && e.lock == (if 2 <= i < 6 then Some(0) else None)
    && e.comp == (if i < 5 then Pack(b, len + 1) else if i < 7 then Pack(b + 1, 0) else Pack(b + 1, 1))
    && e.pc[0] == (if i == 0 then Checking(1, Pack(b, len + 1))
                   else if i == 1 then WantLock(1, b)
                   else if i == 2 then Locked(1, b)
                   else if i == 3 then Growing(1, b)
                   else if i == 4 then Storing(1, b)
                   else if i == 5 then Unlocking(1)
                   else if i == 6 then Adding(1)
                   else if i == 7 then Checking(1, Pack(b + 1, 1))
                   else Idle)
  }

  lemma ReplacingStep(e: State, start: State, i: nat, b: nat, len: nat, n: nat)
    requires Filling(start, b, len, n, len, 0) && n > 0 && len < MAX_ALLOC && i < 8
    requires Replacing(e, start, i, b, len)
    ensures Replacing(Step(e, Go(0, 0)), start, i + 1, b, len)
  {
    PackParse(b, len + 1);
    PackParse(b + 1, 0);
    PackParse(b + 1, 1);
  }

  /** One byte more than a full buffer has makes the next buffer, twice as long up to the maximum. */
  lemma NextBuffer(s: State, begun: seq<Action>, b: nat, len: nat, n: nat, most: nat) returns (acts: seq<Action>)
    requires Asks(begun, most) && Filling(Run(s, begun), b, len, n, len, 0)
    requires n > 0 && most > 0 && len < MAX_ALLOC && b + 3 < BUFFERS
    ensures Asks(acts, most) && Filling(Run(s, acts), b + 1, PageSize(len, 1), n, 1, 0)
  {
    hide Run, Step, PageSize;
    var start := Run(s, begun);
    PackParse(b, len + 1);
    acts := Reserves(s, begun, 0, 1, most);
    for i := 0 to 8
      invariant Asks(acts, most) && Replacing(Run(s, acts), start, i, b, len)
    {
      ReplacingStep(Run(s, acts), start, i, b, len, n);
      acts := Then(s, acts, Go(0, 0), most);
    }
  }

  /** Doubling goes on up to the maximum, which the 31st buffer has at the latest. */
  lemma Climb(s: State, first: nat, most: nat, n: nat) returns (acts: seq<Action>, b: nat, low: nat)
    requires Filling(s, 0, first, n, 0, 0) && 0 < most <= MAX_ALLOC && n > 0
    ensures Asks(acts, most) && low <= 1
    ensures Filling(Run(s, acts), b, Larger(first, MAX_ALLOC), n, low, 0)
  {
    hide Run, Filling, Pow2;
    acts, b, low := [], 0, 0;
    var len := first;
    assert Run(s, acts) == s by { RunNothing(s); }
    assert Filling(s, 0, first, n, 0, 0) ==> first > 0 by { FillingMore(s, 0, first, n, 0); }
    Pow2Zero();
    while len < MAX_ALLOC
      invariant Asks(acts, most) && Filling(Run(s, acts), b, len, n, low, 0) && low <= 1 <= len
      invariant Pow2(b) <= len && b <= 30 && len <= Larger(first, MAX_ALLOC) && first <= len
      decreases MAX_ALLOC - len
    {
      PowerBelow(b, len);
      acts := Fill(s, acts, b, len, n, low, len, most);
      acts := NextBuffer(s, acts, b, len, n, most);
      b, low, len := b + 1, 1, PageSize(len, 1);
    }
  }

  function Larger(x: nat, y: nat): nat { if x < y then y else x }

  lemma FillingMore(s: State, b: nat, len: nat, n: nat, low: nat)
    requires Filling(s, b, len, n, low, 0)
    ensures len > 0
  {
  }

  lemma Pow2Zero()
    ensures Pow2(0) == 1
  {
  }

  /** A buffer below the maximum is not the 31st of a doubling row, and the next one goes on with the row. */
  lemma PowerBelow(b: nat, len: nat)
    requires Pow2(b) <= len < MAX_ALLOC && b <= 30
    ensures b < 30 && Pow2(b + 1) <= PageSize(len, 1) <= MAX_ALLOC && len < PageSize(len, 1)
  {
    Pow2Of30();
    if b < 30 {
      Pow2Grows(b + 1, 30);
    }
  }

  lemma Pow2Of30()
    ensures Pow2(30) == MAX_ALLOC
  {
    hide Pow2;
    Pow2Small();
    Pow2Adds(10, 10);
    Pow2Adds(20, 10);
  }

  /** Then one goroutine after the other reserves `most`, up to the one that will carry. */
  lemma PileUp(s: State, begun: seq<Action>, b: nat, len: nat, n: nat, level: nat, most: nat)
      returns (acts: seq<Action>, t: nat, c: nat)
    requires Asks(begun, most) && Filling(Run(s, begun), b, len, n, level, 0)
    requires 0 < most <= MAX_ALLOC && level + most * n >= LOW
    ensures Asks(acts, most) && t < n && Filling(Run(s, acts), b, len, n, c, t)
    ensures c < LOW <= c + most
  {
    hide Run;
    acts, t, c := begun, 0, level;
    while c + most < LOW
      invariant Asks(acts, most) && t <= n && Filling(Run(s, acts), b, len, n, c, t)
      invariant c < LOW <= c + most * (n - t)
      decreases LOW - c
    {
      MoreThanNone(c, most, n - t);
      PackParse(b, c + most);
      acts := Reserves(s, acts, t, most, most);
      assert most * (n - t) == most + most * (n - (t + 1));
      t, c := t + 1, c + most;
    }
    MoreThanNone(c, most, n - t);
  }

  lemma MoreThanNone(c: nat, most: nat, k: nat)
    requires c < LOW <= c + most * k
    ensures k > 0
  {
    assert k == 0 ==> most * k == 0;
  }

  /** Where the goroutine that carried is, `i` steps later: on the way to growing behind a buffer that is not there. */
  ghost predicate Carried(e: State, i: nat, b: nat, t: nat, low: nat, most: nat) {
    && t < |e.pc| && b + 2 < BUFFERS == |e.lens| && e.lens[b + 1] == e.lens[b + 2] == 0 && e.comp == Pack(b + 1, low)
    && (e.pc[t].Crashed? ||
        (if i == 0 then e.lock == None && e.pc[t] == Checking(most, Pack(b + 1, low))
         else if i == 1 then e.lock == None && e.pc[t] == WantLock(most, b + 1)
         else if i == 2 then e.pc[t] == Locked(most, b + 1)
         else if i == 3 then e.pc[t] == Growing(most, b + 1)
         else false))
  }

  lemma CarriedStep(e: State, i: nat, b: nat, t: nat, low: nat, most: nat)
    requires Carried(e, i, b, t, low, most) && low < most <= MAX_ALLOC && b + 2 < BUFFERS
    ensures Carried(Step(e, Go(t, 0)), i + 1, b, t, low, most)
  {
    PackParse(b + 1, low);
  }

  /** The reservation that carries names a buffer that is not there, and its goroutine crashes. */
  lemma Crash(s: State, begun: seq<Action>, b: nat, len: nat, most: nat, n: nat, t: nat, c: nat)
      returns (acts: seq<Action>)
    requires Asks(begun, most) && t < n && Filling(Run(s, begun), b, len, n, c, t)
    requires 0 < most <= MAX_ALLOC && c < LOW <= c + most
    ensures Asks(acts, most) && !Safe(Run(s, acts))
  {
    hide Run, Step;
    var low := c + most - LOW;
    assert Pack(b, c) + most == Pack(b + 1, low);
    PackParse(b + 1, low);
    acts := Reserves(s, begun, t, most, most);
    for i := 0 to 4
      invariant Asks(acts, most) && Carried(Run(s, acts), i, b, t, low, most)
    {
      CarriedStep(Run(s, acts), i, b, t, low, most);
      acts := Then(s, acts, Go(t, 0), most);
    }
  }

  /** A new allocator: only its first buffer is there, and `n` goroutines are idle. */
  ghost predicate Fresh(s: State, first: nat, n: nat) {
    && s.comp == 0 && s.granted == [] && s.lock == None && Quiet(s) && |s.pc| == n
    && |s.lens| == BUFFERS && s.lens[0] == first > 0 && forall i | 0 < i < BUFFERS :: s.lens[i] == 0
  }

  /**
   * At or beyond the bound it fails: for every first buffer, request size and number of goroutines
   * there is a run that grows to the largest buffer, carries into the buffer index and crashes.
   */
  lemma CarryCrashes(s: State, first: nat, most: nat, n: nat) returns (acts: seq<Action>)
    requires Fresh(s, first, n) && 0 < most <= MAX_ALLOC && n > 0
    requires Larger(first, MAX_ALLOC) + most * n >= LOW
    ensures Asks(acts, most) && !Safe(Run(s, acts))
  {
    hide Run, Safe;
    var len := Larger(first, MAX_ALLOC);
    var level := if len < LOW then len else LOW - 1;
    assert most * n >= 1;
    var b, low, t, c;
    acts, b, low := Climb(s, first, most, n);
    acts := Fill(s, acts, b, len, n, low, level, most);
    acts, t, c := PileUp(s, acts, b, len, n, level, most);
    acts := Crash(s, acts, b, len, most, n, t, c);
  }

  lemma RunNothing(s: State)
    ensures Run(s, []) == s
  {
  }

  /** Every run with requests of at most `most` bytes is safe. */
  ghost predicate AlwaysSafe(s: State, most: nat) {
    forall acts | Asks(acts, most) :: Safe(Run(s, acts))
  }

  /** The exact bound for a new allocator with a first buffer of any size. */
  lemma FreshSafeIff(s: State, first: nat, most: nat, n: nat)
    requires Fresh(s, first, n) && 0 < most <= MAX_ALLOC && n > 0
    ensures AlwaysSafe(s, most) <==> Larger(first, MAX_ALLOC) + most * n < LOW
  {
    hide Asks, Safe, Run;
    if Larger(first, MAX_ALLOC) + most * n < LOW {
      forall acts | Asks(acts, most)
        ensures Safe(Run(s, acts))
      {
        AllRunsSafe(s, acts, Larger(first, MAX_ALLOC), most);
      }
    } else {
      var acts := CarryCrashes(s, first, most, n);
    }
  }

  /** The same bound for all allocators, used or new, whose buffers are at most `largest`. */
  lemma SafeIff(largest: nat, most: nat, n: nat)
    requires MAX_ALLOC <= largest < LOW && 0 < most <= MAX_ALLOC && n > 0
    ensures (forall s | Start(s, largest) && |s.pc| == n :: AlwaysSafe(s, most)) <==> largest + most * n < LOW
  {
    hide Asks, Safe, Run, AlwaysSafe;
    if largest + most * n < LOW {
      forall s | Start(s, largest) && |s.pc| == n
        ensures AlwaysSafe(s, most)
      {
        StartSafe(s, largest, most);
      }
    } else {
      var s := State(0, seq(BUFFERS, i => if i == 0 then largest else 0), None, seq(n, i => Idle), []);
      FreshSafeIff(s, largest, most, n);
      assert Start(s, largest);
    }
  }

  lemma StartSafe(s: State, largest: nat, most: nat)
    requires Start(s, largest) && MAX_ALLOC <= largest && largest + most * |s.pc| < LOW
    ensures AlwaysSafe(s, most)
  {
    hide Start, Asks, Safe, Run;
    forall acts | Asks(acts, most)
      ensures Safe(Run(s, acts))
    {
      AllRunsSafe(s, acts, largest, most);
    }
  }

  // ---- A first buffer that was trimmed away ----

  /** Every goroutine is on its way to the loop that cannot end, and none beyond it. */
  ghost predicate Starved(s: State) {
    && Bi(s) == 0 && |s.lens| == BUFFERS && s.lens[0] == s.lens[1] == 0 && s.granted == []
    && forall t | 0 <= t < |s.pc| ::
         match s.pc[t]
         case Idle => true
         case Adding(z) => z > 0
         case Checking(z, pos) => 0 < z <= pos < LOW
         case WantLock(_, b) => b == 0
         case Locked(_, b) => b == 0
         case Growing(_, b) => b == 0
         case Crashed => true
         case Refused => true
         case _ => false
  }

  /** A recycled allocator whose first buffer was not below the limit is in that state, and no other is. */
  lemma RecycledStarves(lens: seq<nat>, bi: nat, low: nat, max: nat, s: State)
    requires Sound(lens, bi, low) && s.lens == Trimmed(lens, max)
    requires s.comp == 0 && s.granted == [] && Quiet(s)
    ensures Starved(s) <==> lens[0] >= max
  {
    TrimmedSound(lens, bi, low, max);
  }

  lemma StarvedStep(s: State, a: Action)
    requires Starved(s) && NoCarry(s, a)
    ensures Starved(Step(s, a))
  {
  }

  /** Without its first buffer an allocator hands out nothing, in any run without a carry. */
  lemma {:induction false} NothingWithoutFirst(s: State, acts: seq<Action>)
    requires Starved(s) && NeverCarries(s, acts)
    ensures Run(s, acts).granted == []
    decreases |acts|
  {
    hide Step, NoCarry;
    if acts != [] {
      StarvedStep(s, acts[0]);
      NothingWithoutFirst(Step(s, acts[0]), acts[1..]);
    }
  }

  /** And the first request of at least one byte ends in the doubling loop that never gets anywhere. */
  lemma FirstRequestCrashes(s: State, t: nat, sz: nat) returns (acts: seq<Action>)
    requires Starved(s) && Quiet(s) && s.comp == 0 && s.lock == None && t < |s.pc| && 0 < sz <= MAX_ALLOC
    ensures Asks(acts, sz) && Run(s, acts).granted == []
    ensures t < |Run(s, acts).pc| && Run(s, acts).pc[t].Crashed?
  {
    hide Run;
    acts := [];
    assert Run(s, acts) == s by { RunNothing(s); }
    acts := Reserves(s, acts, t, sz, sz);
    for i := 0 to 4
      invariant Asks(acts, sz)
      invariant var e := Run(s, acts);
        && t < |e.pc| && |e.lens| == BUFFERS && e.lens[0] == e.lens[1] == 0 && e.comp == sz && e.granted == []
        && (if i == 0 then e.lock == None && e.pc[t] == Checking(sz, sz)
            else if i == 1 then e.lock == None && e.pc[t] == WantLock(sz, 0)
            else if i == 2 then e.pc[t] == Locked(sz, 0)
            else if i == 3 then e.pc[t] == Growing(sz, 0)
            else e.pc[t].Crashed?)
    {
      acts := Then(s, acts, Go(t, 0), sz);
    }
  }

  // ---- One goroutine at a time ----

  /** This many steps of one goroutine, with nobody else in between. */
  function GoSteps(s: State, t: nat, sz: nat, n: nat): State
    decreases n
  {
    if n == 0 then s else GoSteps(Step(s, Go(t, sz)), t, sz, n - 1)
  }

  lemma {:induction false} GoStepsAdd(s: State, t: nat, sz: nat, m: nat, n: nat)
    ensures GoSteps(s, t, sz, m + n) == GoSteps(GoSteps(s, t, sz, m), t, sz, n)
    decreases m
  {
    hide Step;
    if m > 0 {
      GoStepsAdd(Step(s, Go(t, sz)), t, sz, m - 1, n);
    }
  }

  /** The request got the place that it gets from the allocator of one goroutine, or ran out of buffers as it does. */
  ghost predicate PlacedAlone(s: State, t: nat, sz: nat, e: State)
    requires Sound(s.lens, Bi(s), Low(s)) && t < |s.pc|
  {
    match Placed(s.lens, Bi(s), Low(s), sz)
    case None => e.pc == s.pc[t := OutOfBuffers] && e.granted == s.granted
    case Some(p) =>
      e == State(Pack(p.buf, p.lo + sz), p.lens, None, s.pc[t := Idle], s.granted + [Range(p.buf, p.lo, p.lo + sz)])
  }

  ghost predicate ReadyToAdd(s: State, t: nat, sz: nat) {
    && Sound(s.lens, Bi(s), Low(s)) && s.comp < WORD && s.lock == None && t < |s.pc| && s.pc[t] == Adding(sz)
    && 0 < sz <= MAX_ALLOC
  }

  /** A request that fits. */
  lemma FitsAlone(s: State, t: nat, sz: nat)
    requires ReadyToAdd(s, t, sz) && Low(s) + sz <= s.lens[Bi(s)]
    ensures PlacedAlone(s, t, sz, GoSteps(s, t, sz, 2))
  {
    AddAlone(s, t, sz);
    var s1 := Step(s, Go(t, sz));
    var e := Step(s1, Go(t, sz));
    assert GoSteps(s, t, sz, 2) == GoSteps(s1, t, sz, 1) == e;
    PlacedStep(s.lens, Bi(s), Low(s), sz);
  }

  lemma AddAlone(s: State, t: nat, sz: nat)
    requires ReadyToAdd(s, t, sz)
    ensures var e := Step(s, Go(t, sz));
      && e == s.(pc := s.pc[t := Checking(sz, e.comp)], comp := Pack(Bi(s), Low(s) + sz))
      && Bi(e) == Bi(s) && Low(e) == Low(s) + sz
  {
    PackParse(Bi(s), Low(s) + sz);
  }

  /** A request that does not fit takes the lock and is about to grow. */
  lemma LocksAlone(s: State, t: nat, sz: nat)
    requires ReadyToAdd(s, t, sz) && Low(s) + sz > s.lens[Bi(s)]
    ensures var e := GoSteps(s, t, sz, 4);
      && e == s.(pc := s.pc[t := Growing(sz, Bi(s))], lock := Some(t), comp := Pack(Bi(s), Low(s) + sz))
      && Bi(e) == Bi(s)
  {
    AddAlone(s, t, sz);
    var b := Bi(s);
    var a := Go(t, sz);
    var s1 := Step(s, a);
    var s2 := Moved(s1, t, WantLock(sz, b));
    var s3 := Moved(s2, t, Locked(sz, b)).(lock := Some(t));
    var s4 := Moved(s3, t, Growing(sz, b));
    assert Step(s1, a) == s2;
    assert Step(s2, a) == s3;
    assert Step(s3, a) == s4;
    assert s4.pc == s.pc[t := Growing(sz, b)];
    hide Step, ReadyToAdd;
    assert GoSteps(s, t, sz, 4) == GoSteps(s1, t, sz, 3) == GoSteps(s2, t, sz, 2) == GoSteps(s3, t, sz, 1) == s4;
  }

  /** Holding the lock, it makes the next buffer usable, moves there and is ready again. */
  lemma GrowsAlone(s: State, t: nat, sz: nat, b: nat)
    requires t < |s.pc| && s.pc[t] == Growing(sz, b) && b + 1 < BUFFERS == |s.lens| && s.lens[b] > 0
    requires Grown(s.lens, b + 1, sz).Some?
    ensures GoSteps(s, t, sz, 3) ==
      State(Pack(b + 1, 0), Grown(s.lens, b + 1, sz).value, None, s.pc[t := Adding(sz)], s.granted)
  {
    PackParse(b + 1, 0);
    hide Grown;
    var a := Go(t, sz);
    var s5 := Moved(s, t, Storing(sz, b)).(lens := Grown(s.lens, b + 1, sz).value);
    var s6 := Moved(s5, t, Unlocking(sz)).(comp := Pack(b + 1, 0));
    var s7 := Moved(s6, t, Adding(sz)).(lock := None);
    assert Step(s, a) == s5;
    assert Step(s5, a) == s6;
    assert Step(s6, a) == s7;
    assert s7.pc == s.pc[t := Adding(sz)];
    hide Step;
    assert GoSteps(s, t, sz, 3) == GoSteps(s5, t, sz, 2) == GoSteps(s6, t, sz, 1) == s7;
  }

  lemma PanicsAlone(s: State, t: nat, sz: nat, b: nat)
    requires t < |s.pc| && s.pc[t] == Growing(sz, b) && b < |s.lens| && s.lens[b] > 0
    requires Grown(s.lens, b + 1, sz).None?
    ensures GoSteps(s, t, sz, 1) == Moved(s, t, OutOfBuffers)
  {
    hide Grown;
    assert GoSteps(s, t, sz, 1) == Step(s, Go(t, sz));
  }

  lemma {:induction false} AddingAlone(s: State, t: nat, sz: nat) returns (n: nat)
    requires ReadyToAdd(s, t, sz)
    ensures PlacedAlone(s, t, sz, GoSteps(s, t, sz, n))
    decreases |s.lens| - Bi(s)
  {
    hide GoSteps, Grown, PlacedAlone, ReadyToAdd;
    assert Sound(s.lens, Bi(s), Low(s)) by { ReadySound(s, t, sz); }
    hide Sound, Low;
    if Low(s) + sz <= s.lens[Bi(s)] {
      FitsAlone(s, t, sz);
      n := 2;
    } else if Grown(s.lens, Bi(s) + 1, sz).None? {
      NoneAlone(s, t, sz);
      n := 5;
    } else {
      MovedOn(s, t, sz);
      var m := AddingAlone(GoSteps(s, t, sz, 7), t, sz);
      PlacedOn(s, t, sz, m);
      n := 7 + m;
    }
  }

  lemma ReadySound(s: State, t: nat, sz: nat)
    requires ReadyToAdd(s, t, sz)
    ensures t < |s.pc| && Sound(s.lens, Bi(s), Low(s)) && Bi(s) < |s.lens| == BUFFERS && s.lens[Bi(s)] > 0
  {
  }

  lemma NoneAlone(s: State, t: nat, sz: nat)
    requires ReadyToAdd(s, t, sz) && Low(s) + sz > s.lens[Bi(s)] && Grown(s.lens, Bi(s) + 1, sz).None?
    ensures PlacedAlone(s, t, sz, GoSteps(s, t, sz, 5))
  {
    hide GoSteps, Grown, Placed;
    LocksAlone(s, t, sz);
    PanicsAlone(GoSteps(s, t, sz, 4), t, sz, Bi(s));
    GoStepsAdd(s, t, sz, 4, 1);
    PlacedStep(s.lens, Bi(s), Low(s), sz);
  }

  lemma SomeAlone(s: State, t: nat, sz: nat)
    requires ReadyToAdd(s, t, sz) && Low(s) + sz > s.lens[Bi(s)] && Grown(s.lens, Bi(s) + 1, sz).Some?
    ensures Bi(s) + 1 < BUFFERS
    ensures GoSteps(s, t, sz, 7) ==
      State(Pack(Bi(s) + 1, 0), Grown(s.lens, Bi(s) + 1, sz).value, None, s.pc[t := Adding(sz)], s.granted)
  {
    hide GoSteps, Grown;
    LocksAlone(s, t, sz);
    GrownSound(s.lens, Bi(s), Low(s), sz);
    var s4 := GoSteps(s, t, sz, 4);
    GrowsAlone(s4, t, sz, Bi(s));
    GoStepsAdd(s, t, sz, 4, 3);
    assert s4.pc[t := Adding(sz)] == s.pc[t := Adding(sz)];
  }

  lemma PlacedOn(s: State, t: nat, sz: nat, m: nat)
    requires ReadyToAdd(s, t, sz) && Low(s) + sz > s.lens[Bi(s)] && Grown(s.lens, Bi(s) + 1, sz).Some?
    requires var e := GoSteps(s, t, sz, 7); ReadyToAdd(e, t, sz) && PlacedAlone(e, t, sz, GoSteps(e, t, sz, m))
    ensures PlacedAlone(s, t, sz, GoSteps(s, t, sz, 7 + m))
  {
    hide GoSteps, Placed, Grown;
    SomeAlone(s, t, sz);
    GoStepsAdd(s, t, sz, 7, m);
    PackParse(Bi(s) + 1, 0);
    PlacedStep(s.lens, Bi(s), Low(s), sz);
  }

  /** After growing, the goroutine is ready to reserve in the next buffer. */
  lemma MovedOn(s: State, t: nat, sz: nat)
    requires ReadyToAdd(s, t, sz) && Low(s) + sz > s.lens[Bi(s)] && Grown(s.lens, Bi(s) + 1, sz).Some?
    ensures var e := GoSteps(s, t, sz, 7); ReadyToAdd(e, t, sz) && Bi(e) == Bi(s) + 1 && |e.lens| == |s.lens|
  {
    hide GoSteps;
    SomeAlone(s, t, sz);
    GrownSound(s.lens, Bi(s), Low(s), sz);
    PackParse(Bi(s) + 1, 0);
  }

  lemma GrownSound(lens: seq<nat>, bi: nat, low: nat, sz: nat)
    requires Sound(lens, bi, low) && sz <= MAX_ALLOC
    ensures var g := Grown(lens, bi + 1, sz); g.Some? ==> bi + 1 < BUFFERS && Sound(g.value, bi + 1, 0)
  {
    GrownKeeps(lens, bi + 1, sz);
  }

  /**
   * A goroutine that runs alone, from any sound state of the packed word and the buffers, gets
   * exactly the place that the allocator of one goroutine gives, or runs out of buffers exactly if
   * that one does.
   */
  lemma AloneIsSequential(s: State, t: nat, sz: nat) returns (n: nat)
    requires Sound(s.lens, Bi(s), Low(s)) && s.comp < WORD && s.lock == None && t < |s.pc| && s.pc[t].Idle?
    requires 0 < sz <= MAX_ALLOC
    ensures var e := GoSteps(s, t, sz, n);
      match Placed(s.lens, Bi(s), Low(s), sz)
      case None => e.pc == s.pc[t := OutOfBuffers] && e.granted == s.granted
      case Some(p) =>
        e == State(Pack(p.buf, p.lo + sz), p.lens, None, s.pc, s.granted + [Range(p.buf, p.lo, p.lo + sz)])
  {
    var s1 := Step(s, Go(t, sz));
    assert s1 == Moved(s, t, Adding(sz));
    hide Placed, Step;
    var m := AddingAlone(s1, t, sz);
    n := m + 1;
    assert GoSteps(s, t, sz, n) == GoSteps(s1, t, sz, m);
    assert s.pc[t := Adding(sz)][t := Idle] == s.pc;
    assert s.pc[t := Adding(sz)][t := OutOfBuffers] == s.pc[t := OutOfBuffers];
  }
}
