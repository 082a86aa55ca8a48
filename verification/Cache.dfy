/**
 * The cache of cache.go as a step system: clients that touch the store directly and queue what
 * they did, and one worker that drains the queue into policy and store. A run is any sequence of
 * actions, so a statement about all runs is one about every interleaving.
 */
module Cache {
  import opened Collections
  import Policy
  import Store

  // The size of the queue.
  const SET_BUF_SIZE := 32 * 1024

  /**
   * A value in the store. `since` is a lower bound on the place of its Set in the queue: the
   * item's own place, or for an update the length of the queue's history when it was written.
   */
  datatype Entry = Entry(value: int, since: nat)

  datatype QItem = New(key: int, value: int) | Updated(key: int) | Delete(key: int) | Marker

  /** Where a client is inside SetWithTTL, Del or Wait. */
  datatype Client =
    | Free
    | Updating(key: int, value: int)
    | ExitPrev(key: int, prev: int)
    | SendNew(key: int, value: int)
    | SendUpdated(key: int)
    | Deleting(key: int)
    | ExitDeleted(key: int, prev: int)
    | SendDelete(key: int)
    | SendMarker
    | Waiting(place: nat)

  /**
   * Where the worker is in the item it took, in a cleanup of expired keys, or in Clear, which takes
   * the worker's place. `from` is where in the queue Clear began.
   */
  datatype Worker =
    | Idle
    | Admitting(key: int, value: int)
    | Storing(key: int, value: int, victims: seq<int>)
    | Rejecting(value: int, victims: seq<int>)
    | Evicting(victims: seq<int>)
    | ExitVictim(value: int, victims: seq<int>)
    | Repricing(key: int)
    | Forgetting(key: int)
    | Removing(key: int)
    | ExitRemoved(value: int)
    | Cleaning(keys: seq<int>)
    | CleaningKey(key: int, keys: seq<int>)
    | ExitCleaned(value: int, keys: seq<int>)
    | Draining(from: nat)
    | ExitDrained(value: int, from: nat)
    | Dropping(from: nat)
    | Emptying(from: nat)

  datatype State = State(
    // Everything ever put in the queue; what is before `head` has been taken out.
    log: seq<QItem>, head: nat,
    store: map<int, Entry>, policy: set<int>,
    clients: seq<Client>, worker: Worker,
    // How often each value was given to Set, told to onExit, and dropped because the queue was full.
    born: int -> int, exited: int -> int, dropped: int -> int)

  datatype Action =
    | StartSet(t: nat, key: int, value: int)
    | StartDel(t: nat, key: int)
    | StartWait(t: nat)
    | StepClient(t: nat, wanted: bool)
    | Decide(victims: seq<int>, added: bool)
    | StartCleanup(keys: seq<int>)
    | StepWorker
    | StartClear
    | EmptyKey(key: int)

  // ---- Steps ----

  function ValueAt(store: map<int, Entry>, key: int): int {
    if key in store then store[key].value else Store.NO_VALUE
  }

  /** 1 if the two are the same value, which is not the zero value. */
  function Hit(value: int, v: int): nat {
    if value == v && v != Store.NO_VALUE then 1 else 0
  }

  /** How many new items with value `v` are still in the queue. */
  ghost function Pending(log: seq<QItem>, head: nat, v: int): nat
    decreases |log| - head
  {
    if head >= |log| then 0
    else (if log[head].New? then Hit(log[head].value, v) else 0) + Pending(log, head + 1, v)
  }

  /** How many keys have value `v` in the store. */
  ghost function Stored(m: map<int, Entry>, v: int): nat
    decreases m.Keys
  {
    if m.Keys == {} then 0
    else
      assert exists k :: k in m.Keys by { var k := HasElement(m.Keys); }
      var k :| k in m.Keys;
      Hit(m[k].value, v) + Stored(m - {k}, v)
  }

  /** onExit with a value; being told the zero value does not count. */
  function Exit(s: State, value: int): State {
    s.(exited := v => s.exited(v) + Hit(value, v))
  }

  predicate Full(s: State) {
    |s.log| - s.head >= SET_BUF_SIZE
  }

  function At(s: State, t: nat, c: Client): State
    requires t < |s.clients|
  {
    s.(clients := s.clients[t := c])
  }

  function Enqueued(s: State, i: QItem): State {
    s.(log := s.log + [i])
  }

  /** The next step of a client; `wanted` is what the ShouldUpdate callback says. */
  function ClientStep(s: State, t: nat, wanted: bool): State
    requires t < |s.clients|
  {
    match s.clients[t]
    case Free => s
    case Updating(k, v) =>
      if k in s.store && wanted
      then At(s, t, ExitPrev(k, s.store[k].value)).(store := s.store[k := Entry(v, |s.log|)])
      else At(s, t, SendNew(k, v))
    case ExitPrev(k, prev) => Exit(At(s, t, SendUpdated(k)), prev)
    case SendNew(k, v) =>
      if Full(s)
      then At(s, t, Free).(dropped := w => s.dropped(w) + Hit(v, w))
      else Enqueued(At(s, t, Free), New(k, v))
    case SendUpdated(k) => if Full(s) then At(s, t, Free) else Enqueued(At(s, t, Free), Updated(k))
    case Deleting(k) => At(s, t, ExitDeleted(k, ValueAt(s.store, k))).(store := s.store - {k})
    case ExitDeleted(k, prev) => Exit(At(s, t, SendDelete(k)), prev)
    case SendDelete(k) => if Full(s) then s else Enqueued(At(s, t, Free), Delete(k))
    case SendMarker => if Full(s) then s else Enqueued(At(s, t, Waiting(|s.log|)), Marker)
    case Waiting(place) => if s.head > place then At(s, t, Free) else s
  }

  function Took(i: QItem): Worker {
    match i
    case New(k, v) => Admitting(k, v)
    case Updated(k) => Repricing(k)
    case Delete(k) => Forgetting(k)
    case Marker => Idle
  }

  /** Clear tells of every new item and every deletion in the queue, and lets waiting clients go. */
  function Drained(i: QItem, from: nat): Worker {
    match i
    case New(_, v) => ExitDrained(v, from)
    case Updated(_) => Draining(from)
    case Delete(_) => ExitDrained(Store.NO_VALUE, from)
    case Marker => Draining(from)
  }

  function WorkerStep(s: State): State {
    match s.worker
    case Idle => if s.head < |s.log| then s.(head := s.head + 1, worker := Took(s.log[s.head])) else s
    case Admitting(_, _) => s
    case Storing(k, v, victims) =>
      s.(store := s.store[k := Entry(v, if s.head > 0 then s.head - 1 else 0)], worker := Evicting(victims))
    case Rejecting(v, victims) => Exit(s.(worker := Evicting(victims)), v)
    case Evicting(victims) =>
      if victims == [] then s.(worker := Idle)
      else s.(store := s.store - {victims[0]}, worker := ExitVictim(ValueAt(s.store, victims[0]), victims[1..]))
    case ExitVictim(v, victims) => Exit(s.(worker := Evicting(victims)), v)
    case Repricing(_) => s.(worker := Idle)
    case Forgetting(k) => s.(policy := s.policy - {k}, worker := Removing(k))
    case Removing(k) => s.(store := s.store - {k}, worker := ExitRemoved(ValueAt(s.store, k)))
    case ExitRemoved(v) => Exit(s.(worker := Idle), v)
    case Cleaning(keys) =>
      if keys == [] then s.(worker := Idle)
      else s.(policy := s.policy - {keys[0]}, worker := CleaningKey(keys[0], keys[1..]))
    case CleaningKey(k, keys) => s.(store := s.store - {k}, worker := ExitCleaned(ValueAt(s.store, k), keys))
    case ExitCleaned(v, keys) => Exit(s.(worker := Cleaning(keys)), v)
    case Draining(from) =>
      if s.head < |s.log| then s.(head := s.head + 1, worker := Drained(s.log[s.head], from))
      else s.(worker := Dropping(from))
    case ExitDrained(v, from) => Exit(s.(worker := Draining(from)), v)
    case Dropping(from) => s.(policy := {}, worker := Emptying(from))
    case Emptying(_) => if s.store == map[] then s.(worker := Idle) else s
  }

  function KeySet(keys: seq<int>): set<int> {
    set i | 0 <= i < |keys| :: keys[i]
  }

  /** What the policy may answer when asked to add a key: the contract of its Add, on the keys alone. */
  predicate MayDecide(policy: set<int>, key: int, victims: seq<int>, added: bool) {
    && (forall i | 0 <= i < |victims| :: victims[i] in policy)
    && (key in policy ==> victims == [] && !added)
  }

  /** Every answer of the policy's Add is one that the steps allow, and changes its keys as they say. */
  method AskPolicy(p: Policy.DefaultPolicy, key: int, cost: int) returns (victims: seq<int>, added: bool)
    requires p.Valid()
    modifies p.evict`used, p.evict`keyCosts, p.evict.metrics.all
    ensures p.Valid() && MayDecide(old(p.evict.keyCosts).Keys, key, victims, added)
    ensures forall k :: k in p.evict.keyCosts <==>
      (k in old(p.evict.keyCosts) && k !in KeySet(victims)) || (added && k == key)
  {
    hide KeySet, Policy.KeysOf, Policy.DefaultPolicy.Valid, Policy.DefaultPolicy.Estimated;
    var items, isAdded, _ := p.Add(key, cost);
    added := isAdded;
    victims := KeysOf(items);
    VictimKeys(items);
    NoVictims();
    assert items == [] ==> victims == [];
    assert KeySet(victims) <= old(p.evict.keyCosts).Keys;
  }

  lemma NoVictims()
    ensures KeySet([]) == {}
  {
  }

  function KeysOf(items: seq<Policy.Item>): seq<int> {
    seq(|items|, i requires 0 <= i < |items| => items[i].key)
  }

  lemma VictimKeys(items: seq<Policy.Item>)
    ensures KeySet(KeysOf(items)) == Policy.KeysOf(items)
  {
    var victims := KeysOf(items);
    forall k
      ensures k in KeySet(victims) <==> k in Policy.KeysOf(items)
    {
      if i :| 0 <= i < |items| && items[i].key == k {
        assert victims[i] == k;
      }
    }
  }

  function DecideStep(s: State, victims: seq<int>, added: bool): State {
    match s.worker
    case Admitting(k, v) =>
      if !MayDecide(s.policy, k, victims, added) then s
      else if added
      then s.(policy := s.policy - KeySet(victims) + {k}, worker := Storing(k, v, victims))
      else s.(policy := s.policy - KeySet(victims), worker := Rejecting(v, victims))
    case _ => s
  }

  /** No client is inside a call; the worker is between items. */
  predicate Quiet(s: State) {
    s.worker.Idle? && forall t | 0 <= t < |s.clients| :: s.clients[t].Free?
  }

  /** Clear takes a key out of the store, which no other call gets between, and tells of its value. */
  function Emptied(s: State, key: int): State {
    if s.worker.Emptying? && key in s.store
    then Exit(s.(store := s.store - {key}), s.store[key].value)
    else s
  }

  function Step(s: State, a: Action): State {
    match a
    case StartSet(t, k, v) =>
      if t < |s.clients| && s.clients[t].Free?
      then At(s, t, Updating(k, v)).(born := w => s.born(w) + Hit(v, w))
      else s
    case StartDel(t, k) => if t < |s.clients| && s.clients[t].Free? then At(s, t, Deleting(k)) else s
    case StartWait(t) => if t < |s.clients| && s.clients[t].Free? then At(s, t, SendMarker) else s
    case StepClient(t, wanted) => if t < |s.clients| then ClientStep(s, t, wanted) else s
    case Decide(victims, added) => DecideStep(s, victims, added)
    case StartCleanup(keys) => if s.worker.Idle? then s.(worker := Cleaning(keys)) else s
    case StepWorker => WorkerStep(s)
    case StartClear => if s.worker.Idle? then s.(worker := Draining(s.head)) else s
    case EmptyKey(key) => Emptied(s, key)
  }

  function Run(s: State, acts: seq<Action>): State
    decreases |acts|
  {
    if acts == [] then s else Run(Step(s, acts[0]), acts[1..])
  }

  // ---- Values are conserved ----

  /** How often a client holds `v` inside a call. */
  function ClientHolds(c: Client, v: int): nat {
    match c
    case Updating(_, x) => Hit(x, v)
    case ExitPrev(_, x) => Hit(x, v)
    case SendNew(_, x) => Hit(x, v)
    case ExitDeleted(_, x) => Hit(x, v)
    case _ => 0
  }

  function WorkerHolds(w: Worker, v: int): nat {
    match w
    case Admitting(_, x) => Hit(x, v)
    case Storing(_, x, _) => Hit(x, v)
    case Rejecting(x, _) => Hit(x, v)
    case ExitVictim(x, _) => Hit(x, v)
    case ExitRemoved(x) => Hit(x, v)
    case ExitCleaned(x, _) => Hit(x, v)
    case ExitDrained(x, _) => Hit(x, v)
    case _ => 0
  }

  function Held(clients: seq<Client>, v: int): nat {
    if clients == [] then 0 else Held(clients[..|clients| - 1], v) + ClientHolds(clients[|clients| - 1], v)
  }

  /** Every time `v` was given to Set it is in one place: stored, queued, held inside one step, exited or dropped. */
  ghost predicate Conserved(s: State, v: int) {
    && s.exited(v) >= 0 && s.dropped(v) >= 0
    && s.born(v) ==
         Stored(s.store, v) + Pending(s.log, s.head, v) + Held(s.clients, v) + WorkerHolds(s.worker, v) +
         s.exited(v) + s.dropped(v)
  }

  lemma {:induction false} StoredRemove(m: map<int, Entry>, k: int, v: int)
    requires k in m
    ensures Stored(m, v) == Hit(m[k].value, v) + Stored(m - {k}, v)
    decreases m.Keys
  {
    var j :| j in m.Keys && Stored(m, v) == Hit(m[j].value, v) + Stored(m - {j}, v);
    if j != k {
      StoredRemove(m - {j}, k, v);
      StoredRemove(m - {k}, j, v);
      assert m - {j} - {k} == m - {k} - {j};
    }
  }

  /** What a deletion takes out of the store is what it reports. */
  lemma StoredDel(m: map<int, Entry>, k: int, v: int)
    ensures Stored(m, v) == Hit(ValueAt(m, k), v) + Stored(m - {k}, v)
  {
    hide Stored;
    if k in m {
      StoredRemove(m, k, v);
    } else {
      assert m - {k} == m;
    }
  }

  lemma StoredPut(m: map<int, Entry>, k: int, e: Entry, v: int)
    ensures Stored(m[k := e], v) + Hit(ValueAt(m, k), v) == Stored(m, v) + Hit(e.value, v)
  {
    hide Stored;
    StoredDel(m, k, v);
    StoredDel(m[k := e], k, v);
    assert m[k := e] - {k} == m - {k};
  }

  lemma {:induction false} PendingMore(log: seq<QItem>, head: nat, i: QItem, v: int)
    requires head <= |log|
    ensures Pending(log + [i], head, v) == Pending(log, head, v) + if i.New? then Hit(i.value, v) else 0
    decreases |log| - head
  {
    if head < |log| {
      PendingMore(log, head + 1, i, v);
    }
  }

  lemma {:induction false} HeldPut(clients: seq<Client>, t: nat, c: Client, v: int)
    requires t < |clients|
    ensures Held(clients[t := c], v) + ClientHolds(clients[t], v) == Held(clients, v) + ClientHolds(c, v)
  {
    var more := clients[t := c];
    if t < |clients| - 1 {
      HeldPut(clients[..|clients| - 1], t, c, v);
      assert more[..|clients| - 1] == clients[..|clients| - 1][t := c];
    } else {
      assert more[..|clients| - 1] == clients[..|clients| - 1];
    }
  }

  /** What a client puts in the queue, or drops because it is full, was in its hand. */
  lemma SendConserves(s: State, t: nat, wanted: bool, v: int)
    requires Conserved(s, v) && s.head <= |s.log| && t < |s.clients|
    requires var c := s.clients[t]; c.SendNew? || c.SendUpdated? || c.SendDelete? || c.SendMarker?
    ensures Conserved(ClientStep(s, t, wanted), v)
  {
    hide Stored, Pending, Held;
    HeldPut(s.clients, t, ClientStep(s, t, wanted).clients[t], v);
    match s.clients[t]
    case SendNew(k, x) => PendingMore(s.log, s.head, New(k, x), v);
    case SendUpdated(k) => PendingMore(s.log, s.head, Updated(k), v);
    case SendDelete(k) => PendingMore(s.log, s.head, Delete(k), v);
    case SendMarker => PendingMore(s.log, s.head, Marker, v);
  }

  lemma ClientConserves(s: State, t: nat, wanted: bool, v: int)
    requires Conserved(s, v) && s.head <= |s.log| && t < |s.clients|
    ensures Conserved(ClientStep(s, t, wanted), v)
  {
    hide Stored, Pending, Held;
    var c := s.clients[t];
    if c.SendNew? || c.SendUpdated? || c.SendDelete? || c.SendMarker? {
      SendConserves(s, t, wanted, v);
    } else {
      HeldPut(s.clients, t, ClientStep(s, t, wanted).clients[t], v);
      match c
      case Updating(k, x) => StoredPut(s.store, k, Entry(x, |s.log|), v);
      case Deleting(k) => StoredDel(s.store, k, v);
      case _ =>
    }
  }

  lemma PendingHead(log: seq<QItem>, head: nat, v: int)
    requires head < |log|
    ensures Pending(log, head, v) == (if log[head].New? then Hit(log[head].value, v) else 0) + Pending(log, head + 1, v)
  {
  }

  /** Taking an item out of the queue moves its value to the worker. */
  lemma TakeConserves(s: State, v: int)
    requires Conserved(s, v) && (s.worker.Idle? || s.worker.Draining?)
    ensures Conserved(WorkerStep(s), v)
  {
    hide Stored, Held, Pending;
    if s.head < |s.log| {
      PendingHead(s.log, s.head, v);
    }
  }

  /** Telling onExit of a value hands it over. */
  lemma TellConserves(s: State, v: int)
    requires Conserved(s, v)
    requires s.worker.Rejecting? || s.worker.ExitVictim? || s.worker.ExitRemoved? || s.worker.ExitCleaned? ||
      s.worker.ExitDrained?
    ensures Conserved(WorkerStep(s), v)
  {
    hide Stored, Held, Pending;
  }

  lemma WorkerConserves(s: State, v: int)
    requires Conserved(s, v) && s.head <= |s.log|
    requires s.worker.Storing? ==> s.worker.key !in s.store
    ensures Conserved(WorkerStep(s), v)
  {
    hide Stored, Held, Pending;
    match s.worker
    case Idle => TakeConserves(s, v);
    case Draining(_) => TakeConserves(s, v);
    case Rejecting(_, _) => TellConserves(s, v);
    case ExitVictim(_, _) => TellConserves(s, v);
    case ExitRemoved(_) => TellConserves(s, v);
    case ExitCleaned(_, _) => TellConserves(s, v);
    case ExitDrained(_, _) => TellConserves(s, v);
    case Storing(k, x, _) => StoredPut(s.store, k, Entry(x, if s.head > 0 then s.head - 1 else 0), v);
    case Evicting(victims) =>
      if victims != [] {
        StoredDel(s.store, victims[0], v);
      }
    case Removing(k) => StoredDel(s.store, k, v);
    case CleaningKey(k, _) => StoredDel(s.store, k, v);
    case _ =>
  }

  // ---- Store and policy agree ----

  /** Keys that the policy has let go and the worker has yet to take out of the store. */
  function Leaving(w: Worker): set<int> {
    match w
    case Storing(_, _, victims) => KeySet(victims)
    case Rejecting(_, victims) => KeySet(victims)
    case Evicting(victims) => KeySet(victims)
    case ExitVictim(_, victims) => KeySet(victims)
    case Removing(k) => {k}
    case CleaningKey(k, _) => {k}
    case _ => {}
  }

  predicate Deletes(c: Client, key: int) {
    (c.ExitDeleted? || c.SendDelete?) && c.key == key
  }

  /** A deletion of the key is in the queue, about to be put there, or just taken out. */
  ghost predicate DeletePending(s: State, key: int) {
    || (exists q :: s.head <= q < |s.log| && s.log[q] == Delete(key))
    || (exists t :: 0 <= t < |s.clients| && Deletes(s.clients[t], key))
    || s.worker == Forgetting(key)
  }

  predicate Clearing(w: Worker) {
    w.Draining? || w.ExitDrained? || w.Dropping? || w.Emptying?
  }

  /**
   * In every state: what is stored is known to the policy or leaving, and what else it knows is
   * being deleted. Clear drops deletions before it makes the policy forget their keys, and makes
   * the policy forget all keys before it empties the store.
   */
  ghost predicate Agree(s: State) {
    && s.head <= |s.log|
    && (if s.worker.Emptying? then s.policy == {} else s.store.Keys <= s.policy + Leaving(s.worker))
    && Leaving(s.worker) !! s.policy
    && (!Clearing(s.worker) ==> forall k | k in s.policy ::
          k in s.store || DeletePending(s, k) || (s.worker.Storing? && s.worker.key == k))
    && (s.worker.Storing? ==> s.worker.key in s.policy && s.worker.key !in s.store)
  }

  lemma ClientAgrees(s: State, t: nat, wanted: bool)
    requires Agree(s) && t < |s.clients|
    ensures Agree(ClientStep(s, t, wanted))
  {
    var s' := ClientStep(s, t, wanted);
    forall k | k in s'.policy && !Clearing(s'.worker)
      ensures k in s'.store || DeletePending(s', k) || (s'.worker.Storing? && s'.worker.key == k)
    {
      if k in s.store || DeletePending(s, k) {
        ClientKeepsPending(s, t, wanted, k);
      }
    }
  }

  /** A client's step drops no deletion, and a key it removes has one pending afterwards. */
  lemma ClientKeepsPending(s: State, t: nat, wanted: bool, k: int)
    requires s.head <= |s.log| && t < |s.clients| && (k in s.store || DeletePending(s, k))
    ensures var s' := ClientStep(s, t, wanted); k in s'.store || DeletePending(s', k)
  {
    var s' := ClientStep(s, t, wanted);
    if q :| s.head <= q < |s.log| && s.log[q] == Delete(k) {
      assert s'.log[q] == Delete(k);
    } else if u :| 0 <= u < |s.clients| && Deletes(s.clients[u], k) {
      if u != t || Deletes(s'.clients[t], k) {
        assert Deletes(s'.clients[u], k);
      } else {
        assert s'.log[|s.log|] == Delete(k);
      }
    } else if s.worker != Forgetting(k) && k !in s'.store {
      assert Deletes(s'.clients[t], k);
    }
  }

  /** What is stored stays known to the policy or on its way out, and nothing else is on its way out. */
  lemma WorkerLeaves(s: State)
    requires Agree(s)
    ensures var s' := WorkerStep(s);
      && s'.head <= |s'.log| && Leaving(s'.worker) !! s'.policy
      && (if s'.worker.Emptying? then s'.policy == {} else s'.store.Keys <= s'.policy + Leaving(s'.worker))
      && (s'.worker.Storing? ==> s'.worker.key in s'.policy && s'.worker.key !in s'.store)
  {
    hide DeletePending;
    if s.worker.Evicting? && s.worker.victims != [] {
      FirstKey(s.worker.victims);
    }
  }

  /** A key that stays in the policy stays in the store, or its deletion stays pending. */
  lemma WorkerKnows(s: State, k: int)
    requires Agree(s) && k in WorkerStep(s).policy && !Clearing(WorkerStep(s).worker)
    ensures var s' := WorkerStep(s);
      k in s'.store || DeletePending(s', k) || (s'.worker.Storing? && s'.worker.key == k)
  {
    hide DeletePending;
    if s.worker.Evicting? && s.worker.victims != [] {
      FirstKey(s.worker.victims);
    }
    if DeletePending(s, k) && !Clearing(s.worker) {
      WorkerKeepsPending(s, k);
    }
  }

  lemma WorkerAgrees(s: State)
    requires Agree(s)
    ensures Agree(WorkerStep(s))
  {
    hide DeletePending, WorkerStep, Leaving, Clearing;
    var s' := WorkerStep(s);
    WorkerLeaves(s);
    forall k | k in s'.policy && !Clearing(s'.worker)
      ensures k in s'.store || DeletePending(s', k) || (s'.worker.Storing? && s'.worker.key == k)
    {
      WorkerKnows(s, k);
    }
  }

  lemma FirstKey(keys: seq<int>)
    requires keys != []
    ensures KeySet(keys) == {keys[0]} + KeySet(keys[1..])
  {
    forall k | k in KeySet(keys)
      ensures k in {keys[0]} + KeySet(keys[1..])
    {
      var i :| 0 <= i < |keys| && keys[i] == k;
      if i > 0 {
        assert keys[1..][i - 1] == k;
      }
    }
  }

  /** The worker's step drops no deletion of a key that the policy still has. */
  lemma WorkerKeepsPending(s: State, k: int)
    requires DeletePending(s, k) && k in WorkerStep(s).policy && !Clearing(s.worker)
    ensures DeletePending(WorkerStep(s), k)
  {
    var s' := WorkerStep(s);
    if q :| s.head <= q < |s.log| && s.log[q] == Delete(k) {
      if q == s.head && s.worker.Idle? {
        assert s'.worker == Forgetting(k);
      } else {
        assert s'.log[q] == Delete(k) && s'.head <= q;
      }
    } else if u :| 0 <= u < |s.clients| && Deletes(s.clients[u], k) {
      assert Deletes(s'.clients[u], k);
    }
  }

  lemma DecideAgrees(s: State, victims: seq<int>, added: bool)
    requires Agree(s)
    ensures Agree(DecideStep(s, victims, added))
  {
    hide DeletePending;
    var s' := DecideStep(s, victims, added);
    forall k | k in s'.policy && !Clearing(s'.worker)
      ensures k in s'.store || DeletePending(s', k) || (s'.worker.Storing? && s'.worker.key == k)
    {
      if s.worker.Admitting? && k in s.policy && DeletePending(s, k) {
        SamePending(s, s', k);
      }
    }
  }

  lemma SamePending(s: State, s': State, k: int)
    requires DeletePending(s, k) && s'.log == s.log && s'.head == s.head && s'.clients == s.clients
    requires s.worker != Forgetting(k)
    ensures DeletePending(s', k)
  {
  }

  // ---- Nothing comes back ----

  /** The worker has an item in hand, the last one taken out of the queue. */
  predicate HasItem(w: Worker) {
    && !w.Idle? && !w.Cleaning? && !w.CleaningKey? && !w.ExitCleaned?
    && !w.Draining? && !w.Dropping? && !w.Emptying?
  }

  /** Before this place in the queue everything has been carried out, or taken out by Clear. */
  function Done(s: State): int {
    if HasItem(s.worker) then s.head - 1 else s.head
  }

  /** Before this place every deletion has taken its key out of policy and store, for Clear once the store is empty. */
  function Applied(s: State): int {
    if s.worker.Forgetting? || s.worker.Removing? then s.head - 1
    else if Clearing(s.worker) then s.worker.from
    else s.head
  }

  /** The item the worker is at is the last one taken out. */
  ghost predicate AtHead(s: State) {
    && s.head <= |s.log|
    && (s.worker.Admitting? ==> s.head > 0 && s.log[s.head - 1] == New(s.worker.key, s.worker.value))
    && (s.worker.Storing? ==> s.head > 0 && s.log[s.head - 1] == New(s.worker.key, s.worker.value))
    && (HasItem(s.worker) ==> s.head > 0)
    && (s.worker.Rejecting? ==> s.log[s.head - 1].New? && s.log[s.head - 1].value == s.worker.value)
    && (s.worker.ExitDrained? ==>
          (s.log[s.head - 1].Delete? && s.worker.value == Store.NO_VALUE) ||
          (s.log[s.head - 1].New? && s.log[s.head - 1].value == s.worker.value))
    && (s.worker.Forgetting? || s.worker.Removing? ==> s.head > 0 && s.log[s.head - 1] == Delete(s.worker.key))
    && (Clearing(s.worker) ==> s.worker.from <= s.head)
    && (forall t | 0 <= t < |s.clients| && s.clients[t].Waiting? :: s.clients[t].place < |s.log|)
  }

  /** Whatever is stored was set no earlier than every deletion of its key that has been carried out. */
  ghost predicate Recent(s: State) {
    && AtHead(s)
    && forall k, p | k in s.store && s.store[k].since <= p < Applied(s) :: s.log[p] != Delete(k)
  }

  lemma ClientAtHead(s: State, t: nat, wanted: bool)
    requires AtHead(s) && t < |s.clients|
    ensures AtHead(ClientStep(s, t, wanted))
  {
    var s' := ClientStep(s, t, wanted);
    assert s.log <= s'.log && s'.head == s.head && s'.worker == s.worker;
  }

  lemma AppliedWithin(s: State)
    requires AtHead(s)
    ensures Applied(s) <= |s.log|
  {
  }

  /** A client puts in the store only what it is updating, behind all that was queued so far. */
  lemma ClientStores(s: State, t: nat, wanted: bool, k: int)
    requires t < |s.clients| && k in ClientStep(s, t, wanted).store
    ensures var s' := ClientStep(s, t, wanted);
      (k in s.store && s'.store[k] == s.store[k]) || s'.store[k].since == |s.log|
  {
  }

  lemma ClientApplies(s: State, t: nat, wanted: bool)
    requires t < |s.clients|
    ensures Applied(s) == Applied(ClientStep(s, t, wanted)) && s.log <= ClientStep(s, t, wanted).log
  {
  }

  lemma ClientRecent(s: State, t: nat, wanted: bool)
    requires Recent(s) && t < |s.clients|
    ensures Recent(ClientStep(s, t, wanted))
  {
    hide AtHead, Applied, ClientStep;
    ClientAtHead(s, t, wanted);
    ClientApplies(s, t, wanted);
    AppliedWithin(s);
    var s' := ClientStep(s, t, wanted);
    forall k, p | k in s'.store && s'.store[k].since <= p < Applied(s')
      ensures s'.log[p] != Delete(k)
    {
      assert s'.log[p] == s.log[p];
      ClientStores(s, t, wanted, k);
      if k in s.store && s'.store[k] == s.store[k] {
        assert s.log[p] != Delete(k);
      }
    }
  }

  /** A deletion counts as applied only once its key is out of the store. */
  lemma AppliedNow(s: State, k: int, p: nat)
    requires AtHead(s) && Applied(s) <= p < Applied(WorkerStep(s)) && k in WorkerStep(s).store
    ensures p < |s.log| && s.log[p] != Delete(k)
  {
  }

  lemma WorkerLog(s: State)
    requires AtHead(s)
    ensures WorkerStep(s).log == s.log && Applied(WorkerStep(s)) <= |s.log|
  {
  }

  /** What the worker stores is the item it has in hand. */
  lemma StoredNow(s: State, k: int)
    requires AtHead(s) && k in WorkerStep(s).store
    ensures var s' := WorkerStep(s);
      || (k in s.store && s'.store[k] == s.store[k])
      || (s'.store[k].since == s.head - 1 && Applied(s') == s.head && s.log[s.head - 1].New?)
  {
  }

  /** Taking an item puts it in the worker's hand. */
  lemma TakeAtHead(s: State)
    requires AtHead(s) && (s.worker.Idle? || s.worker.Draining?)
    ensures AtHead(WorkerStep(s))
  {
    assert s.head < |s.log| ==> WorkerStep(s).head == s.head + 1;
  }

  lemma WorkerAtHead(s: State)
    requires AtHead(s)
    ensures AtHead(WorkerStep(s))
  {
    if s.worker.Idle? || s.worker.Draining? {
      TakeAtHead(s);
    } else {
      assert WorkerStep(s).head == s.head && WorkerStep(s).clients == s.clients && WorkerStep(s).log == s.log;
    }
  }

  lemma WorkerRecent(s: State)
    requires Recent(s)
    ensures Recent(WorkerStep(s))
  {
    hide AtHead, Applied, WorkerStep;
    var s' := WorkerStep(s);
    WorkerAtHead(s);
    WorkerLog(s);
    forall k, p | k in s'.store && s'.store[k].since <= p < Applied(s')
      ensures s'.log[p] != Delete(k)
    {
      StoredNow(s, k);
      if p >= Applied(s) {
        AppliedNow(s, k, p);
      }
      if k in s.store && s'.store[k] == s.store[k] && p < Applied(s) {
        assert s.log[p] != Delete(k);
      }
    }
  }

  // ---- All interleavings ----

  ghost predicate Inv(s: State) {
    Agree(s) && Recent(s) && forall v :: Conserved(s, v)
  }

  /** A new cache, with any number of clients. */
  ghost predicate Start(s: State) {
    && s.log == [] && s.head == 0 && s.store == map[] && s.policy == {} && Quiet(s)
    && forall v :: s.born(v) == 0 && s.exited(v) == 0 && s.dropped(v) == 0
  }

  lemma {:induction false} NothingHeld(clients: seq<Client>, v: int)
    requires forall t | 0 <= t < |clients| :: clients[t].Free? || clients[t].Waiting?
    ensures Held(clients, v) == 0
  {
    if clients != [] {
      NothingHeld(clients[..|clients| - 1], v);
    }
  }

  lemma StartInv(s: State)
    requires Start(s)
    ensures Inv(s)
  {
    forall v
      ensures Conserved(s, v)
    {
      NothingHeld(s.clients, v);
    }
  }

  /** Starting a call changes nothing but the client and what was born. */
  lemma StartKeeps(s: State, a: Action)
    requires Inv(s) && (a.StartSet? || a.StartDel? || a.StartWait?)
    ensures Inv(Step(s, a))
  {
    hide Stored, Pending, Held;
    var s' := Step(s, a);
    if s' != s {
      forall v
        ensures Conserved(s', v)
      {
        assert Conserved(s, v);
        HeldPut(s.clients, a.t, s'.clients[a.t], v);
      }
      StartAgrees(s, s', a.t);
    }
  }

  lemma StartAgrees(s: State, s': State, t: nat)
    requires Agree(s) && t < |s.clients| && s.clients[t].Free?
    requires s' == s.(clients := s'.clients, born := s'.born) && |s'.clients| == |s.clients|
      && s'.clients == s.clients[t := s'.clients[t]]
    ensures Agree(s')
  {
    forall k | k in s'.policy && !Clearing(s'.worker)
      ensures k in s'.store || DeletePending(s', k) || (s'.worker.Storing? && s'.worker.key == k)
    {
      if DeletePending(s, k) {
        if u :| 0 <= u < |s.clients| && Deletes(s.clients[u], k) {
          assert Deletes(s'.clients[u], k);
        }
      }
    }
  }

  /** Clear beginning, and taking one key out of the store. */
  lemma ClearKeeps(s: State, a: Action)
    requires Inv(s) && (a.StartClear? || a.EmptyKey?)
    ensures Inv(Step(s, a))
  {
    hide Stored, Pending, Held, DeletePending;
    var s' := Step(s, a);
    forall v
      ensures Conserved(s', v)
    {
      assert Conserved(s, v);
      if a.EmptyKey? {
        StoredDel(s.store, a.key, v);
      }
    }
  }

  /** Every step of every client and of the worker keeps all three invariants. */
  lemma StepKeeps(s: State, a: Action)
    requires Inv(s)
    ensures Inv(Step(s, a))
  {
    hide Agree, Recent, Conserved;
    match a
    case StepClient(t, wanted) =>
      if t < |s.clients| {
        ClientAgrees(s, t, wanted);
        ClientRecent(s, t, wanted);
        Heads(s);
        forall v
          ensures Conserved(ClientStep(s, t, wanted), v)
        {
          ClientConserves(s, t, wanted, v);
        }
      }
    case Decide(victims, added) =>
      DecideAgrees(s, victims, added);
      DecideKeeps(s, victims, added);
    case StepWorker =>
      WorkerAgrees(s);
      WorkerRecent(s);
      Heads(s);
      forall v
        ensures Conserved(WorkerStep(s), v)
      {
        WorkerConserves(s, v);
      }
    case StartCleanup(keys) => CleanupKeeps(s, keys);
    case StartClear => ClearKeeps(s, a);
    case EmptyKey(_) => ClearKeeps(s, a);
    case _ => StartKeeps(s, a);
  }

  lemma Heads(s: State)
    requires Agree(s)
    ensures s.head <= |s.log| && (s.worker.Storing? ==> s.worker.key !in s.store)
  {
  }

  lemma DecideKeeps(s: State, victims: seq<int>, added: bool)
    requires Inv(s)
    ensures Recent(DecideStep(s, victims, added)) && forall v :: Conserved(DecideStep(s, victims, added), v)
  {
    hide Stored, Pending, Held, Agree;
    var s' := DecideStep(s, victims, added);
    forall v
      ensures Conserved(s', v)
    {
      assert Conserved(s, v);
    }
  }

  lemma CleanupKeeps(s: State, keys: seq<int>)
    requires Inv(s)
    ensures Inv(Step(s, StartCleanup(keys)))
  {
    hide Stored, Pending, Held;
    var s' := Step(s, StartCleanup(keys));
    if s' != s {
      forall v
        ensures Conserved(s', v)
      {
        assert Conserved(s, v);
      }
      forall k | k in s'.policy
        ensures k in s'.store || DeletePending(s', k)
      {
        if DeletePending(s, k) {
          SamePending(s, s', k);
        }
      }
    }
  }

  lemma {:induction false} RunKeeps(s: State, acts: seq<Action>)
    requires Inv(s)
    ensures Inv(Run(s, acts))
    decreases |acts|
  {
    hide Inv, Step;
    if acts != [] {
      StepKeeps(s, acts[0]);
      RunKeeps(Step(s, acts[0]), acts[1..]);
    }
  }

  /**
   * Conservation: in every interleaving, the times a value was given to Set are the times it is
   * stored, queued, held inside one step, has been told to onExit, or was dropped. So a value set
   * once is told to onExit at most once, and not while it is anywhere else.
   */
  lemma ValuesConserved(s: State, acts: seq<Action>, v: int)
    requires Start(s)
    ensures var e := Run(s, acts);
      var there := Stored(e.store, v) + Pending(e.log, e.head, v) + Held(e.clients, v) + WorkerHolds(e.worker, v);
      && e.born(v) == there + e.exited(v) + e.dropped(v)
      && (e.born(v) == 1 ==> 0 <= e.exited(v) <= 1 && (e.exited(v) == 1 ==> there == 0 && e.dropped(v) == 0))
  {
    hide Stored, Pending, Held, Run;
    StartInv(s);
    RunKeeps(s, acts);
    assert Conserved(Run(s, acts), v);
  }

  /**
   * Between items the store has only keys that the policy has, and every other key of the policy
   * has a deletion pending; with nothing pending the two have the same keys.
   */
  lemma StoreAndPolicyAgree(s: State, acts: seq<Action>)
    requires Start(s)
    ensures var e := Run(s, acts);
      && (e.worker.Idle? ==> e.store.Keys <= e.policy && forall k | k in e.policy - e.store.Keys :: DeletePending(e, k))
      && (Quiet(e) && e.head == |e.log| ==> forall k :: k in e.store <==> k in e.policy)
  {
    hide Run;
    StartInv(s);
    RunKeeps(s, acts);
    var e := Run(s, acts);
    if Quiet(e) && e.head == |e.log| {
      assert forall k | k in e.policy :: !DeletePending(e, k) && k in e.store;
    }
  }

  /** A deletion that has been applied stays so, and the queue's history only grows. */
  lemma AppliedGrows(s: State, a: Action)
    requires AtHead(s)
    ensures Applied(s) <= Applied(Step(s, a)) && s.log <= Step(s, a).log
  {
    hide WorkerStep, ClientStep;
    if a.StepWorker? {
      WorkerApplies(s);
    } else if a.StepClient? && a.t < |s.clients| {
      ClientApplies(s, a.t, a.wanted);
    }
  }

  lemma WorkerApplies(s: State)
    requires AtHead(s)
    ensures Applied(s) <= Applied(WorkerStep(s)) && s.log == WorkerStep(s).log
  {
  }

  lemma {:induction false} RunGrows(s: State, acts: seq<Action>)
    requires Inv(s)
    ensures Applied(s) <= Applied(Run(s, acts)) && s.log <= Run(s, acts).log
    decreases |acts|
  {
    hide Agree, Conserved, Step, Applied, AtHead;
    if acts != [] {
      AppliedGrows(s, acts[0]);
      StepKeeps(s, acts[0]);
      RunGrows(Step(s, acts[0]), acts[1..]);
    }
  }

  /**
   * No resurrection: once the worker has applied the deletion at place `p` of the queue, the
   * key never again has a value whose Set was queued before `p`.
   */
  lemma NoResurrection(s: State, acts: seq<Action>, p: nat, k: int)
    requires Inv(s) && p < Applied(s) && s.log[p] == Delete(k)
    ensures var e := Run(s, acts); k in e.store ==> e.store[k].since > p
  {
    hide Run;
    RunKeeps(s, acts);
    RunGrows(s, acts);
    var e := Run(s, acts);
    assert e.log[p] == Delete(k);
  }

  // ---- Waiting ----

  /** The new item at place `q` is still to come, or in the worker's hand and neither stored nor refused yet. */
  ghost predicate Unsettled(s: State, q: nat) {
    || q >= s.head
    || (q == s.head - 1 &&
        (s.worker.Admitting? || s.worker.Storing? || s.worker.Rejecting? || s.worker.ExitDrained?))
  }

  /** This step puts the new item at place `q` into the store, or tells onExit of its value. */
  ghost predicate Settles(s: State, a: Action, q: nat) {
    a.StepWorker? && q == s.head - 1 && (s.worker.Storing? || s.worker.Rejecting? || s.worker.ExitDrained?)
  }

  /** The value at place `q` goes into the store under its key, or onExit is told of it. */
  ghost predicate StoredOrTold(s: State, s': State, q: nat)
    requires q < |s.log| && s.log[q].New?
  {
    var k, v := s.log[q].key, s.log[q].value;
    (k in s'.store && s'.store[k] == Entry(v, q)) || s'.exited(v) >= s.exited(v) + Hit(v, v)
  }

  lemma SettlesMeans(s: State, a: Action, q: nat)
    requires Inv(s) && q < |s.log| && s.log[q].New? && Settles(s, a, q)
    ensures StoredOrTold(s, Step(s, a), q)
  {
  }

  lemma UnsettledStep(s: State, a: Action, q: nat)
    requires Inv(s) && Unsettled(s, q) && !Settles(s, a, q) && (q < |s.log| ==> s.log[q].New?)
    ensures Unsettled(Step(s, a), q)
  {
    hide Conserved, Stored, Pending;
  }

  /** A new item that is settled in the end was settled by one step of the run. */
  lemma {:induction false} SettledOnce(s: State, acts: seq<Action>, q: nat) returns (j: nat)
    requires Inv(s) && Unsettled(s, q) && !Unsettled(Run(s, acts), q)
    requires q < |Run(s, acts).log| && Run(s, acts).log[q].New?
    ensures j < |acts| && Settles(Run(s, acts[..j]), acts[j], q)
    ensures var b := Run(s, acts[..j]); Inv(b) && q < |b.log| && b.log[q] == Run(s, acts).log[q]
    decreases |acts|
  {
    hide Inv, Step, Unsettled, Settles;
    RunGrows(s, acts);
    if Settles(s, acts[0], q) {
      SettledLog(s, acts[0], q);
      j := 0;
    } else {
      UnsettledStep(s, acts[0], q);
      StepKeeps(s, acts[0]);
      var i := SettledOnce(Step(s, acts[0]), acts[1..], q);
      j := i + 1;
      assert acts[..j][1..] == acts[1..][..i];
    }
  }

  lemma SettledLog(s: State, a: Action, q: nat)
    requires Inv(s) && Settles(s, a, q)
    ensures q < |s.log|
  {
  }

  lemma DoneIsSettled(s: State, q: nat)
    requires Inv(s) && q < Done(s)
    ensures !Unsettled(s, q)
  {
  }

  /**
   * When Wait comes back, every new item queued before it is out of the queue and out of the
   * worker's hand, and at some step of the run it went into the store or onExit was told of it.
   */
  lemma WaitReturns(s: State, acts: seq<Action>, t: nat, wanted: bool, q: nat) returns (j: nat)
    requires Start(s)
    requires var e := Run(s, acts);
      && t < |e.clients| && e.clients[t].Waiting? && ClientStep(e, t, wanted).clients[t].Free?
      && q < e.clients[t].place && q < |e.log| && e.log[q].New?
    ensures q < Done(Run(s, acts))
    ensures j < |acts| && q < |Run(s, acts[..j]).log| && Run(s, acts[..j]).log[q] == Run(s, acts).log[q]
    ensures StoredOrTold(Run(s, acts[..j]), Step(Run(s, acts[..j]), acts[j]), q)
  {
    hide Run, Inv, Step, Settles;
    StartInv(s);
    RunKeeps(s, acts);
    DoneIsSettled(Run(s, acts), q);
    j := SettledOnce(s, acts, q);
    SettlesMeans(Run(s, acts[..j]), acts[j], q);
  }

  // ---- Clear ----

  /** No client is inside a call, but some may be waiting; the worker is between items. */
  predicate Resting(s: State) {
    s.worker.Idle? && AllResting(s.clients)
  }

  predicate AllResting(clients: seq<Client>) {
    forall t | 0 <= t < |clients| :: clients[t].Free? || clients[t].Waiting?
  }

  /** Clear goes on, and waiting clients look whether they may go. */
  predicate GoesOn(a: Action) {
    a.StepWorker? || a.EmptyKey? || a.StepClient?
  }

  /** How far a Clear that began in `b` has come: nothing new happens, and each of its parts is done in turn. */
  ghost predicate InClear(b: State, s: State) {
    && AllResting(s.clients) && s.log == b.log && s.born == b.born && s.dropped == b.dropped
    && (Clearing(s.worker) || s.worker.Idle?)
    && (!s.worker.Draining? && !s.worker.ExitDrained? ==> s.head == |s.log|)
    && (s.worker.Idle? ==> s.store == map[] && s.policy == {})
  }

  lemma InClearStep(b: State, s: State, a: Action)
    requires Inv(s) && InClear(b, s) && GoesOn(a)
    ensures Inv(Step(s, a)) && InClear(b, Step(s, a))
  {
    hide Conserved, Recent;
    StepKeeps(s, a);
  }

  lemma {:induction false} InClearRun(b: State, s: State, acts: seq<Action>)
    requires Inv(s) && InClear(b, s) && forall i | 0 <= i < |acts| :: GoesOn(acts[i])
    ensures Inv(Run(s, acts)) && InClear(b, Run(s, acts))
    decreases |acts|
  {
    hide Inv, Step, InClear, GoesOn;
    if acts != [] {
      InClearStep(b, s, acts[0]);
      InClearRun(b, Step(s, acts[0]), acts[1..]);
    }
  }

  /**
   * When Clear is through, with no other call begun meanwhile, everything is empty; onExit has been
   * told of exactly the new values that were in the queue and the values that were in the store;
   * and every waiting client may go.
   */
  lemma ClearTells(s: State, acts: seq<Action>)
    requires Inv(s) && Resting(s) && forall i | 0 <= i < |acts| :: GoesOn(acts[i])
    requires Run(Step(s, StartClear), acts).worker.Idle?
    ensures var e := Run(Step(s, StartClear), acts);
      && e.store == map[] && e.policy == {} && e.log == s.log && e.head == |e.log|
      && (forall v :: e.exited(v) == s.exited(v) + Pending(s.log, s.head, v) + Stored(s.store, v))
      && forall t, wanted | 0 <= t < |e.clients| :: ClientStep(e, t, wanted).clients[t].Free?
  {
    hide Run, Stored, Pending, Held;
    var b := Step(s, StartClear);
    StepKeeps(s, StartClear);
    InClearRun(s, b, acts);
    var e := Run(b, acts);
    forall v
      ensures e.exited(v) == s.exited(v) + Pending(s.log, s.head, v) + Stored(s.store, v)
    {
      assert Conserved(s, v) && Conserved(e, v);
      NothingHeld(s.clients, v);
      NothingHeld(e.clients, v);
      NothingLeft(e.log, v);
    }
  }

  lemma NothingLeft(log: seq<QItem>, v: int)
    ensures Pending(log, |log|, v) == 0 && Stored(map[], v) == 0
  {
  }

  /** And it does get through: some steps of its own finish it. */
  lemma ClearEnds(s: State) returns (acts: seq<Action>)
    requires Inv(s) && Resting(s)
    ensures forall i | 0 <= i < |acts| :: GoesOn(acts[i])
    ensures Run(Step(s, StartClear), acts).worker.Idle?
  {
    hide Run;
    StepKeeps(s, StartClear);
    acts := Finish(s, Step(s, StartClear));
  }

  /** What Clear has left to do: its part, and how much there is of it. */
  function Part(w: Worker): nat {
    if w.Draining? || w.ExitDrained? then 3 else if w.Dropping? then 2 else if w.Emptying? then 1 else 0
  }

  function ToDrain(s: State): int {
    2 * (|s.log| - s.head) + if s.worker.ExitDrained? then 1 else 0
  }

  /** Draining, and each change to the next part, brings Clear closer to its end. */
  lemma WorkStep(s: State)
    requires s.head <= |s.log| && Clearing(s.worker) && (s.worker.Emptying? ==> s.store == map[])
    ensures var s' := WorkerStep(s);
      && ToDrain(s') >= 0
      && (Part(s'.worker) < Part(s.worker) || (Part(s'.worker) == Part(s.worker) && ToDrain(s') < ToDrain(s)))
  {
  }

  /** So does taking a key out of the store. */
  lemma EmptyStep(s: State, k: int)
    requires s.head <= |s.log| && s.worker.Emptying? && k in s.store
    ensures var s' := Emptied(s, k);
      && ToDrain(s') == ToDrain(s) >= 0 && Part(s'.worker) == Part(s.worker) && |s'.store| < |s.store|
  {
    Fewer(s.store, k);
  }

  lemma NextStep(s: State) returns (a: Action)
    requires s.head <= |s.log| && Clearing(s.worker)
    ensures GoesOn(a) && ToDrain(Step(s, a)) >= 0
    ensures var s' := Step(s, a);
      || Part(s'.worker) < Part(s.worker)
      || (Part(s'.worker) == Part(s.worker) && ToDrain(s') < ToDrain(s))
      || (Part(s'.worker) == Part(s.worker) && ToDrain(s') == ToDrain(s) && |s'.store| < |s.store|)
  {
    hide Part, ToDrain, WorkerStep, Emptied;
    if s.worker.Emptying? && s.store != map[] {
      var k := HasElement(s.store.Keys);
      EmptyStep(s, k);
      a := EmptyKey(k);
    } else {
      WorkStep(s);
      a := StepWorker;
    }
  }

  lemma StillClearing(b: State, s: State)
    requires Inv(s) && InClear(b, s) && !s.worker.Idle?
    ensures s.head <= |s.log| && Clearing(s.worker)
  {
  }

  lemma Fewer(m: map<int, Entry>, k: int)
    requires k in m
    ensures |m - {k}| < |m|
  {
    assert (m - {k}).Keys == m.Keys - {k};
  }

  lemma {:induction false} Finish(b: State, s: State) returns (acts: seq<Action>)
    requires Inv(s) && InClear(b, s) && ToDrain(s) >= 0
    ensures forall i | 0 <= i < |acts| :: GoesOn(acts[i])
    ensures Run(s, acts).worker.Idle?
    decreases Part(s.worker), ToDrain(s), |s.store|
  {
    hide Inv, Step, InClear, GoesOn, Part, ToDrain;
    if s.worker.Idle? {
      acts := [];
    } else {
      StillClearing(b, s);
      var a := NextStep(s);
      InClearStep(b, s, a);
      var rest := Finish(b, Step(s, a));
      acts := [a] + rest;
      assert acts[1..] == rest;
    }
  }
}
