/** The calls of cache.go as a whole, and the store and the policy underneath the steps. */
module CacheCalls {
  import opened Cache
  import opened Collections
  import Policy
  import Store

  // ---- The steps are what store and policy do ----

  /** The store has the keys and values of the step system. */
  ghost predicate Shows(m: Store.ShardedMap, store: map<int, Entry>)
    requires |m.shards| == Store.SHARDS
    reads m.shards
  {
    forall k ::
      && (m.Lookup(k).None? <==> k !in store)
      && (k in store && m.Lookup(k).Some? ==> m.Lookup(k).value.value == store[k].value)
  }

  /** The update inside SetWithTTL. It is wanted if the conflict matches and the callback says so. */
  method UpdateStep(m: Store.ShardedMap, item: Store.Item, ghost s: State, ghost t: nat)
    returns (prev: int, ok: bool, ghost wanted: bool)
    requires m.Valid() && |m.shards| == Store.SHARDS && Shows(m, s.store)
    requires t < |s.clients| && s.clients[t] == Updating(item.key, item.entry.value)
    modifies m.shards, m.em`buckets
    ensures m.Valid() && Shows(m, ClientStep(s, t, wanted).store)
    ensures var e := old(m.Lookup(item.key));
      e.Some? ==>
        (wanted <==> (item.entry.conflict == 0 || item.entry.conflict == e.value.conflict) &&
                     m.shouldUpdate(item.entry.value, e.value.value))
    ensures ClientStep(s, t, wanted).clients[t] ==
      if ok then ExitPrev(item.key, prev) else SendNew(item.key, item.entry.value)
  {
    hide Store.ShardedMap.Valid, Store.ShardedMap.Shape;
    wanted := m.Accepts(item);
    ghost var e := m.Lookup(item.key);
    prev, ok := m.Update(item);
    assert ok <==> item.key in s.store && wanted;
  }

  /** The deletion inside Del. */
  method DelStep(m: Store.ShardedMap, key: int, conflict: int, ghost s: State, ghost t: nat, ghost wanted: bool)
    returns (value: int)
    requires m.Valid() && |m.shards| == Store.SHARDS && Shows(m, s.store)
    requires var e := m.Lookup(key); e.Some? ==> conflict == 0 || conflict == e.value.conflict
    requires t < |s.clients| && s.clients[t] == Deleting(key)
    modifies m.shards, m.em`buckets
    ensures m.Valid() && Shows(m, ClientStep(s, t, wanted).store)
    ensures ClientStep(s, t, wanted).clients[t] == ExitDeleted(key, value)
  {
    hide Store.ShardedMap.Valid, Store.ShardedMap.Shape;
    var _, v := m.Del(key, conflict);
    value := v;
  }

  /** The worker stores an item that the policy has added. */
  method SetStep(m: Store.ShardedMap, item: Store.Item, ghost s: State)
    requires m.Valid() && |m.shards| == Store.SHARDS && Shows(m, s.store)
    requires s.worker.Storing? && s.worker.key == item.key && s.worker.value == item.entry.value
    requires item.key !in s.store
    modifies m.shards, m.em`buckets
    ensures m.Valid() && Shows(m, WorkerStep(s).store)
  {
    hide Store.ShardedMap.Valid, Store.ShardedMap.Shape;
    m.Set(item);
  }

  /** The worker takes a victim of the policy out of the store. */
  method VictimStep(m: Store.ShardedMap, ghost s: State, victim: int) returns (value: int)
    requires m.Valid() && |m.shards| == Store.SHARDS && Shows(m, s.store)
    requires s.worker.Evicting? && s.worker.victims != [] && s.worker.victims[0] == victim
    modifies m.shards, m.em`buckets
    ensures m.Valid() && Shows(m, WorkerStep(s).store)
    ensures WorkerStep(s).worker == ExitVictim(value, s.worker.victims[1..])
  {
    hide Store.ShardedMap.Valid, Store.ShardedMap.Shape;
    var _, v := m.Del(victim, 0);
    value := v;
  }

  /** The worker carries out a deletion, or removes a key that has expired. */
  method RemoveStep(m: Store.ShardedMap, key: int, conflict: int, ghost s: State) returns (value: int)
    requires m.Valid() && |m.shards| == Store.SHARDS && Shows(m, s.store)
    requires var e := m.Lookup(key); e.Some? ==> conflict == 0 || conflict == e.value.conflict
    requires (s.worker.Removing? || s.worker.CleaningKey?) && s.worker.key == key
    modifies m.shards, m.em`buckets
    ensures m.Valid() && Shows(m, WorkerStep(s).store)
    ensures WorkerStep(s).worker ==
      if s.worker.Removing? then ExitRemoved(value) else ExitCleaned(value, s.worker.keys)
  {
    hide Store.ShardedMap.Valid, Store.ShardedMap.Shape;
    var _, v := m.Del(key, conflict);
    value := v;
  }

  /** The policy's answer to an item in the worker's hand, and its keys afterwards. */
  method AddStep(p: Policy.DefaultPolicy, key: Policy.Key, cost: int, ghost s: State)
    returns (victims: seq<int>, added: bool)
    requires p.Valid() && forall k :: k in s.policy <==> k in p.evict.keyCosts
    requires s.worker.Admitting? && s.worker.key == key
    modifies p.evict`used, p.evict`keyCosts, p.evict.metrics.all
    ensures p.Valid() && forall k :: k in DecideStep(s, victims, added).policy <==> k in p.evict.keyCosts
    ensures DecideStep(s, victims, added).worker ==
      if added then Storing(key, s.worker.value, victims) else Rejecting(s.worker.value, victims)
  {
    hide KeySet, Policy.DefaultPolicy.Valid;
    ghost var costs := p.evict.keyCosts;
    victims, added := AskPolicy(p, key, cost);
    assert forall k | k in costs.Keys :: k in s.policy;
    assert MayDecide(s.policy, key, victims, added);
  }

  /** The policy forgets a key that is deleted or has expired. */
  method ForgetStep(p: Policy.DefaultPolicy, key: Policy.Key, ghost s: State)
    requires p.Valid() && forall k :: k in s.policy <==> k in p.evict.keyCosts
    requires (s.worker.Forgetting? && s.worker.key == key) ||
      (s.worker.Cleaning? && s.worker.keys != [] && s.worker.keys[0] == key)
    modifies p.evict`used, p.evict`keyCosts, p.evict.metrics.all
    ensures p.Valid() && forall k :: k in WorkerStep(s).policy <==> k in p.evict.keyCosts
  {
    hide Policy.DefaultPolicy.Valid;
    p.Del(key);
  }

  // ---- What a key reads ----

  function Reads(s: State, key: int): Option<int> {
    if key in s.store then Some(s.store[key].value) else None
  }

  /**
   * Whatever the interleaving, what a key reads changes only by a client's wanted update or its
   * deletion, or by the worker storing it, evicting it, deleting it, cleaning it up or clearing it.
   */
  lemma OnlyTheseChange(s: State, a: Action, k: int)
    requires Reads(Step(s, a), k) != Reads(s, k)
    ensures
      || (a.StepClient? && a.t < |s.clients| && s.clients[a.t].Updating? && s.clients[a.t].key == k && a.wanted &&
          k in s.store && Reads(Step(s, a), k) == Some(s.clients[a.t].value))
      || (a.StepClient? && a.t < |s.clients| && s.clients[a.t] == Deleting(k) && Reads(Step(s, a), k) == None)
      || (a == StepWorker && s.worker.Storing? && s.worker.key == k &&
          Reads(Step(s, a), k) == Some(s.worker.value))
      || (a == StepWorker && Reads(Step(s, a), k) == None &&
          (s.worker == Removing(k) || (s.worker.CleaningKey? && s.worker.key == k) ||
           (s.worker.Evicting? && s.worker.victims != [] && s.worker.victims[0] == k)))
      || (a == EmptyKey(k) && s.worker.Emptying? && Reads(Step(s, a), k) == None)
  {
  }

  /**
   * In any state, with any other calls under way: a wanted update of a key that is there makes it
   * read the new value, and onExit is told of the old one next. Otherwise the store stays as it is
   * and the item is sent.
   */
  lemma UpdateAtOnce(s: State, t: nat, wanted: bool, k: int, v: int)
    requires t < |s.clients| && s.clients[t] == Updating(k, v)
    ensures var e := Step(s, StepClient(t, wanted));
      && (forall j :: Reads(e, j) == if j == k && wanted && k in s.store then Some(v) else Reads(s, j))
      && e == s.(store := e.store, clients := e.clients)
      && e.clients == s.clients[t := if wanted && k in s.store then ExitPrev(k, s.store[k].value) else SendNew(k, v)]
  {
  }

  /** Del takes the key out of the store in the client's own step, and onExit is told of its value next. */
  lemma DeleteAtOnce(s: State, t: nat, wanted: bool, k: int)
    requires t < |s.clients| && s.clients[t] == Deleting(k)
    ensures var e := Step(s, StepClient(t, wanted));
      && (forall j :: Reads(e, j) == if j == k then None else Reads(s, j))
      && e == s.(store := e.store, clients := e.clients)
      && e.clients == s.clients[t := ExitDeleted(k, if k in s.store then s.store[k].value else Store.NO_VALUE)]
  {
  }

  /** An item that the policy adds is the one that is stored next, and one that it rejects is told of next. */
  lemma AdmitThenStore(s: State, k: int, v: int, victims: seq<int>, added: bool)
    ensures s.worker == Admitting(k, v) && MayDecide(s.policy, k, victims, added) ==>
      var e := Step(s, Decide(victims, added));
      && e == s.(policy := e.policy, worker := e.worker)
      && (forall j :: j in e.policy <==> (j in s.policy && j !in victims) || (added && j == k))
      && e.worker == if added then Storing(k, v, victims) else Rejecting(v, victims)
    ensures s.worker == Storing(k, v, victims) ==>
      var e := Step(s, StepWorker);
      e.worker == Evicting(victims) && forall j :: Reads(e, j) == if j == k then Some(v) else Reads(s, j)
    ensures s.worker == Rejecting(v, victims) ==>
      var e := Step(s, StepWorker);
      e.worker == Evicting(victims) && e.store == s.store && forall w :: e.exited(w) == s.exited(w) + Hit(v, w)
  {
    KeySetIs(victims);
  }

  // ---- Whole calls ----

  /** This many steps of one client, with nobody else in between. */
  function ClientSteps(s: State, t: nat, wanted: bool, n: nat): State
    decreases n
  {
    if n == 0 then s else ClientSteps(Step(s, StepClient(t, wanted)), t, wanted, n - 1)
  }

  /** Everything but one client, the store, the queue and what onExit was told is the same. */
  ghost predicate SameElse(s: State, e: State) {
    && e.clients == s.clients && e.policy == s.policy && e.worker == s.worker && e.head == s.head
  }

  /**
   * SetWithTTL of a key that is there, when the update is wanted: it reads the new value at once,
   * all other keys read as before, and onExit is told of the old value. The cost update is queued
   * unless the queue is full.
   */
  lemma SetOverwrites(s: State, t: nat, k: int, v: int)
    requires t < |s.clients| && s.clients[t].Free? && k in s.store
    ensures var e := ClientSteps(Step(s, StartSet(t, k, v)), t, true, 3);
      && SameElse(s, e)
      && (forall j :: Reads(e, j) == if j == k then Some(v) else Reads(s, j))
      && e.log == s.log + (if |s.log| - s.head < 32768 then [Updated(k)] else [])
      && forall w :: e.exited(w) == s.exited(w) + Hit(s.store[k].value, w) && e.dropped(w) == s.dropped(w)
  {
    var s1 := Step(s, StartSet(t, k, v));
    var s2 := Step(s1, StepClient(t, true));
    var s3 := Step(s2, StepClient(t, true));
    var s4 := Step(s3, StepClient(t, true));
    assert ClientSteps(s1, t, true, 3) == ClientSteps(s2, t, true, 2) == ClientSteps(s3, t, true, 1) == s4;
  }

  /** SetWithTTL of any other key: the store stays, and the item is queued, or dropped if the queue is full. */
  lemma SetQueues(s: State, t: nat, k: int, v: int, wanted: bool)
    requires t < |s.clients| && s.clients[t].Free? && (k !in s.store || !wanted)
    ensures var e := ClientSteps(Step(s, StartSet(t, k, v)), t, wanted, 2);
      && SameElse(s, e) && e.store == s.store
      && e.log == s.log + (if |s.log| - s.head < 32768 then [New(k, v)] else [])
      && forall w ::
        e.exited(w) == s.exited(w) &&
        e.dropped(w) == s.dropped(w) + if |s.log| - s.head < 32768 then 0 else Hit(v, w)
  {
    var s1 := Step(s, StartSet(t, k, v));
    var s2 := Step(s1, StepClient(t, wanted));
    var s3 := Step(s2, StepClient(t, wanted));
    assert ClientSteps(s1, t, wanted, 2) == ClientSteps(s2, t, wanted, 1) == s3;
  }

  /** Del: the key is gone at once, and onExit is told of its value; the deletion is queued when there is room. */
  lemma DelRemoves(s: State, t: nat, k: int, wanted: bool)
    requires t < |s.clients| && s.clients[t].Free?
    ensures var e := ClientSteps(Step(s, StartDel(t, k)), t, wanted, 3);
      && e.policy == s.policy && e.worker == s.worker && e.head == s.head
      && (forall j :: Reads(e, j) == if j == k then None else Reads(s, j))
      && (if |s.log| - s.head < 32768
          then e.clients == s.clients && e.log == s.log + [Delete(k)]
          else e.clients == s.clients[t := SendDelete(k)] && e.log == s.log)
      && forall w ::
        e.exited(w) == s.exited(w) + (if k in s.store then Hit(s.store[k].value, w) else 0) &&
        e.dropped(w) == s.dropped(w)
  {
    var s1 := Step(s, StartDel(t, k));
    var s2 := Step(s1, StepClient(t, wanted));
    var s3 := Step(s2, StepClient(t, wanted));
    var s4 := Step(s3, StepClient(t, wanted));
    assert ClientSteps(s1, t, wanted, 3) == ClientSteps(s2, t, wanted, 2) == ClientSteps(s3, t, wanted, 1) == s4;
    DelTakes(s, t, k, wanted);
    hide ClientSteps;
    assert s4.store == s3.store && s4.exited == s3.exited;
  }

  lemma DelTakes(s: State, t: nat, k: int, wanted: bool)
    requires t < |s.clients| && s.clients[t].Free?
    ensures var e := Step(Step(Step(s, StartDel(t, k)), StepClient(t, wanted)), StepClient(t, wanted));
      && e == s.(clients := s.clients[t := SendDelete(k)], store := s.store - {k}, exited := e.exited)
      && forall w :: e.exited(w) == s.exited(w) + if k in s.store then Hit(s.store[k].value, w) else 0
  {
  }

  /** Wait queues a marker, and goes on exactly once the marker has been taken out. */
  lemma WaitGoesOn(s: State, t: nat, wanted: bool)
    requires t < |s.clients|
    ensures s.clients[t].Free? && |s.log| - s.head < 32768 ==>
      var e := ClientSteps(Step(s, StartWait(t)), t, wanted, 1);
      e == s.(clients := s.clients[t := Waiting(|s.log|)], log := s.log + [Marker])
    ensures s.clients[t].Waiting? ==>
      Step(s, StepClient(t, wanted)) ==
        if s.head > s.clients[t].place then s.(clients := s.clients[t := Free]) else s
  {
    var s1 := Step(s, StartWait(t));
    var s2 := Step(s1, StepClient(t, wanted));
    assert ClientSteps(s1, t, wanted, 1) == s2;
  }

  // ---- Whole items ----

  /** This many steps of the worker, with nobody else in between. */
  function WorkerSteps(s: State, n: nat): State
    decreases n
  {
    if n == 0 then s else WorkerSteps(Step(s, StepWorker), n - 1)
  }

  lemma {:induction false} WorkerStepsAdd(s: State, m: nat, n: nat)
    ensures WorkerSteps(s, m + n) == WorkerSteps(WorkerSteps(s, m), n)
    decreases m
  {
    hide Step;
    if m > 0 {
      WorkerStepsAdd(Step(s, StepWorker), m - 1, n);
    }
  }

  /** Whatever left the store, onExit was told of. */
  ghost predicate ToldOfAll(s: State, e: State) {
    forall w :: e.exited(w) + Stored(e.store, w) == s.exited(w) + Stored(s.store, w)
  }

  /** All victims go, one after the other, and onExit is told of each value. */
  lemma {:induction false} VictimsGo(s: State)
    requires s.worker.Evicting?
    ensures var e := WorkerSteps(s, 2 * |s.worker.victims| + 1);
      && e == s.(worker := Idle, store := s.store - KeySet(s.worker.victims), exited := e.exited)
      && ToldOfAll(s, e)
    decreases |s.worker.victims|
  {
    hide Stored, KeySet;
    var victims := s.worker.victims;
    if victims == [] {
      hide ToldOfAll;
      NoneLess(s.store, s.policy);
      assert WorkerSteps(s, 1) == Step(s, StepWorker);
      ToldNothing(s, Step(s, StepWorker));
    } else {
      OneEvicted(s);
      hide Step, WorkerSteps, ToldOfAll;
      var s2 := WorkerSteps(s, 2);
      VictimsGo(s2);
      OneLess(s.store, s.policy, victims);
      assert 2 * |victims| + 1 == 2 + (2 * |victims[1..]| + 1);
      WorkerStepsAdd(s, 2, 2 * |victims[1..]| + 1);
      ToldTwice(s, s2, WorkerSteps(s2, 2 * |victims[1..]| + 1));
    }
  }

  lemma OneEvicted(s: State)
    requires s.worker.Evicting? && s.worker.victims != []
    ensures var e, victims := WorkerSteps(s, 2), s.worker.victims;
      && e == s.(worker := Evicting(victims[1..]), store := s.store - {victims[0]}, exited := e.exited)
      && ToldOfAll(s, e)
  {
    hide Stored, Hit, ValueAt, WorkerSteps, ToldOfAll, Exit;
    var k, rest := s.worker.victims[0], s.worker.victims[1..];
    var s1 := s.(store := s.store - {k}, worker := ExitVictim(ValueAt(s.store, k), rest));
    var e := Exit(s1.(worker := Evicting(rest)), ValueAt(s.store, k));
    assert Step(s, StepWorker) == s1 && Step(s1, StepWorker) == e;
    FirstSteps(s);
    hide Step;
    ExitTold(s1.(worker := Evicting(rest)), ValueAt(s.store, k));
    ToldOne(s, e, k);
  }

  lemma ExitTold(s: State, value: int)
    ensures var e := Exit(s, value);
      e == s.(exited := e.exited) && forall w :: e.exited(w) == s.exited(w) + Hit(value, w)
  {
    hide Hit;
  }

  lemma FirstSteps(s: State)
    ensures WorkerSteps(s, 2) == Step(Step(s, StepWorker), StepWorker)
    ensures WorkerSteps(s, 3) == Step(Step(Step(s, StepWorker), StepWorker), StepWorker)
  {
    hide Step;
    var s1 := Step(s, StepWorker);
    var s2 := Step(s1, StepWorker);
    assert WorkerSteps(s, 2) == WorkerSteps(s1, 1) == s2;
    assert WorkerSteps(s, 3) == WorkerSteps(s1, 2) == WorkerSteps(s2, 1);
  }

  lemma NoneLess(store: map<int, Entry>, policy: set<int>)
    ensures store - KeySet([]) == store && policy - KeySet([]) == policy
  {
    NoVictims();
  }

  lemma ToldNothing(s: State, e: State)
    requires e.exited == s.exited && e.store == s.store
    ensures ToldOfAll(s, e)
  {
    hide Stored;
  }

  lemma OneLess(store: map<int, Entry>, policy: set<int>, keys: seq<int>)
    requires keys != []
    ensures store - {keys[0]} - KeySet(keys[1..]) == store - KeySet(keys)
    ensures policy - {keys[0]} - KeySet(keys[1..]) == policy - KeySet(keys)
  {
    hide KeySet;
    FirstKey(keys);
  }

  lemma ToldTwice(s: State, s': State, e: State)
    requires ToldOfAll(s, s') && ToldOfAll(s', e)
    ensures ToldOfAll(s, e)
  {
    hide Stored;
  }

  /**
   * The worker takes a new item and the policy answers: if it is added the key reads its value, and
   * if not, onExit is told of it; the victims are gone; all other keys read as before; and onExit is
   * told of exactly the values that left the store.
   */
  lemma NewItem(s: State, k: int, v: int, victims: seq<int>, added: bool)
    requires Agree(s) && s.worker.Idle? && s.head < |s.log| && s.log[s.head] == New(k, v)
    requires MayDecide(s.policy, k, victims, added)
    ensures var e := WorkerSteps(Step(Step(s, StepWorker), Decide(victims, added)), 2 * |victims| + 2);
      && e == s.(worker := Idle, head := s.head + 1, policy := e.policy, store := e.store, exited := e.exited)
      && (forall j :: j in e.policy <==> (j in s.policy && j !in victims) || (added && j == k))
      && (forall j :: Reads(e, j) == if added && j == k then Some(v) else if j in victims then None else Reads(s, j))
      && forall w :: e.exited(w) + Stored(e.store, w) == s.exited(w) + Stored(s.store, w) + Hit(v, w)
  {
    hide Agree, Stored, KeySet, Hit;
    var s1 := Step(Step(s, StepWorker), Decide(victims, added));
    var s2 := Step(s1, StepWorker);
    assert k !in victims || !added;
    assert added ==> k !in s.store by { NotStored(s, k); }
    ItemHandled(s, k, v, victims, added);
    hide Step, ToldOfAll;
    VictimsGo(s2);
    var e := WorkerSteps(s2, 2 * |victims| + 1);
    assert WorkerSteps(s1, 2 * |victims| + 2) == e;
    KeySetIs(victims);
    ToldMore(s, s2, e, v);
  }

  /** Before its victims go, an item is in the store, or onExit was told of it. */
  lemma ItemHandled(s: State, k: int, v: int, victims: seq<int>, added: bool)
    requires s.worker.Idle? && s.head < |s.log| && s.log[s.head] == New(k, v)
    requires MayDecide(s.policy, k, victims, added) && (added ==> k !in s.store)
    ensures var e := Step(Step(Step(s, StepWorker), Decide(victims, added)), StepWorker);
      && e == s.(worker := Evicting(victims), head := s.head + 1, policy := e.policy, store := e.store,
                 exited := e.exited)
      && e.policy == s.policy - KeySet(victims) + (if added then {k} else {})
      && e.store == (if added then s.store[k := Entry(v, s.head)] else s.store)
      && forall w :: e.exited(w) + Stored(e.store, w) == s.exited(w) + Stored(s.store, w) + Hit(v, w)
  {
    hide Stored, KeySet, Hit;
    var e := Step(Step(Step(s, StepWorker), Decide(victims, added)), StepWorker);
    assert forall w :: e.exited(w) == s.exited(w) + if added then 0 else Hit(v, w);
    assert e.store == if added then s.store[k := Entry(v, s.head)] else s.store;
    forall w
      ensures e.exited(w) + Stored(e.store, w) == s.exited(w) + Stored(s.store, w) + Hit(v, w)
    {
      if added {
        StoredPut(s.store, k, Entry(v, s.head), w);
        NothingAt(s.store, k, w);
      }
    }
  }

  lemma NothingAt(store: map<int, Entry>, k: int, w: int)
    requires k !in store
    ensures Hit(ValueAt(store, k), w) == 0
  {
  }

  lemma KeySetIs(keys: seq<int>)
    ensures forall j :: j in KeySet(keys) <==> j in keys
  {
  }

  lemma ToldMore(s: State, s': State, e: State, v: int)
    requires forall w :: s'.exited(w) + Stored(s'.store, w) == s.exited(w) + Stored(s.store, w) + Hit(v, w)
    requires ToldOfAll(s', e)
    ensures forall w :: e.exited(w) + Stored(e.store, w) == s.exited(w) + Stored(s.store, w) + Hit(v, w)
  {
    hide Stored, Hit;
  }

  lemma NotStored(s: State, k: int)
    requires Agree(s) && s.worker.Idle?
    ensures k in s.store ==> k in s.policy
  {
  }

  /** The worker takes a deletion: the key is gone from policy and store, and onExit is told of what it read. */
  lemma DeletedItem(s: State, k: int)
    requires s.worker.Idle? && s.head < |s.log| && s.log[s.head] == Delete(k)
    ensures var e := WorkerSteps(s, 4);
      && e == s.(head := s.head + 1, policy := s.policy - {k}, store := s.store - {k}, exited := e.exited)
      && forall w :: e.exited(w) == s.exited(w) + if k in s.store then Hit(s.store[k].value, w) else 0
  {
    hide Stored, Hit, ValueAt, WorkerSteps, Exit;
    var s1 := s.(head := s.head + 1, worker := Forgetting(k));
    var s2 := s1.(policy := s.policy - {k}, worker := Removing(k));
    var s3 := s2.(store := s.store - {k}, worker := ExitRemoved(ValueAt(s.store, k)));
    var e := Exit(s3.(worker := Idle), ValueAt(s.store, k));
    assert Step(s, StepWorker) == s1;
    assert Step(s1, StepWorker) == s2;
    assert Step(s2, StepWorker) == s3;
    assert Step(s3, StepWorker) == e;
    hide Step;
    FirstSteps(s1);
    StepsAgain(s, 3);
    ExitTold(s3.(worker := Idle), ValueAt(s.store, k));
    ValueHit(s.store, k);
  }

  /** A cost update or a marker is taken out and changes neither store nor policy. */
  lemma OtherItem(s: State)
    requires s.worker.Idle? && s.head < |s.log| && (s.log[s.head].Updated? || s.log[s.head].Marker?)
    ensures WorkerSteps(s, if s.log[s.head].Updated? then 2 else 1) == s.(head := s.head + 1)
  {
    hide WorkerSteps;
    var s1 := s.(head := s.head + 1, worker := Took(s.log[s.head]));
    assert Step(s, StepWorker) == s1;
    assert s1.worker.Repricing? ==> Step(s1, StepWorker) == s1.(worker := Idle);
    hide Step;
    FirstSteps(s);
    StepsAgain(s, 0);
  }

  lemma StepsAgain(s: State, n: nat)
    ensures WorkerSteps(s, n + 1) == WorkerSteps(Step(s, StepWorker), n) && WorkerSteps(s, 0) == s
    ensures n == 0 ==> WorkerSteps(s, 1) == Step(s, StepWorker)
  {
    hide Step;
  }

  lemma ValueHit(store: map<int, Entry>, k: int)
    ensures forall w :: Hit(ValueAt(store, k), w) == if k in store then Hit(store[k].value, w) else 0
  {
  }

  /** A cleanup takes its keys out of policy and store, and onExit is told of each value. */
  lemma {:induction false} CleanupGoes(s: State)
    requires s.worker.Cleaning?
    ensures var e := WorkerSteps(s, 3 * |s.worker.keys| + 1);
      && e == s.(worker := Idle, policy := s.policy - KeySet(s.worker.keys),
                 store := s.store - KeySet(s.worker.keys), exited := e.exited)
      && ToldOfAll(s, e)
    decreases |s.worker.keys|
  {
    hide Stored, KeySet;
    var keys := s.worker.keys;
    if keys == [] {
      hide ToldOfAll;
      NoneLess(s.store, s.policy);
      assert WorkerSteps(s, 1) == Step(s, StepWorker);
      ToldNothing(s, Step(s, StepWorker));
    } else {
      OneCleaned(s);
      hide Step, WorkerSteps, ToldOfAll;
      var s3 := WorkerSteps(s, 3);
      CleanupGoes(s3);
      OneLess(s.store, s.policy, keys);
      assert 3 * |keys| + 1 == 3 + (3 * |keys[1..]| + 1);
      WorkerStepsAdd(s, 3, 3 * |keys[1..]| + 1);
      ToldTwice(s, s3, WorkerSteps(s3, 3 * |keys[1..]| + 1));
    }
  }

  lemma OneCleaned(s: State)
    requires s.worker.Cleaning? && s.worker.keys != []
    ensures var e, keys := WorkerSteps(s, 3), s.worker.keys;
      && e == s.(worker := Cleaning(keys[1..]), policy := s.policy - {keys[0]}, store := s.store - {keys[0]},
                 exited := e.exited)
      && ToldOfAll(s, e)
  {
    hide Stored, Hit, ValueAt, WorkerSteps, ToldOfAll, Exit;
    var k, rest := s.worker.keys[0], s.worker.keys[1..];
    var s1 := s.(policy := s.policy - {k}, worker := CleaningKey(k, rest));
    var s2 := s1.(store := s.store - {k}, worker := ExitCleaned(ValueAt(s.store, k), rest));
    var e := Exit(s2.(worker := Cleaning(rest)), ValueAt(s.store, k));
    assert Step(s, StepWorker) == s1;
    assert Step(s1, StepWorker) == s2;
    assert Step(s2, StepWorker) == e;
    hide Step;
    FirstSteps(s);
    ExitTold(s2.(worker := Cleaning(rest)), ValueAt(s.store, k));
    ToldOne(s, e, k);
  }

  lemma ToldOne(s: State, e: State, k: int)
    requires e.store == s.store - {k} && forall w :: e.exited(w) == s.exited(w) + Hit(ValueAt(s.store, k), w)
    ensures ToldOfAll(s, e)
  {
    hide Stored, Hit, ValueAt;
    forall w
      ensures e.exited(w) + Stored(e.store, w) == s.exited(w) + Stored(s.store, w)
    {
      StoredDel(s.store, k, w);
    }
  }

  /** Started between items, a cleanup of any keys ends with them gone and nothing else changed. */
  lemma CleanupRemoves(s: State, keys: seq<int>)
    requires s.worker.Idle?
    ensures var e := WorkerSteps(Step(s, StartCleanup(keys)), 3 * |keys| + 1);
      && e == s.(policy := e.policy, store := e.store, exited := e.exited)
      && (forall j :: j in e.policy <==> j in s.policy && j !in keys)
      && (forall j :: Reads(e, j) == if j in keys then None else Reads(s, j))
      && forall w :: e.exited(w) + Stored(e.store, w) == s.exited(w) + Stored(s.store, w)
  {
    hide Stored, KeySet;
    CleanupGoes(Step(s, StartCleanup(keys)));
    KeySetIs(keys);
  }
}
