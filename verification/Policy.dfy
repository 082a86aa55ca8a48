/** The eviction policy of policy.go: sampled least-frequently-used, with TinyLFU admission. */
module Policy {
  import opened Metrics
  import opened Collections
  import opened Powers
  import Sketch
  import TinyLfu

  type Key = Sketch.Hash

  const LFU_SAMPLE: nat := 5

  datatype Item = Item(key: Key, cost: int)

  ghost function KeysOf(s: seq<Item>): set<Key> {
    set i | 0 <= i < |s| :: s[i].key
  }

  lemma KeysOfMore(s: seq<Item>, t: seq<Item>)
    ensures KeysOf(s + t) == KeysOf(s) + KeysOf(t)
  {
    var u := s + t;
    forall k | k in KeysOf(s) + KeysOf(t)
      ensures k in KeysOf(u)
    {
      if k in KeysOf(s) {
        var i :| 0 <= i < |s| && s[i].key == k;
        assert u[i].key == k;
      } else {
        var i :| 0 <= i < |t| && t[i].key == k;
        assert u[|s| + i].key == k;
      }
    }
  }

  lemma KeysOfOne(x: Item)
    ensures KeysOf([x]) == {x.key}
  {
    assert [x][0] == x;
  }

  /** Every item is a key that is there, with its cost. */
  ghost predicate Live(s: seq<Item>, m: map<Key, int>) {
    forall i | 0 <= i < |s| :: s[i].key in m && s[i].cost == m[s[i].key]
  }

  lemma LiveMore(s: seq<Item>, x: Item, m: map<Key, int>)
    requires Live(s, m) && x.key in m && x.cost == m[x.key]
    ensures Live(s + [x], m)
  {
  }

  /** Every key of `m` is drawn once, but for those in `rest`. */
  ghost predicate Draws(s: seq<Item>, m: map<Key, int>, rest: set<Key>) {
    Live(s, m) && rest <= m.Keys && KeysOf(s) == m.Keys - rest && |KeysOf(s)| == |s|
  }

  lemma Drawn(s: seq<Item>, m: map<Key, int>, rest: set<Key>, key: Key)
    requires Draws(s, m, rest) && key in rest
    ensures Draws(s + [Item(key, m[key])], m, rest - {key})
  {
    hide KeysOf, Live;
    KeysOfMore(s, [Item(key, m[key])]);
    KeysOfOne(Item(key, m[key]));
    LiveMore(s, Item(key, m[key]), m);
    assert |KeysOf(s) + {key}| == |KeysOf(s)| + 1;
  }

  lemma DrawsFirst(m: map<Key, int>)
    ensures Draws([], m, m.Keys)
  {
  }

  lemma DrawsRest(s: seq<Item>, m: map<Key, int>, rest: set<Key>)
    requires Draws(s, m, rest)
    ensures Live(s, m) && rest <= m.Keys && KeysOf(s) == m.Keys - rest && |KeysOf(s)| == |s|
  {
  }

  lemma NothingSampled(s: seq<Item>, m: map<Key, int>)
    ensures Live(s[|s|..], m) && KeysOf(s[|s|..]) == {}
  {
  }

  // ---- Costs ----

  /** The sum of all costs. */
  ghost function SumCosts(m: map<Key, int>): int
    decreases |m|
  {
    if m == map[] then 0
    else
      assert exists k :: k in m by { var k := HasElement(m.Keys); }
      var k :| k in m;
      m[k] + SumCosts(m - {k})
  }

  lemma {:induction false} SumRemove(m: map<Key, int>, k: Key)
    requires k in m
    ensures SumCosts(m) == m[k] + SumCosts(m - {k})
    decreases |m|
  {
    var j :| j in m && SumCosts(m) == m[j] + SumCosts(m - {j});
    if j != k {
      SumRemove(m - {j}, k);
      SumRemove(m - {k}, j);
      assert m - {j} - {k} == m - {k} - {j};
    }
  }

  lemma SumAdd(m: map<Key, int>, k: Key, cost: int)
    ensures SumCosts(m[k := cost]) == SumCosts(m) + cost - if k in m then m[k] else 0
  {
    SumRemove(m[k := cost], k);
    if k in m {
      SumRemove(m, k);
      assert m[k := cost] - {k} == m - {k};
    } else {
      assert m[k := cost] - {k} == m;
    }
  }

  // ---- 64-bit counters ----

  /** A signed number as a 64-bit word. */
  function Word(x: int): nat { x % WORD }

  /** Bitwise complement of a 64-bit word. */
  function Complement(x: nat): int { WORD - 1 - x }

  /** The counters agree with the cost in use: added less evicted is `used`, modulo 2^64. */
  ghost predicate CountersAgree(added: int, evicted: int, used: int) {
    (added - evicted - used) % WORD == 0
  }

  lemma WholeWords(x: int, q: int)
    requires x % WORD == 0
    ensures (x + q * WORD) % WORD == 0
  {
  }

  lemma AgreeAdd(a: int, e: int, used: int, d: int)
    requires CountersAgree(a, e, used)
    ensures CountersAgree((a + Word(d)) % WORD, e, used + d)
  {
    var q, p := (a + Word(d)) / WORD, d / WORD;
    assert (a + Word(d)) % WORD - e - (used + d) == (a - e - used) - (q + p) * WORD;
    WholeWords(a - e - used, -(q + p));
  }

  lemma AgreeEvict(a: int, e: int, used: int, c: int)
    requires CountersAgree(a, e, used)
    ensures CountersAgree(a, (e + Word(c)) % WORD, used - c)
  {
    var q, p := (e + Word(c)) / WORD, c / WORD;
    assert a - (e + Word(c)) % WORD - (used - c) == (a - e - used) + (q + p) * WORD;
    WholeWords(a - e - used, q + p);
  }

  /** The complement of diff - 1 is how a 64-bit counter is taken down by diff. */
  lemma TwosComplement(diff: int)
    ensures Complement(Word(Word(diff) - 1)) == Word(-diff)
  {
    var p, r := diff / WORD, diff % WORD;
    if r == 0 {
      WordOf(-1, WORD - 1);
      WordOf(-p, 0);
    } else {
      WordOf(0, r - 1);
      WordOf(-p - 1, WORD - r);
    }
  }

  lemma WordOf(q: int, r: int)
    requires 0 <= r < WORD
    ensures Word(q * WORD + r) == r
  {
  }

  // ---- The sampled store of key costs ----

  class SampledLfu {
    const metrics: Counters
    var maxCost: int
    var used: int
    var keyCosts: map<Key, int>

    ghost predicate Valid()
      reads this
    {
      metrics.Valid() && used == SumCosts(keyCosts)
    }

    ghost function Value(t: Metric): int
      requires metrics.Valid()
      reads metrics.all
    {
      metrics.Value(t)
    }

    ghost predicate Balanced()
      requires metrics.Valid()
      reads this, metrics.all
    {
      metrics.enabled ==> CountersAgree(Value(CostAdd), Value(CostEvict), used)
    }

    constructor (max: int, counters: Counters)
      requires counters.Valid()
      ensures Valid() && maxCost == max && used == 0 && keyCosts == map[] && metrics == counters
    {
      maxCost, used, keyCosts, metrics := max, 0, map[], counters;
    }

    method RoomLeft(cost: int) returns (room: int)
      ensures room == maxCost - (used + cost)
    {
      room := maxCost - (used + cost);
    }

    /** Adds keys in any order until the sample is full; a key that is in it already can come again. */
    method FillSample(sample: seq<Item>) returns (out: seq<Item>)
      ensures sample <= out && |out| <= if |sample| < LFU_SAMPLE then LFU_SAMPLE else |sample|
      ensures Live(out[|sample|..], keyCosts) && |KeysOf(out[|sample|..])| == |out| - |sample|
      ensures |out| >= LFU_SAMPLE || KeysOf(out[|sample|..]) == keyCosts.Keys
    {
      hide KeysOf, Live, Draws;
      var costs := keyCosts;
      out := sample;
      if |out| >= LFU_SAMPLE {
        NothingSampled(sample, costs);
        return;
      }
      var rest := costs.Keys;
      ghost var added: seq<Item> := [];
      DrawsFirst(costs);
      while rest != {}
        invariant out == sample + added && |out| < LFU_SAMPLE && Draws(added, costs, rest)
        decreases rest
      {
        var key := Any(rest);
        DrawsRest(added, costs, rest);
        Drawn(added, costs, rest, key);
        added := added + [Item(key, costs[key])];
        rest := rest - {key};
        out := out + [Item(key, costs[key])];
        if |out| >= LFU_SAMPLE {
          break;
        }
      }
      assert out[|sample|..] == added;
      DrawsRest(added, costs, rest);
    }

    /** Removes a key and its cost; nothing happens for a key that is not there. */
    method Del(key: Key)
      requires Valid()
      modifies `used, `keyCosts, metrics.all
      ensures Valid() && keyCosts == old(keyCosts) - {key}
      ensures old(Balanced()) ==> Balanced()
      ensures metrics.enabled ==> CountedTo(Value(KeyEvict), old(Value(KeyEvict)), |old(keyCosts)| - |keyCosts|)
    {
      if key !in keyCosts {
        assert keyCosts - {key} == keyCosts;
        if metrics.enabled {
          SmallWord(metrics.Value(KeyEvict));
        }
        return;
      }
      Drop(key);
    }

    method Drop(key: Key)
      requires Valid() && key in keyCosts
      modifies `used, `keyCosts, metrics.all
      ensures Valid() && keyCosts == old(keyCosts) - {key} && |keyCosts| == |old(keyCosts)| - 1
      ensures old(Balanced()) ==> Balanced()
      ensures metrics.enabled ==> CountedTo(Value(KeyEvict), old(Value(KeyEvict)), 1)
    {
      hide CountersAgree, SumCosts, Word, Counters.Value;
      var cost := keyCosts[key];
      SumRemove(keyCosts, key);
      if metrics.enabled && Balanced() {
        AgreeEvict(Value(CostAdd), Value(CostEvict), used, cost);
      }
      used := used - cost;
      keyCosts := keyCosts - {key};
      metrics.Add(CostEvict, key, Word(cost));
      metrics.Add(KeyEvict, key, 1);
    }

    method Add(key: Key, cost: int)
      requires Valid() && key !in keyCosts
      modifies `used, `keyCosts
      ensures Valid() && keyCosts == old(keyCosts)[key := cost] && used == old(used) + cost
    {
      SumAdd(keyCosts, key, cost);
      keyCosts := keyCosts[key := cost];
      used := used + cost;
    }

    /** Replaces the cost of a key that is there; the counter goes down by adding a complement. */
    method UpdateIfHas(key: Key, cost: int) returns (has: bool)
      requires Valid()
      modifies `used, `keyCosts, metrics.all
      ensures Valid() && has == (key in old(keyCosts))
      ensures keyCosts == if has then old(keyCosts)[key := cost] else old(keyCosts)
      ensures old(Balanced()) ==> Balanced()
      ensures Value(CostEvict) == old(Value(CostEvict)) && Value(KeyEvict) == old(Value(KeyEvict))
      ensures !has ==> used == old(used) && Value(CostAdd) == old(Value(CostAdd))
    {
      hide CountersAgree, SumCosts, Word, Complement, Counters.Value;
      if key !in keyCosts {
        return false;
      }
      var prev := keyCosts[key];
      SumAdd(keyCosts, key, cost);
      if metrics.enabled && Balanced() {
        AgreeAdd(Value(CostAdd), Value(CostEvict), used, cost - prev);
      }
      metrics.Add(KeyUpdate, key, 1);
      if prev > cost {
        var diff := prev - cost;
        TwosComplement(diff);
        metrics.Add(CostAdd, key, Complement(Word(Word(diff) - 1)));
      } else if cost > prev {
        metrics.Add(CostAdd, key, Word(cost - prev));
      }
      used := used + (cost - prev);
      keyCosts := keyCosts[key := cost];
      return true;
    }

    method Clear()
      requires Valid()
      modifies `used, `keyCosts
      ensures Valid() && keyCosts == map[] && used == 0
    {
      used, keyCosts := 0, map[];
    }
  }

  // ---- Samples that go stale ----

  /** How many items of a sample are keys that are gone. */
  function Stale(s: seq<Item>, m: map<Key, int>): nat {
    if s == [] then 0 else Stale(s[..|s| - 1], m) + if s[|s| - 1].key in m then 0 else 1
  }

  lemma {:induction false} StaleConcat(s: seq<Item>, t: seq<Item>, m: map<Key, int>)
    ensures Stale(s + t, m) == Stale(s, m) + Stale(t, m)
  {
    if t == [] {
      assert s + t == s;
    } else {
      StaleConcat(s, t[..|t| - 1], m);
      assert (s + t)[..|s + t| - 1] == s + t[..|t| - 1];
    }
  }

  lemma {:induction false} LiveNotStale(s: seq<Item>, m: map<Key, int>)
    requires Live(s, m)
    ensures Stale(s, m) == 0
  {
    if s != [] {
      LiveNotStale(s[..|s| - 1], m);
    }
  }

  /** The sample without item `i`, whose place the last one takes. */
  function Without(s: seq<Item>, i: nat): (r: seq<Item>)
    requires i < |s|
    ensures |r| == |s| - 1
  {
    s[i := s[|s| - 1]][..|s| - 1]
  }

  lemma StaleWithout(s: seq<Item>, i: nat, m: map<Key, int>)
    requires i < |s|
    ensures Stale(Without(s, i), m) == Stale(s, m) - if s[i].key in m then 0 else 1
  {
    var last := s[|s| - 1];
    assert s == s[..|s| - 1] + [last];
    StaleConcat(s[..|s| - 1], [last], m);
    if i < |s| - 1 {
      assert s[..|s| - 1] == s[..i] + [s[i]] + s[i + 1..|s| - 1];
      assert Without(s, i) == s[..i] + [last] + s[i + 1..|s| - 1];
      StaleMiddle(s[..i], s[i], s[i + 1..|s| - 1], m);
      StaleMiddle(s[..i], last, s[i + 1..|s| - 1], m);
    } else {
      assert Without(s, i) == s[..i];
    }
  }

  lemma StaleMiddle(s: seq<Item>, x: Item, t: seq<Item>, m: map<Key, int>)
    ensures Stale(s + [x] + t, m) == Stale(s, m) + (if x.key in m then 0 else 1) + Stale(t, m)
  {
    StaleConcat(s + [x], t, m);
    StaleConcat(s, [x], m);
    assert Stale([x], m) == if x.key in m then 0 else 1;
  }

  /** Between two evictions: the victims are gone from `start`, and the sample was drawn from it. */
  ghost predicate Evicting(start: map<Key, int>, now: map<Key, int>, victims: seq<Item>, sample: seq<Item>) {
    Live(victims, start) && Live(sample, start) && now == start - KeysOf(victims)
  }

  lemma EvictingStart(m: map<Key, int>)
    ensures Evicting(m, m, [], [])
  {
    assert m - KeysOf([]) == m;
  }

  /** A refilled sample has somebody in it and is no staler than before. */
  lemma Refilled(start: map<Key, int>, now: map<Key, int>, victims: seq<Item>, sample: seq<Item>, out: seq<Item>)
    requires Evicting(start, now, victims, sample) && sample <= out
    requires Live(out[|sample|..], now) && (|out| >= LFU_SAMPLE || KeysOf(out[|sample|..]) == now.Keys)
    ensures Evicting(start, now, victims, out) && Stale(out, now) == Stale(sample, now)
    ensures now != map[] ==> out != []
  {
    assert out == sample + out[|sample|..];
    StaleConcat(sample, out[|sample|..], now);
    LiveNotStale(out[|sample|..], now);
    assert out == [] ==> now.Keys == {};
  }

  /** Evicting an item of the sample leaves fewer keys, or a less stale sample. */
  lemma EvictedOne(start: map<Key, int>, now: map<Key, int>, victims: seq<Item>, sample: seq<Item>, i: nat)
    requires Evicting(start, now, victims, sample) && i < |sample|
    ensures var next := now - {sample[i].key};
      && Evicting(start, next, victims + [sample[i]], Without(sample, i))
      && (|next| < |now| || (next == now && Stale(Without(sample, i), next) < Stale(sample, now)))
  {
    hide KeysOf, Live, Stale, Without;
    var x := sample[i];
    KeysOfMore(victims, [x]);
    KeysOfOne(x);
    assert x.key in start && x.cost == start[x.key] && Live(Without(sample, i), start)
      by { LiveWithout(sample, i, start); }
    LiveMore(victims, x, start);
    assert now - {x.key} == start - KeysOf(victims + [x]);
    FewerOrFresher(now, sample, i);
  }

  lemma EvictingLive(start: map<Key, int>, now: map<Key, int>, victims: seq<Item>, sample: seq<Item>, i: nat)
    requires Evicting(start, now, victims, sample) && i < |sample|
    ensures sample[i].key in start
  {
  }

  lemma LiveWithout(s: seq<Item>, i: nat, m: map<Key, int>)
    requires Live(s, m) && i < |s|
    ensures s[i].key in m && s[i].cost == m[s[i].key] && Live(Without(s, i), m)
  {
  }

  lemma FewerOrFresher(now: map<Key, int>, sample: seq<Item>, i: nat)
    requires i < |sample|
    ensures var next := now - {sample[i].key};
      |next| < |now| || (next == now && Stale(Without(sample, i), next) < Stale(sample, now))
  {
    hide Stale, Without;
    var x := sample[i];
    var next := now - {x.key};
    if x.key in now {
      assert now.Keys == next.Keys + {x.key};
      assert |now.Keys| == |now| && |next.Keys| == |next|;
    } else {
      assert next == now;
      StaleWithout(sample, i, now);
    }
  }

  // ---- What the eviction loop looked at ----

  /** One pass of the eviction loop: the sample as the last pass left it, as it was refilled, and the chosen place. */
  datatype Round = Round(before: seq<Item>, sample: seq<Item>, id: nat)

  /** Distinct keys that are there were added, until the sample had five items or every key had been added. */
  ghost predicate Refills(before: seq<Item>, after: seq<Item>, now: map<Key, int>) {
    && before <= after && |after| <= 5
    && Live(after[|before|..], now) && |KeysOf(after[|before|..])| == |after| - |before|
    && (|after| == 5 || KeysOf(after[|before|..]) == now.Keys)
  }

  /** What the rounds before `i` leave in the sample: it begins empty, and loses the victim of each round. */
  ghost function LeftBy(rounds: seq<Round>, i: nat): seq<Item>
    requires i <= |rounds|
  {
    if i == 0 then []
    else if rounds[i - 1].id < |rounds[i - 1].sample| then Without(rounds[i - 1].sample, rounds[i - 1].id)
    else rounds[i - 1].sample
  }

  lemma NoKeys()
    ensures KeysOf([]) == {}
  {
  }

  /** Of at most five keys, a sample drawn from nothing has all. */
  lemma RefillsFew(after: seq<Item>, now: map<Key, int>)
    requires Refills([], after, now) && |now| <= 5
    ensures now.Keys <= KeysOf(after)
  {
    assert after[0..] == after;
    assert KeysOf(after) <= now.Keys;
    if |after| == 5 {
      SubsetFull(KeysOf(after), now.Keys);
    }
  }

  lemma SubsetFull<T>(a: set<T>, b: set<T>)
    requires a <= b && |a| >= |b|
    ensures a == b
  {
    assert b == a + (b - a);
    assert |b| == |a| + |b - a|;
  }

  /** Taking an item out of a sample takes out no other key. */
  lemma KeysWithout(s: seq<Item>, id: nat, k: Key)
    requires id < |s| && k in KeysOf(s) && k != s[id].key
    ensures k in KeysOf(Without(s, id))
  {
    var j :| 0 <= j < |s| && s[j].key == k;
    assert Without(s, id)[if j == |s| - 1 then id else j].key == k;
  }

  lemma KeysPrefix(s: seq<Item>, t: seq<Item>)
    requires s <= t
    ensures KeysOf(s) <= KeysOf(t)
  {
    assert t == s + t[|s|..];
    KeysOfMore(s, t[|s|..]);
  }

  lemma VictimsSoFar(victims: seq<Item>, i: nat)
    requires 0 < i <= |victims|
    ensures KeysOf(victims[..i]) == KeysOf(victims[..i - 1]) + {victims[i - 1].key}
  {
    assert victims[..i] == victims[..i - 1] + [victims[i - 1]];
    KeysOfMore(victims[..i - 1], [victims[i - 1]]);
    KeysOfOne(victims[i - 1]);
  }

  /**
   * Round after round the sample is refilled from the keys that the victims so far have left, and
   * the chosen item is the next victim; there may be one round more.
   */
  ghost predicate Rounds(start: map<Key, int>, victims: seq<Item>, rounds: seq<Round>) {
    && |victims| <= |rounds| <= |victims| + 1
    && (forall i | 0 <= i < |rounds| :: RoundIs(start - KeysOf(victims[..i]), LeftBy(rounds, i), rounds[i]))
    && (forall i | 0 <= i < |victims| :: victims[i] == rounds[i].sample[rounds[i].id])
  }

  ghost predicate RoundIs(now: map<Key, int>, before: seq<Item>, round: Round) {
    round.id < |round.sample| && round.before == before && Refills(before, round.sample, now)
  }

  lemma RoundsCount(start: map<Key, int>, victims: seq<Item>, rounds: seq<Round>)
    requires Rounds(start, victims, rounds)
    ensures |victims| <= |rounds| <= |victims| + 1
  {
  }

  lemma RoundsMore(start: map<Key, int>, victims: seq<Item>, rounds: seq<Round>, round: Round, more: seq<Item>)
    requires Rounds(start, victims, rounds) && |rounds| == |victims|
    requires RoundIs(start - KeysOf(victims), LeftBy(rounds, |rounds|), round)
    requires more == victims || more == victims + [round.sample[round.id]]
    ensures Rounds(start, more, rounds + [round])
  {
    hide KeysOf, Refills, LeftBy, RoundIs;
    var all := rounds + [round];
    forall i | 0 <= i < |all|
      ensures RoundIs(start - KeysOf(more[..i]), LeftBy(all, i), all[i])
    {
      LeftByMore(rounds, round, i);
      SameFront(victims, more, i);
    }
    assert forall i | 0 <= i < |victims| :: all[i] == rounds[i] && more[i] == victims[i];
  }

  lemma LeftByLast(rounds: seq<Round>, round: Round)
    requires round.id < |round.sample|
    ensures LeftBy(rounds + [round], |rounds + [round]|) == Without(round.sample, round.id)
  {
  }

  lemma NothingLeftBy()
    ensures LeftBy([], 0) == []
  {
  }

  lemma LeftByMore(rounds: seq<Round>, round: Round, i: nat)
    requires i <= |rounds|
    ensures LeftBy(rounds + [round], i) == LeftBy(rounds, i)
  {
    hide Without;
  }

  lemma SameFront(s: seq<Item>, t: seq<Item>, i: nat)
    requires i <= |s| && s <= t
    ensures t[..i] == s[..i] && (i == |s| ==> s[..i] == s)
  {
  }

  /** Of at most five keys, every sample has all that are left. */
  lemma {:induction false} SampleHasAll(start: map<Key, int>, victims: seq<Item>, rounds: seq<Round>, i: nat, k: Key)
    requires Rounds(start, victims, rounds) && |start| <= 5
    requires i < |rounds| && k in start && k !in KeysOf(victims[..i])
    ensures k in KeysOf(rounds[i].sample)
  {
    hide KeysOf, Refills, Without, LeftBy;
    if i == 0 {
      FirstSample(start, victims, rounds);
    } else {
      VictimsSoFar(victims, i);
      SampleHasAll(start, victims, rounds, i - 1, k);
      NextSample(start, victims, rounds, i, k);
    }
  }

  lemma FirstSample(start: map<Key, int>, victims: seq<Item>, rounds: seq<Round>)
    requires Rounds(start, victims, rounds) && |start| <= 5 && rounds != []
    ensures start.Keys <= KeysOf(rounds[0].sample)
  {
    hide KeysOf, Refills, Without;
    NoKeys();
    assert victims[..0] == [] && start - {} == start;
    assert RoundIs(start, [], rounds[0]);
    RefillsFew(rounds[0].sample, start);
  }

  /** A key in the sample stays in it through the next round, unless it is that round's victim. */
  lemma NextSample(start: map<Key, int>, victims: seq<Item>, rounds: seq<Round>, i: nat, k: Key)
    requires Rounds(start, victims, rounds) && 0 < i < |rounds|
    requires k in KeysOf(rounds[i - 1].sample) && k != victims[i - 1].key
    ensures k in KeysOf(rounds[i].sample)
  {
    hide KeysOf, Without, Live;
    var last := rounds[i - 1];
    assert RoundIs(start - KeysOf(victims[..i - 1]), LeftBy(rounds, i - 1), last);
    assert RoundIs(start - KeysOf(victims[..i]), LeftBy(rounds, i), rounds[i]);
    KeysWithout(last.sample, last.id, k);
    KeysPrefix(rounds[i].before, rounds[i].sample);
  }

  // ---- The policy ----

  class DefaultPolicy {
    const admit: TinyLfu.Counter
    const evict: SampledLfu

    ghost predicate Valid()
      reads admit, admit.door.bits, admit.freq.rows, evict
    {
      admit.Valid() && evict.Valid()
    }

    /** How often a key is thought to be used. */
    ghost function Estimated(key: Key): nat
      requires admit.Valid()
      reads admit, admit.door.bits, admit.freq.rows
    {
      admit.Estimated(key)
    }

    constructor (a: TinyLfu.Counter, e: SampledLfu)
      requires a.Valid() && e.Valid()
      ensures Valid() && admit == a && evict == e
    {
      admit, evict := a, e;
    }

    ghost predicate Colder(victims: seq<Item>, hits: nat)
      requires admit.Valid()
      reads admit, admit.door.bits, admit.freq.rows
    {
      forall i | 0 <= i < |victims| :: Estimated(victims[i].key) <= hits
    }

    lemma ColderMore(victims: seq<Item>, victim: Item, hits: nat)
      requires admit.Valid() && Colder(victims, hits) && Estimated(victim.key) <= hits
      ensures Colder(victims + [victim], hits)
    {
      hide DefaultPolicy.Estimated, TinyLfu.Counter.Valid;
    }

    lemma ColderNone(hits: nat)
      requires admit.Valid()
      ensures Colder([], hits)
    {
    }

    method Hits(key: Key) returns (hits: nat)
      requires admit.Valid()
      ensures hits == Estimated(key) <= 16
    {
      hits := admit.Estimate(key);
    }

    /** The first item of the sample with the fewest hits. */
    method FindMin(sample: seq<Item>) returns (id: nat, hits: nat)
      requires Valid() && sample != []
      ensures id < |sample| && hits == Estimated(sample[id].key)
      ensures forall i | 0 <= i < |sample| :: hits <= Estimated(sample[i].key)
      ensures forall i | 0 <= i < id :: hits < Estimated(sample[i].key)
    {
      hide DefaultPolicy.Estimated;
      id, hits := 0, 0x7fff_ffff_ffff_ffff;
      for i := 0 to |sample|
        invariant i == 0 ==> hits == 0x7fff_ffff_ffff_ffff
        invariant i > 0 ==> id < i && hits == Estimated(sample[id].key) <= 16
        invariant forall j | 0 <= j < i :: hits <= Estimated(sample[j].key)
        invariant forall j | 0 <= j < id && j < i :: hits < Estimated(sample[j].key)
      {
        var h := Hits(sample[i].key);
        if h < hits {
          id, hits := i, h;
        }
      }
    }

    /** The first item of the sample with the fewest hits. */
    ghost predicate Coldest(sample: seq<Item>, id: nat)
      requires admit.Valid()
      reads admit, admit.door.bits, admit.freq.rows
    {
      && id < |sample|
      && (forall i | 0 <= i < |sample| :: Estimated(sample[id].key) <= Estimated(sample[i].key))
      && (forall i | 0 <= i < id :: Estimated(sample[id].key) < Estimated(sample[i].key))
    }

    /** In each round there was no room with the keys left by then, and the coldest item of the sample was chosen. */
    ghost predicate Looked(start: map<Key, int>, cost: int, victims: seq<Item>, rounds: seq<Round>)
      requires admit.Valid()
      reads admit, admit.door.bits, admit.freq.rows, evict`maxCost
    {
      && Rounds(start, victims, rounds)
      && (forall i | 0 <= i < |rounds| :: SumCosts(start - KeysOf(victims[..i])) + cost > evict.maxCost)
      && (forall i | 0 <= i < |rounds| :: Coldest(rounds[i].sample, rounds[i].id))
    }

    lemma LookedNone(start: map<Key, int>, cost: int)
      requires admit.Valid()
      ensures Looked(start, cost, [], [])
    {
    }

    lemma LookedMore(start: map<Key, int>, cost: int, victims: seq<Item>, rounds: seq<Round>, round: Round,
                     more: seq<Item>)
      requires admit.Valid() && Looked(start, cost, victims, rounds) && |rounds| == |victims|
      requires var now := start - KeysOf(victims);
        SumCosts(now) + cost > evict.maxCost && Refills(round.before, round.sample, now)
      requires Coldest(round.sample, round.id) && round.before == LeftBy(rounds, |rounds|)
      requires more == victims || more == victims + [round.sample[round.id]]
      ensures Looked(start, cost, more, rounds + [round])
    {
      hide KeysOf, SumCosts, Refills, LeftBy, Rounds, TinyLfu.Counter.Valid;
      assert RoundIs(start - KeysOf(victims), LeftBy(rounds, |rounds|), round);
      hide DefaultPolicy.Coldest;
      RoundsMore(start, victims, rounds, round, more);
      assert victims[..|victims|] == victims;
      assert forall i | 0 <= i <= |victims| :: more[..i] == victims[..i];
    }

    /** Of at most five keys, none that is left is colder than the item chosen in any round. */
    lemma NoneLeftColder(start: map<Key, int>, cost: int, victims: seq<Item>, rounds: seq<Round>, i: nat, k: Key)
      requires admit.Valid() && Looked(start, cost, victims, rounds) && |start| <= 5
      requires i < |rounds| && k in start && k !in KeysOf(victims)
      ensures rounds[i].id < |rounds[i].sample| && Estimated(rounds[i].sample[rounds[i].id].key) <= Estimated(k)
    {
      hide SumCosts, Rounds, TinyLfu.Counter.Valid, DefaultPolicy.Estimated;
      assert Coldest(rounds[i].sample, rounds[i].id);
      assert i <= |victims| by { RoundsCount(start, victims, rounds); }
      KeysPrefix(victims[..i], victims);
      SampleHasAll(start, victims, rounds, i, k);
    }

    /** The number of the evicted keys is counted. */
    ghost predicate EvictionsCounted(before: int, keys: int)
      requires evict.Valid()
      reads evict, evict.metrics.all
    {
      evict.metrics.enabled ==> CountedTo(evict.Value(KeyEvict), before, keys - |evict.keyCosts|)
    }

    /** Refills the sample and finds its coldest key. */
    method PickVictim(sample: seq<Item>, ghost start: map<Key, int>, ghost victims: seq<Item>)
      returns (full: seq<Item>, id: nat, hits: nat)
      requires Valid() && Evicting(start, evict.keyCosts, victims, sample) && |sample| < LFU_SAMPLE
      requires evict.keyCosts != map[]
      ensures Evicting(start, evict.keyCosts, victims, full)
        && Stale(full, evict.keyCosts) == Stale(sample, evict.keyCosts)
      ensures id < |full| <= LFU_SAMPLE && full[id].key in start && hits == Estimated(full[id].key)
      ensures Refills(sample, full, evict.keyCosts) && Coldest(full, id)
    {
      hide Evicting, Live, KeysOf, Stale, Without, CountersAgree, SumCosts, TinyLfu.Counter.Estimated,
           DefaultPolicy.Estimated, DefaultPolicy.Colder, TinyLfu.Counter.Valid, TinyLfu.Counter.Shape;
      full := evict.FillSample(sample);
      Refilled(start, evict.keyCosts, victims, sample, full);
      id, hits := FindMin(full);
      EvictingLive(start, evict.keyCosts, victims, full, id);
    }

    method Remove(key: Key, ghost evicted: int, ghost keys: int)
      requires Valid() && EvictionsCounted(evicted, keys)
      modifies evict`used, evict`keyCosts, evict.metrics.all
      ensures Valid() && EvictionsCounted(evicted, keys) && evict.keyCosts == old(evict.keyCosts) - {key}
      ensures old(evict.Balanced()) ==> evict.Balanced()
    {
      hide Evicting, Live, KeysOf, Stale, Without, CountersAgree, SumCosts, TinyLfu.Counter.Estimated,
           DefaultPolicy.Estimated, DefaultPolicy.Colder, TinyLfu.Counter.Valid, TinyLfu.Counter.Shape, CountedTo;
      ghost var n, v := |evict.keyCosts|, evict.Value(KeyEvict);
      evict.Del(key);
      if evict.metrics.enabled {
        CountedOn(evict.Value(KeyEvict), v, evicted, keys - n, n - |evict.keyCosts|);
      }
    }

    /** One pass of the eviction loop: the coldest key of the sample goes, unless it is hotter than the newcomer. */
    method EvictOne(sample: seq<Item>, incHits: nat, ghost start: map<Key, int>, ghost victims: seq<Item>,
                    ghost evicted: int)
      returns (rest: seq<Item>, victim: Item, rejected: bool, ghost round: Round)
      requires Valid() && Evicting(start, evict.keyCosts, victims, sample) && |sample| < LFU_SAMPLE
      requires evict.keyCosts != map[] && EvictionsCounted(evicted, |start|)
      modifies evict`used, evict`keyCosts, evict.metrics.all
      ensures Valid() && EvictionsCounted(evicted, |start|)
      ensures old(evict.Balanced()) ==> evict.Balanced()
      ensures rejected ==> evict.keyCosts == old(evict.keyCosts) && evict.used == old(evict.used)
      ensures rejected ==> victim.key in start && incHits < Estimated(victim.key)
      ensures Refills(sample, round.sample, old(evict.keyCosts)) && Coldest(round.sample, round.id)
      ensures round.before == sample && round.id < |round.sample| && victim == round.sample[round.id]
      ensures !rejected ==>
        && evict.keyCosts == old(evict.keyCosts) - {victim.key} && rest == Without(round.sample, round.id)
        && Evicting(start, evict.keyCosts, victims + [victim], rest) && |rest| < LFU_SAMPLE
        && Estimated(victim.key) <= incHits
        && Progress(old(evict.keyCosts), sample, evict.keyCosts, rest)
    {
      hide Evicting, Live, KeysOf, Stale, Without, CountersAgree, SumCosts, TinyLfu.Counter.Estimated,
           DefaultPolicy.Estimated, DefaultPolicy.Colder, TinyLfu.Counter.Valid, TinyLfu.Counter.Shape;
      var full, id, hits := PickVictim(sample, start, victims);
      victim, rest, rejected, round := full[id], full, incHits < hits, Round(sample, full, id);
      if !rejected {
        EvictedOne(start, evict.keyCosts, victims, full, id);
        Remove(victim.key, evicted, |start|);
        rest := Without(full, id);
      }
    }

    /**
     * A key that costs more than the cache holds is refused; a key that is there only gets its new
     * cost; otherwise colder keys make room, or the key is rejected because a sampled one is hotter.
     */
    method Add(key: Key, cost: int) returns (victims: seq<Item>, added: bool, ghost rounds: seq<Round>)
      requires Valid()
      modifies evict`used, evict`keyCosts, evict.metrics.all
      ensures Valid()
      ensures old(evict.Balanced()) ==> evict.Balanced()
      ensures cost > evict.maxCost ==> !added && victims == [] && evict.keyCosts == old(evict.keyCosts)
      ensures cost <= evict.maxCost && key in old(evict.keyCosts) ==>
        !added && victims == [] && evict.keyCosts == old(evict.keyCosts)[key := cost]
      ensures cost <= evict.maxCost && key !in old(evict.keyCosts) ==>
        && KeysOf(victims) <= old(evict.keyCosts).Keys
        && evict.keyCosts == (old(evict.keyCosts) - KeysOf(victims)) + (if added then map[key := cost] else map[])
        && (old(evict.used) + cost <= evict.maxCost ==> added && victims == [])
        && (added ==> evict.used <= evict.maxCost)
        && (!added ==>
              evict.used + cost > evict.maxCost && exists k | k in old(evict.keyCosts) :: Estimated(k) > Estimated(key))
        && Looked(old(evict.keyCosts), cost, victims, rounds) && |rounds| == |victims| + (if added then 0 else 1)
        && (!added ==> forall i | 0 <= i < |rounds[|victims|].sample| ::
              Estimated(rounds[|victims|].sample[i].key) > Estimated(key))
      ensures |old(evict.keyCosts)| <= 5 && cost <= evict.maxCost && key !in old(evict.keyCosts) ==>
        && (forall i, k | 0 <= i < |victims| && k in evict.keyCosts && k != key ::
              Estimated(victims[i].key) <= Estimated(k))
        && (!added ==> forall k | k in evict.keyCosts :: Estimated(k) > Estimated(key))
      ensures forall i | 0 <= i < |victims| ::
        && victims[i].key in old(evict.keyCosts) && victims[i].cost == old(evict.keyCosts)[victims[i].key]
        && Estimated(victims[i].key) <= Estimated(key)
    {
      hide KeysOf, Evicting, SumCosts, DefaultPolicy.Estimated, TinyLfu.Counter.Estimated, TinyLfu.Counter.Valid,
           DefaultPolicy.Looked, Live, SampledLfu.Balanced, TinyLfu.Counter.Shape;
      rounds := [];
      if cost > evict.maxCost {
        return [], false, [];
      }
      var has := evict.UpdateIfHas(key, cost);
      if has {
        return [], false, [];
      }
      victims, added, rounds := AddNew(key, cost);
    }

    /** The case of a key that is not there. */
    method AddNew(key: Key, cost: int) returns (victims: seq<Item>, added: bool, ghost rounds: seq<Round>)
      requires Valid() && cost <= evict.maxCost && key !in evict.keyCosts
      modifies evict`used, evict`keyCosts, evict.metrics.all
      ensures Valid()
      ensures old(evict.Balanced()) ==> evict.Balanced()
      ensures KeysOf(victims) <= old(evict.keyCosts).Keys
      ensures evict.keyCosts == (old(evict.keyCosts) - KeysOf(victims)) + (if added then map[key := cost] else map[])
      ensures old(evict.used) + cost <= evict.maxCost ==> added && victims == []
      ensures added ==> evict.used <= evict.maxCost
      ensures !added ==>
        evict.used + cost > evict.maxCost && exists k | k in old(evict.keyCosts) :: Estimated(k) > Estimated(key)
      ensures Looked(old(evict.keyCosts), cost, victims, rounds) && |rounds| == |victims| + if added then 0 else 1
      ensures !added ==> forall i | 0 <= i < |rounds[|victims|].sample| ::
        Estimated(rounds[|victims|].sample[i].key) > Estimated(key)
      ensures |old(evict.keyCosts)| <= 5 ==>
        && (forall i, k | 0 <= i < |victims| && k in evict.keyCosts && k != key ::
              Estimated(victims[i].key) <= Estimated(k))
        && (!added ==> forall k | k in evict.keyCosts :: Estimated(k) > Estimated(key))
      ensures forall i | 0 <= i < |victims| ::
        && victims[i].key in old(evict.keyCosts) && victims[i].cost == old(evict.keyCosts)[victims[i].key]
        && Estimated(victims[i].key) <= Estimated(key)
    {
      hide KeysOf, Evicting, SumCosts, DefaultPolicy.Estimated, TinyLfu.Counter.Estimated, TinyLfu.Counter.Valid,
           DefaultPolicy.Looked, TinyLfu.Counter.Shape;
      ghost var left, start := evict.keyCosts, evict.keyCosts;
      victims, added, rounds, left := Admit(key, cost);
      EvictingKeys(start, left, victims);
      if |start| <= 5 {
        ColdestWent(start, cost, victims, rounds, left);
        if !added {
          HotterStay(start, cost, victims, rounds, left, Estimated(key));
        }
      }
    }

    /** Every item of the last sample has more hits than that, and its chosen one is a key that was there. */
    ghost predicate TooHot(start: map<Key, int>, rounds: seq<Round>, hits: nat)
      requires admit.Valid()
      reads admit, admit.door.bits, admit.freq.rows
    {
      && rounds != []
      && var last := rounds[|rounds| - 1];
      && last.id < |last.sample| && last.sample[last.id].key in start
      && forall i | 0 <= i < |last.sample| :: Estimated(last.sample[i].key) > hits
    }

    lemma HotLast(start: map<Key, int>, rounds: seq<Round>, round: Round, hits: nat)
      requires admit.Valid() && Coldest(round.sample, round.id) && round.sample[round.id].key in start
      requires Estimated(round.sample[round.id].key) > hits
      ensures TooHot(start, rounds + [round], hits)
    {
      hide DefaultPolicy.Estimated, TinyLfu.Counter.Valid;
    }

    /** The keys that the victims left cost too much for the newcomer to fit. */
    lemma NoRoom(start: map<Key, int>, victims: seq<Item>, sample: seq<Item>, cost: int)
      requires Valid() && Evicting(start, evict.keyCosts, victims, sample) && evict.used + cost > evict.maxCost
      ensures evict.keyCosts == start - KeysOf(victims) && SumCosts(start - KeysOf(victims)) + cost > evict.maxCost
    {
    }

    /** Of at most five keys, none that is left is colder than a victim. */
    lemma ColdestWent(start: map<Key, int>, cost: int, victims: seq<Item>, rounds: seq<Round>, left: map<Key, int>)
      requires admit.Valid() && Looked(start, cost, victims, rounds) && |start| <= 5
      requires left == start - KeysOf(victims)
      ensures forall i, k | 0 <= i < |victims| && k in left :: Estimated(victims[i].key) <= Estimated(k)
    {
      hide DefaultPolicy.Looked, DefaultPolicy.Estimated, KeysOf, TinyLfu.Counter.Valid;
      forall i, k | 0 <= i < |victims| && k in left
        ensures Estimated(victims[i].key) <= Estimated(k)
      {
        LookedVictim(start, cost, victims, rounds, i);
        NoneLeftColder(start, cost, victims, rounds, i, k);
      }
    }

    lemma LookedVictim(start: map<Key, int>, cost: int, victims: seq<Item>, rounds: seq<Round>, i: nat)
      requires admit.Valid() && Looked(start, cost, victims, rounds) && i < |victims|
      ensures i < |rounds| && rounds[i].id < |rounds[i].sample| && victims[i] == rounds[i].sample[rounds[i].id]
    {
      hide KeysOf, SumCosts, Refills, LeftBy, DefaultPolicy.Estimated, TinyLfu.Counter.Valid;
      assert Coldest(rounds[i].sample, rounds[i].id);
    }

    /** And after a rejection, all that are left are hotter than the newcomer. */
    lemma HotterStay(start: map<Key, int>, cost: int, victims: seq<Item>, rounds: seq<Round>, left: map<Key, int>,
                     hits: nat)
      requires admit.Valid() && Looked(start, cost, victims, rounds) && |start| <= 5
      requires left == start - KeysOf(victims) && TooHot(start, rounds, hits)
      ensures forall k | k in left :: Estimated(k) > hits
    {
      hide DefaultPolicy.Looked, DefaultPolicy.Estimated, KeysOf, TinyLfu.Counter.Valid;
      forall k | k in left
        ensures Estimated(k) > hits
      {
        NoneLeftColder(start, cost, victims, rounds, |rounds| - 1, k);
      }
    }

    method Admit(key: Key, cost: int)
      returns (victims: seq<Item>, added: bool, ghost rounds: seq<Round>, ghost left: map<Key, int>)
      requires Valid() && cost <= evict.maxCost && key !in evict.keyCosts
      modifies evict`used, evict`keyCosts, evict.metrics.all
      ensures Valid()
      ensures old(evict.Balanced()) ==> evict.Balanced()
      ensures Evicting(old(evict.keyCosts), left, victims, [])
      ensures evict.keyCosts == if added then left[key := cost] else left
      ensures old(evict.used) + cost <= evict.maxCost ==> added && victims == []
      ensures added ==> evict.used <= evict.maxCost
      ensures !added ==> evict.used + cost > evict.maxCost && TooHot(old(evict.keyCosts), rounds, Estimated(key))
      ensures Looked(old(evict.keyCosts), cost, victims, rounds)
      ensures |rounds| == |victims| + if added then 0 else 1
      ensures Colder(victims, Estimated(key))
    {
      hide Evicting, Live, KeysOf, Stale, Without, CountersAgree, SumCosts, TinyLfu.Counter.Estimated,
           DefaultPolicy.Estimated, DefaultPolicy.Colder, TinyLfu.Counter.Valid, TinyLfu.Counter.Shape,
           DefaultPolicy.Looked, DefaultPolicy.TooHot;
      var rejected;
      victims, rejected, rounds := MakeRoom(key, cost);
      added, left := !rejected, evict.keyCosts;
      EvictingKey(old(evict.keyCosts), left, victims, key);
      if added {
        Keep(key, cost);
      } else {
        evict.metrics.Add(RejectSets, key, 1);
      }
    }

    method Keep(key: Key, cost: int)
      requires Valid() && key !in evict.keyCosts
      modifies evict`used, evict`keyCosts, evict.metrics.all
      ensures Valid()
      ensures old(evict.Balanced()) ==> evict.Balanced()
      ensures evict.keyCosts == old(evict.keyCosts)[key := cost] && evict.used == old(evict.used) + cost
    {
      hide Evicting, Live, KeysOf, Stale, Without, CountersAgree, SumCosts, TinyLfu.Counter.Estimated,
           DefaultPolicy.Estimated, DefaultPolicy.Colder, TinyLfu.Counter.Valid, TinyLfu.Counter.Shape;
      if evict.metrics.enabled && evict.Balanced() {
        AgreeAdd(evict.Value(CostAdd), evict.Value(CostEvict), evict.used, cost);
      }
      evict.Add(key, cost);
      evict.metrics.Add(CostAdd, key, Word(cost));
    }

    lemma NoneEvicted()
      requires evict.Valid()
      ensures EvictionsCounted(evict.Value(KeyEvict), |evict.keyCosts|)
    {
      CountedNone(evict.Value(KeyEvict));
    }

    /** If a cost within the maximum does not fit, something is in the way. */
    lemma SomethingThere(cost: int)
      requires evict.Valid() && cost <= evict.maxCost < evict.used + cost
      ensures evict.keyCosts != map[]
    {
      SomethingUsed(evict.keyCosts);
    }

    /** What the eviction loop keeps: where keys and victims are, how many it counted, that victims are colder. */
    ghost predicate Making(start: map<Key, int>, evicted: int, victims: seq<Item>, sample: seq<Item>, hits: nat)
      requires Valid()
      reads admit, admit.door.bits, admit.freq.rows, evict, evict.metrics.all
    {
      && EvictionsCounted(evicted, |start|) && Evicting(start, evict.keyCosts, victims, sample)
      && |sample| < LFU_SAMPLE && Colder(victims, hits)
    }

    lemma MakingStarts(hits: nat) returns (evicted: int)
      requires Valid()
      ensures evicted == evict.Value(KeyEvict) && Making(evict.keyCosts, evicted, [], [], hits)
    {
      hide Evicting, DefaultPolicy.EvictionsCounted, DefaultPolicy.Colder, TinyLfu.Counter.Valid;
      evicted := evict.Value(KeyEvict);
      NoneEvicted();
      EvictingStart(evict.keyCosts);
      ColderNone(hits);
    }

    lemma MakingEnds(start: map<Key, int>, evicted: int, victims: seq<Item>, sample: seq<Item>, hits: nat)
      requires Valid() && Making(start, evicted, victims, sample, hits)
      ensures Evicting(start, evict.keyCosts, victims, []) && Colder(victims, hits)
      ensures EvictionsCounted(evicted, |start|)
    {
      EvictingNoSample(start, evict.keyCosts, victims, sample);
    }

    /** One pass of the eviction loop: one more victim, or a key that is hotter. */
    method NextVictim(sample: seq<Item>, hits: nat, victims: seq<Item>, cost: int, ghost start: map<Key, int>,
                      ghost evicted: int, ghost rounds: seq<Round>)
      returns (rest: seq<Item>, more: seq<Item>, rejected: bool, ghost looked: seq<Round>)
      requires Valid() && Making(start, evicted, victims, sample, hits) && cost <= evict.maxCost < evict.used + cost
      requires Looked(start, cost, victims, rounds) && |rounds| == |victims| && sample == LeftBy(rounds, |rounds|)
      modifies evict`used, evict`keyCosts, evict.metrics.all
      ensures Valid() && Making(start, evicted, more, rest, hits)
      ensures old(evict.Balanced()) ==> evict.Balanced()
      ensures rejected ==> more == victims && evict.used == old(evict.used)
      ensures Looked(start, cost, more, looked)
      ensures rejected ==> |looked| == |more| + 1 && TooHot(start, looked, hits)
      ensures !rejected ==> |looked| == |more| && rest == LeftBy(looked, |looked|)
      ensures !rejected ==> Progress(old(evict.keyCosts), sample, evict.keyCosts, rest)
    {
      hide Evicting, Live, KeysOf, Stale, Without, CountersAgree, SumCosts, TinyLfu.Counter.Estimated,
           DefaultPolicy.Estimated, DefaultPolicy.Colder, TinyLfu.Counter.Valid, TinyLfu.Counter.Shape, CountedTo,
           Counters.Value, SampledLfu.Valid, SampledLfu.Balanced, DefaultPolicy.EvictionsCounted, Refills,
           DefaultPolicy.Looked, DefaultPolicy.Coldest, LeftBy;
      SomethingThere(cost);
      NoRoom(start, victims, sample, cost);
      ghost var now := evict.keyCosts;
      var victim;
      ghost var round;
      rest, victim, rejected, round := EvictOne(sample, hits, start, victims, evicted);
      more, looked := victims, rounds + [round];
      if rejected {
        rest := sample;
        LookedMore(start, cost, victims, rounds, round, more);
        HotLast(start, rounds, round, hits);
      } else {
        ColderMore(victims, victim, hits);
        more := victims + [victim];
        LookedMore(start, cost, victims, rounds, round, more);
        LeftByLast(rounds, round);
      }
    }

    /** Evicts until there is room for `cost`, or until a hotter key than the newcomer comes up. */
    method MakeRoom(key: Key, cost: int) returns (victims: seq<Item>, rejected: bool, ghost rounds: seq<Round>)
      requires Valid() && cost <= evict.maxCost && key !in evict.keyCosts
      modifies evict`used, evict`keyCosts, evict.metrics.all
      ensures Valid()
      ensures old(evict.Balanced()) ==> evict.Balanced()
      ensures Evicting(old(evict.keyCosts), evict.keyCosts, victims, [])
      ensures old(evict.used) + cost <= evict.maxCost ==> !rejected && victims == []
      ensures rejected <==> evict.used + cost > evict.maxCost
      ensures Looked(old(evict.keyCosts), cost, victims, rounds)
      ensures |rounds| == |victims| + if rejected then 1 else 0
      ensures rejected ==> TooHot(old(evict.keyCosts), rounds, Estimated(key))
      ensures Colder(victims, Estimated(key))
      ensures EvictionsCounted(old(evict.Value(KeyEvict)), |old(evict.keyCosts)|)
    {
      hide Evicting, Live, KeysOf, Stale, Without, CountersAgree, SumCosts, TinyLfu.Counter.Estimated,
           DefaultPolicy.Estimated, DefaultPolicy.Colder, TinyLfu.Counter.Valid, TinyLfu.Counter.Shape, CountedTo,
           Counters.Value, SampledLfu.Balanced, DefaultPolicy.EvictionsCounted, DefaultPolicy.Making,
           DefaultPolicy.Looked, DefaultPolicy.TooHot, LeftBy;
      var room := evict.RoomLeft(cost);
      var incHits := Hits(key);
      ghost var start := evict.keyCosts;
      ghost var evicted := MakingStarts(incHits);
      var sample: seq<Item> := [];
      victims, rejected, rounds := [], false, [];
      LookedNone(start, cost);
      NothingLeftBy();
      while room < 0
        invariant Valid() && room == evict.maxCost - (evict.used + cost)
        invariant old(evict.Balanced()) ==> evict.Balanced()
        invariant Making(start, evicted, victims, sample, incHits) && incHits == Estimated(key)
        invariant Looked(start, cost, victims, rounds) && |rounds| == |victims| && sample == LeftBy(rounds, |rounds|)
        invariant old(evict.used) + cost <= evict.maxCost ==> victims == [] && room >= 0
        decreases |evict.keyCosts|, Stale(sample, evict.keyCosts)
      {
        sample, victims, rejected, rounds := NextVictim(sample, incHits, victims, cost, start, evicted, rounds);
        if rejected {
          break;
        }
        room := evict.RoomLeft(cost);
      }
      MakingEnds(start, evicted, victims, sample, incHits);
    }

    method Del(key: Key)
      requires Valid()
      modifies evict`used, evict`keyCosts, evict.metrics.all
      ensures Valid() && evict.keyCosts == old(evict.keyCosts) - {key}
      ensures old(evict.Balanced()) ==> evict.Balanced()
    {
      evict.Del(key);
    }

    method Update(key: Key, cost: int)
      requires Valid()
      modifies evict`used, evict`keyCosts, evict.metrics.all
      ensures Valid()
      ensures evict.keyCosts == if key in old(evict.keyCosts) then old(evict.keyCosts)[key := cost]
        else old(evict.keyCosts)
      ensures old(evict.Balanced()) ==> evict.Balanced()
    {
      var _ := evict.UpdateIfHas(key, cost);
    }

    /** Counts a batch of accesses. */
    method Push(keys: seq<Key>)
      requires Valid()
      modifies admit, admit.door, admit.door.bits, admit.freq.rows
      ensures Valid() && admit.seen == TinyLfu.CountedAll(old(admit.seen), keys, admit.resetAt)
    {
      hide TinyLfu.CountedAll;
      admit.Push(keys);
    }

    method UpdateMaxCost(max: int)
      requires Valid()
      modifies evict`maxCost
      ensures Valid() && evict.maxCost == max
    {
      evict.maxCost := max;
    }

    /** Forgets all keys and all hits. */
    method Clear()
      requires Valid()
      modifies evict`used, evict`keyCosts, admit, admit.door, admit.door.bits, admit.freq.rows
      ensures Valid() && evict.keyCosts == map[] && evict.used == 0 && admit.seen == multiset{}
      ensures forall key: Key :: admit.freq.Frequency(key) == 0
    {
      admit.Clear();
      evict.Clear();
    }
  }

  /** What the cache asks of its policy. */
  datatype Op =
    | AddKey(key: Key, cost: int)
    | DelKey(key: Key)
    | UpdateKey(key: Key, cost: int)
    | PushKeys(keys: seq<Key>)
    | SetMaxCost(max: int)
    | ClearAll

  /** One request. Clearing is followed by clearing the counters, as the cache does. */
  method Apply(p: DefaultPolicy, op: Op)
    requires p.Valid()
    modifies p.evict`used, p.evict`keyCosts, p.evict`maxCost, p.evict.metrics.all
    modifies p.admit, p.admit.door, p.admit.door.bits, p.admit.freq.rows
    ensures p.Valid()
    ensures old(p.evict.Balanced()) || op.ClearAll? ==> p.evict.Balanced()
  {
    hide SumCosts, TinyLfu.Counter.Valid, TinyLfu.Counter.Shape, CountersAgree, Counters.Value;
    match op {
      case AddKey(k, c) => var _, _, _ := p.Add(k, c);
      case DelKey(k) => p.Del(k);
      case UpdateKey(k, c) => p.Update(k, c);
      case PushKeys(keys) => p.Push(keys);
      case SetMaxCost(max) => p.UpdateMaxCost(max);
      case ClearAll =>
        p.Clear();
        p.evict.metrics.Clear();
        AgreeNothing();
    }
  }

  /** Any run keeps the cost in use equal to the sum of the costs, and the counters in step with it. */
  method Run(p: DefaultPolicy, ops: seq<Op>)
    requires p.Valid()
    modifies p.evict`used, p.evict`keyCosts, p.evict`maxCost, p.evict.metrics.all
    modifies p.admit, p.admit.door, p.admit.door.bits, p.admit.freq.rows
    ensures p.Valid() && p.evict.used == SumCosts(p.evict.keyCosts)
    ensures old(p.evict.Balanced()) || ClearAll in ops ==> p.evict.Balanced()
  {
    hide SumCosts, TinyLfu.Counter.Valid, TinyLfu.Counter.Shape, CountersAgree;
    for i := 0 to |ops|
      invariant p.Valid()
      invariant old(p.evict.Balanced()) || ClearAll in ops[..i] ==> p.evict.Balanced()
    {
      Apply(p, ops[i]);
      assert ops[..i + 1] == ops[..i] + [ops[i]];
    }
    assert ops[..|ops|] == ops;
  }

  lemma AgreeNothing()
    ensures CountersAgree(0, 0, 0)
  {
  }

  /** The loop's measure goes down: fewer keys, or as many and a fresher sample. */
  ghost predicate Progress(m: map<Key, int>, s: seq<Item>, n: map<Key, int>, t: seq<Item>) {
    |n| < |m| || (|n| == |m| && Stale(t, n) < Stale(s, m))
  }

  lemma EvictingKeys(start: map<Key, int>, now: map<Key, int>, victims: seq<Item>)
    requires Evicting(start, now, victims, [])
    ensures KeysOf(victims) <= start.Keys && Live(victims, start) && now == start - KeysOf(victims)
  {
  }

  lemma EvictingKey(start: map<Key, int>, now: map<Key, int>, victims: seq<Item>, key: Key)
    requires Evicting(start, now, victims, []) && key !in start
    ensures key !in now
  {
  }

  lemma EvictingNoSample(start: map<Key, int>, now: map<Key, int>, victims: seq<Item>, sample: seq<Item>)
    requires Evicting(start, now, victims, sample)
    ensures Evicting(start, now, victims, [])
  {
  }

  lemma SomethingUsed(m: map<Key, int>)
    ensures SumCosts(m) != 0 ==> m != map[]
  {
  }

  /** The counter `v` was at `before` and went up by `d`. */
  ghost predicate CountedTo(v: int, before: int, d: int) {
    v == (before + d) % WORD
  }

  lemma CountedNone(v: int)
    requires 0 <= v < WORD
    ensures CountedTo(v, v, 0)
  {
  }

  lemma CountedOn(w: int, v: int, before: int, d: int, e: int)
    requires CountedTo(v, before, d) && CountedTo(w, v, e)
    ensures CountedTo(w, before, d + e)
  {
    var q := (before + d) / WORD;
    assert before + d + e == q * WORD + (v + e);
  }

  lemma SmallWord(x: nat)
    requires x < WORD
    ensures x % WORD == x
  {
  }
}
