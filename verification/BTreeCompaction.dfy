/** What `DeleteBelow` does to the logical tree, and what it means for the map. */
module BTreeCompaction {
  import opened BTreeNode
  import opened BTreeShape
  import opened BTreeIteration

  // ---- The compacted tree ----

  /** A leaf none of whose values reaches `ts`. */
  ghost predicate Dead(t: Shape, ts: int) {
    t.Leaf? && AllBelow(t.kvs, ts)
  }

  ghost function Compacted(t: Shape, ts: int): Shape
    decreases t, 1
  {
    match t
    case Leaf(pid, kvs) => Leaf(pid, Kept(kvs, ts, LastKey(kvs)))
    case Inner(pid, kids) => Inner(pid, CompactedKids(kids, ts))
  }

  /** The last child stays whatever it holds. */
  ghost function CompactedKids(kids: seq<Shape>, ts: int): seq<Shape>
    decreases kids, 0
  {
    if kids == [] then [] else
    if |kids| == 1 then [Compacted(kids[0], ts)] else
    (if Dead(kids[0], ts) then [] else [Compacted(kids[0], ts)]) + CompactedKids(kids[1..], ts)
  }

  /** The pairs that compaction keeps: exactly those with a value of at least `ts` and those under the
      largest key of a leaf that stays.  No pair changes. */
  ghost predicate Survivors(c: map<int, int>, c': map<int, int>, stays: int -> bool, ts: int) {
    && (forall k :: k in c' <==> k in c && (c[k] >= ts || stays(k)))
    && (forall k :: k in c' ==> c'[k] == c[k])
  }

  // ---- Leaves ----

  lemma {:induction false} KeptSorted(kvs: seq<KV>, ts: int, mk: int, lo: int)
    requires Sorted(kvs) && (forall i :: 0 <= i < |kvs| ==> lo < kvs[i].key <= mk)
    ensures Sorted(Kept(kvs, ts, mk))
    ensures forall i :: 0 <= i < |Kept(kvs, ts, mk)| ==> Kept(kvs, ts, mk)[i] in kvs
    ensures kvs != [] && LastKey(kvs) == mk ==>
      Kept(kvs, ts, mk) != [] && LastKey(Kept(kvs, ts, mk)) == mk
  {
    hide Kept;
    if kvs == [] {
      KeptNone(ts, mk);
    } else {
      var front, last := kvs[..|kvs| - 1], kvs[|kvs| - 1];
      KeptSorted(front, ts, mk, lo);
      assert kvs == front + [last];
      KeptSnoc(front, last, ts, mk);
      SortedSnoc(Kept(front, ts, mk), front, last);
    }
  }

  lemma KeptNone(ts: int, mk: int)
    ensures Kept([], ts, mk) == []
  {
  }

  /** What was kept of the front stays in order with one more key behind it. */
  lemma SortedSnoc(r: seq<KV>, front: seq<KV>, e: KV)
    requires Sorted(r) && Sorted(front + [e]) && forall i :: 0 <= i < |r| ==> r[i] in front
    ensures Sorted(r + [e]) && forall i :: 0 <= i < |r| ==> r[i] in front + [e]
  {
    var kvs := front + [e];
    forall i | 0 <= i < |r|
      ensures r[i] in kvs && r[i].key < e.key
    {
      var j :| 0 <= j < |front| && front[j] == r[i];
      assert kvs[j] == r[i] && kvs[|front|] == e;
    }
  }

  lemma LeafMapSnoc(kvs: seq<KV>, e: KV)
    ensures LeafMap(kvs + [e]) == LeafMap(kvs)[e.key := e.val]
  {
    assert (kvs + [e])[..|kvs|] == kvs;
  }

  lemma KeptSnoc(kvs: seq<KV>, e: KV, ts: int, mk: int)
    ensures Kept(kvs + [e], ts, mk) == Kept(kvs, ts, mk) + if e.val < ts && e.key < mk then []
      else [e]
  {
    assert (kvs + [e])[..|kvs|] == kvs;
  }

  /** A pair survives in a leaf exactly when its value reaches `ts` or its key is the maximum. */
  lemma {:induction false} KeptMap(kvs: seq<KV>, ts: int, mk: int)
    requires Sorted(kvs) && (forall i :: 0 <= i < |kvs| ==> kvs[i].key <= mk)
    ensures Survivors(LeafMap(kvs), LeafMap(Kept(kvs, ts, mk)), k => k == mk, ts)
  {
    hide LeafMap, Kept, HasKey, Rank, Survivors;
    var stays := k => k == mk;
    if kvs == [] {
      KeptNothing(ts, mk, stays);
    } else {
      var n := |kvs| - 1;
      KeptMap(kvs[..n], ts, mk);
      KeptMapStep(kvs, ts, mk);
    }
  }

  lemma KeptMapStep(kvs: seq<KV>, ts: int, mk: int)
    requires kvs != [] && Sorted(kvs) && (forall i :: 0 <= i < |kvs| ==> kvs[i].key <= mk)
    requires var front := kvs[..|kvs| - 1]; Survivors(LeafMap(front), LeafMap(Kept(front, ts, mk)), k => k ==
      mk, ts)
    ensures Survivors(LeafMap(kvs), LeafMap(Kept(kvs, ts, mk)), k => k == mk, ts)
  {
    hide LeafMap, Kept, HasKey, Rank, Survivors;
    var stays := k => k == mk;
    var front, last := kvs[..|kvs| - 1], kvs[|kvs| - 1];
    assert kvs == front + [last];
    LeafMapRange(front, kvs[0].key - 1);
    var kept := Kept(front, ts, mk);
    KeptSnoc(front, last, ts, mk);
    LeafMapSnoc(front, last);
    LeafMapSnoc(kept, last);
    SurvivorsSnoc(LeafMap(front), LeafMap(kept), stays, last, ts);
    assert kept + [] == kept;
  }

  lemma KeptNothing(ts: int, mk: int, stays: int -> bool)
    ensures Survivors(LeafMap([]), LeafMap(Kept([], ts, mk)), stays, ts)
  {
  }

  lemma SurvivorsSnoc(c: map<int, int>, c': map<int, int>, stays: int -> bool, e: KV, ts: int)
    requires Survivors(c, c', stays, ts) && e.key !in c
    ensures Survivors(c[e.key := e.val], if e.val < ts && !stays(e.key) then c' else c'[e.key := e.val], stays, ts)
  {
  }

  ghost predicate AllBelow(kvs: seq<KV>, ts: int) {
    forall i :: 0 <= i < |kvs| ==> kvs[i].val < ts
  }

  lemma AllBelowSnoc(kvs: seq<KV>, e: KV, ts: int)
    ensures AllBelow(kvs + [e], ts) <==> AllBelow(kvs, ts) && e.val < ts
  {
    var s := kvs + [e];
    assert s[|kvs|] == e && forall i :: 0 <= i < |kvs| ==> s[i] == kvs[i];
  }

  /** The zero that page compaction returns says exactly that every value was below `ts`. */
  lemma {:induction false} DropMeansDead(kvs: seq<KV>, ts: int, mk: int)
    requires Sorted(kvs) && (forall i :: 0 <= i < |kvs| ==> kvs[i].key <= mk)
    ensures AllBelow(Kept(kvs, ts, mk), ts) <==> AllBelow(kvs, ts)
    ensures AllBelow(kvs, ts) ==> |Kept(kvs, ts, mk)| == if kvs != [] && LastKey(kvs) == mk then 1 else 0
  {
    if kvs != [] {
      hide Kept, AllBelow;
      var n := |kvs| - 1;
      var front, last := kvs[..n], kvs[n];
      assert kvs == front + [last];
      DropMeansDead(front, ts, mk);
      KeptSnoc(front, last, ts, mk);
      AllBelowSnoc(front, last, ts);
      AllBelowSnoc(Kept(front, ts, mk), last, ts);
    }
  }

  /** What the result of compacting a leaf's page says. */
  lemma LeafCompacts(t: Shape, m: int, lo: int, h: nat, ts: int)
    requires t.Leaf? && Wf(t, m, lo, h)
    ensures Wf(Compacted(t, ts), m, lo, h) && MaxOf(Compacted(t, ts)) == MaxOf(t)
    ensures var kept := Kept(t.kvs, ts, LastKey(t.kvs));
      Dead(t, ts) <==> |kept| == 1 && kept[0].key == LastKey(t.kvs) && kept[0].val < ts
    ensures |Kept(t.kvs, ts, LastKey(t.kvs))| > 0
  {
    var mk := LastKey(t.kvs);
    assert WfTop(t, m, m - 1, lo, h);
    assert forall i :: 0 <= i < |t.kvs| ==> lo < t.kvs[i].key <= mk;
    KeptSorted(t.kvs, ts, mk, lo);
    DropMeansDead(t.kvs, ts, mk);
    var kept := Kept(t.kvs, ts, mk);
    assert kept[0] in t.kvs;
    assert |kept| == 1 ==> kept[0] == kept[|kept| - 1];
  }

  // ---- The structure after compaction ----

  lemma {:induction false} CompactedWf(t: Shape, m: int, lo: int, h: nat, ts: int)
    requires Wf(t, m, lo, h)
    ensures Wf(Compacted(t, ts), m, lo, h) && MaxOf(Compacted(t, ts)) == MaxOf(t)
    ensures Compacted(t, ts).pid == t.pid && Compacted(t, ts).Leaf? == t.Leaf?
    decreases t, 1
  {
    if t.Leaf? {
      LeafCompacts(t, m, lo, h, ts);
    } else {
      hide WfKids, MaxOf, CompactedKids;
      WfInner(t, m, lo, h);
      CompactedKidsWf(t.kids, m, lo, h - 1, ts);
      HalfFacts(Inner(t.pid, CompactedKids(t.kids, ts)), m, lo, h);
    }
  }

  lemma {:induction false} CompactedKidsWf(kids: seq<Shape>, m: int, lo: int, h: nat, ts: int)
    requires WfKids(kids, m, lo, h)
    ensures WfKids(CompactedKids(kids, ts), m, lo, h)
    ensures kids != [] ==> 0 < |CompactedKids(kids, ts)| <= |kids|
    ensures LoAfter(CompactedKids(kids, ts), lo) == LoAfter(kids, lo)
    decreases kids, 0
  {
    if kids != [] {
      hide MaxOf, Wf, Compacted, LoAfter;
      var c, tl := Compacted(kids[0], ts), CompactedKids(kids[1..], ts);
      CompactedWf(kids[0], m, lo, h, ts);
      CompactedKidsWf(kids[1..], m, MaxOf(kids[0]), h, ts);
      LoAfterCons(kids[0], kids[1..], lo);
      LoAfterCons(c, tl, lo);
      assert [kids[0]] + kids[1..] == kids;
      assert ([c] + tl)[1..] == tl;
      if |kids| == 1 {
        assert kids[1..] == [] && [c] + tl == [c];
      } else if Dead(kids[0], ts) {
        assert CompactedKids(kids, ts) == tl;
        ContentsAbove(kids[0], m, lo, h);
        WfKidsLower(tl, m, MaxOf(kids[0]), lo, h);
        LoAfterAny(tl, MaxOf(kids[0]), lo);
      } else {
        assert CompactedKids(kids, ts) == [c] + tl;
      }
    }
  }

  lemma LoAfterCons(c: Shape, tl: seq<Shape>, lo: int)
    ensures LoAfter([c] + tl, lo) == LoAfter(tl, MaxOf(c))
  {
  }

  lemma LoAfterAny(kids: seq<Shape>, lo: int, lo': int)
    ensures kids != [] ==> LoAfter(kids, lo) == LoAfter(kids, lo')
  {
  }

  lemma WfKidsLower(kids: seq<Shape>, m: int, lo: int, lo': int, h: nat)
    requires WfKids(kids, m, lo, h) && lo' <= lo
    ensures WfKids(kids, m, lo', h)
  {
    if kids != [] {
      WfLower(kids[0], m, m - 1, lo, lo', h);
    }
  }

  // ---- The map after compaction ----

  /** `k` is the largest key of a leaf that stays: the one key of the leaf that keeps any value. */
  ghost predicate LeafMax(t: Shape, ts: int, k: int)
    decreases t, 1
  {
    match t
    case Leaf(_, kvs) => kvs != [] && k == LastKey(kvs)
    case Inner(_, kids) => KidsLeafMax(kids, ts, k)
  }

  ghost predicate KidsLeafMax(kids: seq<Shape>, ts: int, k: int)
    decreases kids, 0
  {
    kids != [] &&
    (((|kids| == 1 || !Dead(kids[0], ts)) && LeafMax(kids[0], ts, k)) || KidsLeafMax(kids[1..], ts, k))
  }

  lemma {:induction false} LeafMaxRange(t: Shape, m: int, lo: int, h: nat, ts: int, k: int)
    requires Wf(t, m, lo, h) && LeafMax(t, ts, k)
    ensures lo < k <= MaxOf(t)
    decreases t, 1
  {
    ContentsRange(t, m, m - 1, lo, h);
    if t.Inner? {
      WfInner(t, m, lo, h);
      KidsLeafMaxRange(t.kids, m, lo, h - 1, ts, k);
    }
  }

  lemma {:induction false} KidsLeafMaxRange(kids: seq<Shape>, m: int, lo: int, h: nat, ts: int, k: int)
    requires WfKids(kids, m, lo, h) && KidsLeafMax(kids, ts, k)
    ensures lo < k <= LoAfter(kids, lo)
    decreases kids, 0
  {
    ContentsRange(kids[0], m, m - 1, lo, h);
    KidsRange(kids[1..], m, MaxOf(kids[0]), h);
    if LeafMax(kids[0], ts, k) {
      LeafMaxRange(kids[0], m, lo, h, ts, k);
    }
    if KidsLeafMax(kids[1..], ts, k) {
      KidsLeafMaxRange(kids[1..], m, MaxOf(kids[0]), h, ts, k);
    }
    assert LoAfter(kids, lo) == LoAfter(kids[1..], MaxOf(kids[0]));
  }

  lemma {:induction false} CompactedMap(t: Shape, m: int, lo: int, h: nat, ts: int)
    requires Wf(t, m, lo, h)
    ensures Survivors(Contents(t), Contents(Compacted(t, ts)), k => LeafMax(t, ts, k), ts)
    decreases t, 1
  {
    if t.Leaf? {
      KeptMap(t.kvs, ts, LastKey(t.kvs));
    } else {
      WfInner(t, m, lo, h);
      CompactedKidsMap(t.kids, m, lo, h - 1, ts);
    }
  }

  lemma {:induction false} CompactedKidsMap(kids: seq<Shape>, m: int, lo: int, h: nat, ts: int)
    requires WfKids(kids, m, lo, h)
    ensures Survivors(KidsMap(kids), KidsMap(CompactedKids(kids, ts)), k => KidsLeafMax(kids, ts, k), ts)
    decreases kids, 0
  {
    if kids != [] {
      hide Wf, WfTop, MaxOf, Contents, LeafMax, Compacted, Dead, Survivors, HeadStays, HeadMap;
      HeadSurvivors(kids, m, lo, h, ts);
      CompactedKidsMap(kids[1..], m, MaxOf(kids[0]), h, ts);
      JoinKids(kids, m, lo, h, ts);
    }
  }

  /** Which keys compaction keeps below the first child, whatever their value. */
  ghost function HeadStays(kids: seq<Shape>, ts: int): int -> bool
    requires kids != []
  {
    k => (|kids| == 1 || !Dead(kids[0], ts)) && LeafMax(kids[0], ts, k)
  }

  ghost function HeadMap(kids: seq<Shape>, ts: int): map<int, int>
    requires kids != []
  {
    if |kids| > 1 && Dead(kids[0], ts) then map[] else Contents(Compacted(kids[0], ts))
  }

  lemma {:induction false} HeadSurvivors(kids: seq<Shape>, m: int, lo: int, h: nat, ts: int)
    requires kids != [] && WfKids(kids, m, lo, h)
    ensures Survivors(Contents(kids[0]), HeadMap(kids, ts), HeadStays(kids, ts), ts)
    decreases kids[0], 2
  {
    hide Wf, WfTop, MaxOf, Contents, LeafMax, Compacted, Dead;
    var hd := kids[0];
    if |kids| > 1 && Dead(hd, ts) {
      DeadMap(hd, m, lo, h, ts);
    } else {
      CompactedMap(hd, m, lo, h, ts);
      SameSurvivors(Contents(hd), HeadMap(kids, ts), k => LeafMax(hd, ts, k), HeadStays(kids, ts), ts);
    }
  }

  lemma HeadMapIs(kids: seq<Shape>, ts: int)
    requires kids != []
    ensures HeadMap(kids, ts) == if |kids| > 1 && Dead(kids[0], ts) then map[] else Contents(Compacted(kids[0], ts))
    ensures KidsMap(kids) == Contents(kids[0]) + KidsMap(kids[1..])
  {
  }

  lemma StaysParts(kids: seq<Shape>, ts: int, k: int)
    requires kids != []
    ensures KidsLeafMax(kids, ts, k) == (HeadStays(kids, ts)(k) || KidsLeafMax(kids[1..], ts, k))
    ensures HeadStays(kids, ts)(k) ==> LeafMax(kids[0], ts, k)
  {
  }

  /** What survives below the first child and below the others is what survives below all. */
  lemma JoinKids(kids: seq<Shape>, m: int, lo: int, h: nat, ts: int)
    requires kids != [] && WfKids(kids, m, lo, h)
    requires Survivors(Contents(kids[0]), HeadMap(kids, ts), HeadStays(kids, ts), ts)
    requires var tl := kids[1..];
      Survivors(KidsMap(tl), KidsMap(CompactedKids(tl, ts)), k => KidsLeafMax(tl, ts, k), ts)
    ensures Survivors(KidsMap(kids), KidsMap(CompactedKids(kids, ts)), k => KidsLeafMax(kids, ts, k), ts)
  {
    hide WfTop, MaxOf, Contents, LeafMax, Compacted, Dead, Survivors, CompactedKids, KidsLeafMax, HeadMap;
    var hd, tl, s := kids[0], kids[1..], HeadStays(kids, ts);
    var u := k => KidsLeafMax(tl, ts, k);
    ContentsRange(hd, m, m - 1, lo, h);
    KidsRange(tl, m, MaxOf(hd), h);
    forall k
      ensures (s(k) ==> k <= MaxOf(hd)) && (u(k) ==> k > MaxOf(hd))
    {
      StaysParts(kids, ts, k);
      if s(k) { LeafMaxRange(hd, m, lo, h, ts, k); }
      if u(k) { KidsLeafMaxRange(tl, m, MaxOf(hd), h, ts, k); }
    }
    JoinSurvivors(Contents(hd), HeadMap(kids, ts), s, KidsMap(tl), KidsMap(CompactedKids(tl, ts)), u, MaxOf(hd), ts);
    CompactedKidsHead(kids, ts);
    HeadMapIs(kids, ts);
    var either, all := k => s(k) || u(k), k => KidsLeafMax(kids, ts, k);
    forall k
      ensures either(k) == all(k)
    {
      StaysParts(kids, ts, k);
    }
    SameSurvivors(KidsMap(kids), KidsMap(CompactedKids(kids, ts)), either, all, ts);
  }

  /** The child at the front stays or goes; the rest is compacted alike. */
  lemma CompactedKidsStep(kids: seq<Shape>, ts: int)
    requires kids != []
    ensures CompactedKids(kids, ts) ==
      (if |kids| > 1 && Dead(kids[0], ts) then [] else [Compacted(kids[0], ts)]) + CompactedKids(kids[1..], ts)
  {
    hide Compacted, Dead;
    if |kids| == 1 {
      assert kids[1..] == [];
    }
  }

  lemma CompactedKidsHead(kids: seq<Shape>, ts: int)
    requires kids != []
    ensures KidsMap(CompactedKids(kids, ts)) ==
      (if |kids| > 1 && Dead(kids[0], ts) then map[] else Contents(Compacted(kids[0], ts))) +
      KidsMap(CompactedKids(kids[1..], ts))
  {
    hide Contents, Compacted, KidsMap, CompactedKids;
    CompactedKidsStep(kids, ts);
    var c, tl := Compacted(kids[0], ts), CompactedKids(kids[1..], ts);
    assert [] + tl == tl;
    KidsMapConcat([c], tl);
    KidsMapOne(c);
  }

  lemma DeadMap(t: Shape, m: int, lo: int, h: nat, ts: int)
    requires Wf(t, m, lo, h) && Dead(t, ts)
    ensures Survivors(Contents(t), map[], k => false, ts)
  {
    assert WfTop(t, m, m - 1, lo, h);
    LeafMapRange(t.kvs, lo);
    forall k | k in LeafMap(t.kvs)
      ensures LeafMap(t.kvs)[k] < ts
    {
      assert t.kvs[Rank(t.kvs, k)].key == k;
    }
  }

  lemma SameSurvivors(c: map<int, int>, c': map<int, int>, s: int -> bool, s': int -> bool, ts: int)
    requires Survivors(c, c', s, ts) && forall k :: s(k) == s'(k)
    ensures Survivors(c, c', s', ts)
  {
  }

  lemma JoinSurvivors(c: map<int, int>, c': map<int, int>, s: int -> bool,
                      d: map<int, int>, d': map<int, int>, u: int -> bool, mid: int, ts: int)
    requires Survivors(c, c', s, ts) && Survivors(d, d', u, ts)
    requires (forall k :: k in c ==> k <= mid) && (forall k :: k in d ==> k > mid)
    requires (forall k :: s(k) ==> k <= mid) && (forall k :: u(k) ==> k > mid)
    ensures Survivors(c + d, c' + d', k => s(k) || u(k), ts)
  {
  }

  // ---- The loop over the children ----

  /** The footprint in the middle of the loop over the children. */
  ghost function LoopFoot(pid: nat, done: seq<Shape>, rest: seq<Shape>, r: multiset<nat>): multiset<nat> {
    multiset{pid} + KidsFoot(done) + KidsFoot(rest) + r
  }

  /** In the middle of the loop over the children: `marked` are the entries of those that were visited,
      with page number zero where the child was freed, and `done` are the children that stay. */
  ghost predicate LoopState(mem: Mem, m: int, pid: nat, marked: seq<KV>, done: seq<Shape>, rest: seq<Shape>, mk: int) {
    && pid < |mem| && Holds(mem[pid], m, Node(pid, false, marked + Entries(rest)))
    && RepKids(mem, m, done) && RepKids(mem, m, rest)
    && Kept(marked, 1, mk) == Entries(done)
  }

  lemma LoopStart(mem: Mem, m: int, t: Shape, r: multiset<nat>, mk: int)
    requires t.Inner? && Rep(mem, m, t)
    ensures LoopState(mem, m, t.pid, [], [], t.kids, mk) && LoopFoot(t.pid, [], t.kids, r) == Foot(t) + r
  {
    assert [] + Entries(t.kids) == Entries(t.kids);
  }

  /** Opens the next child for the recursive call. */
  lemma LoopOpen(mem: Mem, m: int, pid: nat, marked: seq<KV>, done: seq<Shape>, rest: seq<Shape>, mk: int,
                 r: multiset<nat>)
    requires LoopState(mem, m, pid, marked, done, rest, mk) && rest != []
    ensures LoopFoot(pid, done, rest, r) == Foot(rest[0]) + LoopFoot(pid, done, rest[1..], r)
    ensures Rep(mem, m, rest[0]) && rest[0].pid < |mem| && pid < |mem|
    ensures mem[pid][2 * |marked| + 1] == rest[0].pid
    ensures Holds(mem[pid], m, Node(pid, false, marked + [KV(MaxOf(rest[0]), rest[0].pid)] + Entries(rest[1..])))
  {
    assert rest == [rest[0]] + rest[1..];
    assert Entries(rest) == [KV(MaxOf(rest[0]), rest[0].pid)] + Entries(rest[1..]);
    assert marked + Entries(rest) == marked + [KV(MaxOf(rest[0]), rest[0].pid)] + Entries(rest[1..]);
    assert (marked + Entries(rest))[|marked|] == KV(MaxOf(rest[0]), rest[0].pid);
  }

  /** The child stays: its compacted form joins `done`. */
  lemma LoopKeep(mem: Mem, mem': Mem, m: int, pid: nat, marked: seq<KV>, done: seq<Shape>, rest: seq<Shape>, mk: int,
                 c': Shape, r: multiset<nat>)
    requires LoopState(mem, m, pid, marked, done, rest, mk) && rest != [] && |mem| <= |mem'|
    requires forall p: nat :: p in LoopFoot(pid, done, rest[1..], r) && p < |mem| ==> mem'[p] == mem[p]
    requires Rep(mem', m, c') && c'.pid == rest[0].pid && MaxOf(c') == MaxOf(rest[0]) && c'.pid >= 1
    ensures LoopState(mem', m, pid, marked + [KV(MaxOf(c'), c'.pid)], done + [c'], rest[1..], mk)
    ensures LoopFoot(pid, done + [c'], rest[1..], r) == Foot(c') + LoopFoot(pid, done, rest[1..], r)
  {
    hide Holds, Rep, MaxOf, Foot, KidsFoot, LoopFoot, RepKids;
    LoopOpen(mem, m, pid, marked, done, rest, mk, r);
    LoopFrame(mem, mem', m, pid, done, rest, r);
    LoopFootAppend(pid, done, c', rest[1..], r);
    RepKidsConcat(mem', m, done, [c']);
    RepOne(mem', m, c');
    KeptAppend(marked, KV(MaxOf(c'), c'.pid), mk);
    assert Entries(done + [c']) == Entries(done) + [KV(MaxOf(c'), c'.pid)];
  }

  lemma LoopFootAppend(pid: nat, done: seq<Shape>, c: Shape, rest: seq<Shape>, r: multiset<nat>)
    ensures LoopFoot(pid, done + [c], rest, r) == Foot(c) + LoopFoot(pid, done, rest, r)
  {
    hide Foot, KidsFoot;
    KidsFootConcat(done, [c]);
    KidsFootOne(c);
  }

  lemma RepOne(mem: Mem, m: int, c: Shape)
    requires Rep(mem, m, c)
    ensures RepKids(mem, m, [c])
  {
    hide Rep;
  }

  lemma KeptAppend(kvs: seq<KV>, e: KV, mk: int)
    ensures Kept(kvs + [e], 1, mk) == Kept(kvs, 1, mk) + if e.val < 1 && e.key < mk then [] else [e]
  {
    assert (kvs + [e])[..|kvs|] == kvs;
  }

  lemma UnlinkAt(a: seq<KV>, e: KV, b: seq<KV>)
    ensures var s := a + [e] + b; s[|a|] == e && s[|a| := KV(e.key, 0)] == a + [KV(e.key, 0)] + b
  {
  }

  /** The child was freed: its entry stays with page number zero. */
  lemma LoopDrop(mem: Mem, mem': Mem, m: int, pid: nat, marked: seq<KV>, done: seq<Shape>, rest: seq<Shape>, mk: int,
                 r: multiset<nat>)
    requires LoopState(mem, m, pid, marked, done, rest, mk) && rest != [] && |mem| <= |mem'|
    requires forall p: nat :: p in LoopFoot(pid, done, rest[1..], r) && p != pid && p < |mem| ==> mem'[p] == mem[p]
    requires MaxOf(rest[0]) < mk && pid !in KidsFoot(done) + KidsFoot(rest[1..])
    requires Holds(mem'[pid], m, Node(pid, false, marked + [KV(MaxOf(rest[0]), 0)] + Entries(rest[1..])))
    ensures LoopState(mem', m, pid, marked + [KV(MaxOf(rest[0]), 0)], done, rest[1..], mk)
  {
    hide Holds, Rep, MaxOf, Foot, KidsFoot, Kept;
    KidsFootInMem(mem, m, done);
    RepKidsFrame(mem, mem', m, done);
    assert rest == [rest[0]] + rest[1..];
    RepKidsConcat(mem, m, [rest[0]], rest[1..]);
    KidsFootInMem(mem, m, rest[1..]);
    RepKidsFrame(mem, mem', m, rest[1..]);
    KeptAppend(marked, KV(MaxOf(rest[0]), 0), mk);
  }

  lemma LoopFrame(mem: Mem, mem': Mem, m: int, pid: nat, done: seq<Shape>, rest: seq<Shape>, r: multiset<nat>)
    requires pid < |mem| && RepKids(mem, m, done) && RepKids(mem, m, rest) && rest != [] && |mem| <= |mem'|
    requires forall p: nat :: p in LoopFoot(pid, done, rest[1..], r) && p < |mem| ==> mem'[p] == mem[p]
    ensures mem'[pid] == mem[pid] && RepKids(mem', m, done) && RepKids(mem', m, rest[1..])
  {
    hide Holds, Rep, KidsFoot;
    assert pid in LoopFoot(pid, done, rest[1..], r);
    KidsFootInMem(mem, m, done);
    RepKidsFrame(mem, mem', m, done);
    assert rest == [rest[0]] + rest[1..];
    RepKidsConcat(mem, m, [rest[0]], rest[1..]);
    KidsFootInMem(mem, m, rest[1..]);
    RepKidsFrame(mem, mem', m, rest[1..]);
  }

  lemma FirstKid(rest: seq<Shape>, m: int, lo: int, h: nat)
    requires rest != [] && WfKids(rest, m, lo, h)
    ensures Wf(rest[0], m, lo, h)
    ensures |rest| > 1 ==> MaxOf(rest[0]) < LoAfter(rest, lo)
  {
    hide Wf, MaxOf, KidsMap;
    KidsRange(rest[1..], m, MaxOf(rest[0]), h);
    LoAfterCons(rest[0], rest[1..], lo);
    assert [rest[0]] + rest[1..] == rest;
  }

  lemma NextKid(rest: seq<Shape>, m: int, lo: int, h: nat)
    requires rest != [] && WfKids(rest, m, lo, h)
    ensures WfKids(rest[1..], m, MaxOf(rest[0]), h) && lo < MaxOf(rest[0])
    ensures LoAfter(rest[1..], MaxOf(rest[0])) == LoAfter(rest, lo)
    ensures |rest| == 1 ==> MaxOf(rest[0]) == LoAfter(rest, lo)
  {
    hide Wf, MaxOf;
    ContentsAbove(rest[0], m, lo, h);
    LoAfterCons(rest[0], rest[1..], lo);
    assert [rest[0]] + rest[1..] == rest;
  }

  lemma DeadFoot(c: Shape, ts: int)
    requires Dead(c, ts)
    ensures Foot(Compacted(c, ts)) == multiset{c.pid} && Compacted(c, ts).Leaf?
    ensures |NodeOf(Compacted(c, ts)).kvs| == LeafKeys(Compacted(c, ts))
    ensures NodeOf(Compacted(c, ts)).pid == c.pid == Compacted(c, ts).pid
  {
  }

  lemma LoopApart(pid: nat, child: nat, done: seq<Shape>, rest: seq<Shape>, r: multiset<nat>, free: seq<nat>, next: nat)
    requires multiset{child} + LoopFoot(pid, done, rest, r) + multiset(free) == PageRange(next)
    ensures pid in LoopFoot(pid, done, rest, r) && pid !in KidsFoot(done) + KidsFoot(rest) && pid !in r
    ensures child !in LoopFoot(pid, done, rest, r)
  {
    hide KidsFoot;
    Apart(multiset{child}, LoopFoot(pid, done, rest, r), free, next);
    var others := multiset{child} + KidsFoot(done) + KidsFoot(rest) + r;
    assert multiset{child} + LoopFoot(pid, done, rest, r) == multiset{pid} + others;
    Apart(multiset{pid}, others, free, next);
  }

  lemma LoopHas(pid: nat, done: seq<Shape>, rest: seq<Shape>, r: multiset<nat>)
    ensures forall p: nat :: p in r ==> p in LoopFoot(pid, done, rest, r)
  {
    hide KidsFoot;
  }

  lemma NoLeafKeys()
    ensures KidsLeafKeys([]) == 0
  {
  }

  /** After the last round every child was visited. */
  lemma LoopEnd(mem: Mem, m: int, t: Shape, marked: seq<KV>, done: seq<Shape>, r: multiset<nat>, ts: int, lo: int,
                h: nat,
                free: seq<nat>, next: nat)
    requires t.Inner? && LoopState(mem, m, t.pid, marked, done, [], MaxOf(t)) && Wf(t, m, lo, h)
    requires CompactedKids(t.kids, ts) == done + CompactedKids([], ts)
    requires LoopFoot(t.pid, done, [], r) + multiset(free) == PageRange(next)
    ensures t.pid in LoopFoot(t.pid, done, [], r) && Holds(mem[t.pid], m, Node(t.pid, false, marked))
    ensures Compacted(t, ts) == Inner(t.pid, done)
    ensures Kept(marked, 1, MaxOf(t)) == Entries(done) == NodeOf(Compacted(t, ts)).kvs
    ensures done != [] && Entries(done)[0].val >= 1 && RepKids(mem, m, done)
    ensures LoopFoot(t.pid, done, [], r) == Foot(Compacted(t, ts)) + r
    ensures LeafKeys(Compacted(t, ts)) == KidsLeafKeys(done)
  {
    hide Holds, Rep, Wf, KidsLeafKeys;
    assert marked + Entries([]) == marked;
    assert done + [] == done;
    WfInner(t, m, lo, h);
    CompactedKidsWf(t.kids, m, lo, h - 1, ts);
    NoFoot();
    KidFoot(done, 0);
    assert done[0].pid in Foot(done[0]);
    UsedPage(LoopFoot(t.pid, done, [], r), free, next, done[0].pid);
  }

  /** The parent's page now holds the entries of the children that stay. */
  lemma CompactedInner(mem: Mem, mem': Mem, m: int, t: Shape, done: seq<Shape>, r: multiset<nat>, ts: int,
                       free: seq<nat>, next: nat)
    requires t.Inner? && t.pid < |mem| == |mem'| && mem' == mem[t.pid := mem'[t.pid]]
    requires Compacted(t, ts) == Inner(t.pid, done) && RepKids(mem, m, done)
    requires Holds(mem'[t.pid], m, Node(t.pid, false, Entries(done)))
    requires Foot(Compacted(t, ts)) + r + multiset(free) == PageRange(next)
    ensures Rep(mem', m, Compacted(t, ts))
    ensures t.pid !in r
  {
    hide Holds, Compacted, KidsFoot;
    assert Foot(Inner(t.pid, done)) + r == multiset{t.pid} + (KidsFoot(done) + r);
    Apart(multiset{t.pid}, KidsFoot(done) + r, free, next);
    RepKidsUpdate(mem, m, done, t.pid, mem'[t.pid]);
  }

  /** The loop of the iteration visited every child. */
  lemma IterateEnd(mem: Mem, m: int, t: Shape, done: seq<Shape>, rest: seq<Shape>, f: (int, int) -> int)
    requires t.Inner? && rest == [] && LoopState(mem, m, t.pid, Entries(done), done, rest, MaxOf(t))
    requires MappedKids(t.kids, f) == done + MappedKids(rest, f)
    ensures Rep(mem, m, Mapped(t, f))
  {
    hide Holds;
    assert done + [] == done && Entries(done) + Entries([]) == Entries(done);
  }

  // ---- What is left to delete ----

  /**
   * Nothing is left that deleting below `ts` could have removed from a leaf but its largest pair,
   * and a leaf with nothing but that is the last child of its parent.
   */
  ghost predicate Tidy(t: Shape, ts: int)
    decreases t, 1
  {
    match t
    case Leaf(_, kvs) => forall i :: 0 <= i < |kvs| - 1 ==> kvs[i].val >= ts
    case Inner(_, kids) => TidyKids(kids, ts)
  }

  ghost predicate TidyKids(kids: seq<Shape>, ts: int)
    decreases kids, 0
  {
    kids == [] ||
    (&& Tidy(kids[0], ts) && TidyKids(kids[1..], ts)
     && (|kids| > 1 && kids[0].Leaf? ==> exists i :: 0 <= i < |kids[0].kvs| && kids[0].kvs[i].val >= ts))
  }

  lemma {:induction false} KeptValues(kvs: seq<KV>, ts: int, mk: int)
    ensures forall i :: 0 <= i < |Kept(kvs, ts, mk)| ==>
      Kept(kvs, ts, mk)[i].val >= ts || Kept(kvs, ts, mk)[i].key >= mk
  {
    if kvs != [] {
      KeptValues(kvs[..|kvs| - 1], ts, mk);
    }
  }

  lemma TidyLeaf(t: Shape, m: int, lo: int, h: nat, ts: int)
    requires Wf(t, m, lo, h) && t.Leaf?
    ensures Tidy(Compacted(t, ts), ts)
    ensures !Dead(t, ts) ==> exists i :: 0 <= i < |Compacted(t, ts).kvs| && Compacted(t, ts).kvs[i].val >= ts
  {
    hide Kept;
    var mk := LastKey(t.kvs);
    var kept := Kept(t.kvs, ts, mk);
    KeptSorted(t.kvs, ts, mk, lo);
    KeptValues(t.kvs, ts, mk);
    DropMeansDead(t.kvs, ts, mk);
    forall i | 0 <= i < |kept| - 1
      ensures kept[i].val >= ts
    {
      assert kept[i].key < kept[|kept| - 1].key;
    }
    if !Dead(t, ts) {
      assert !AllBelow(kept, ts);
    }
  }

  /** After compaction every tree is tidy. */
  lemma {:induction false} TidyCompacted(t: Shape, m: int, lo: int, h: nat, ts: int)
    requires Wf(t, m, lo, h)
    ensures Tidy(Compacted(t, ts), ts)
    decreases t, 1
  {
    if t.Leaf? {
      TidyLeaf(t, m, lo, h, ts);
    } else {
      WfInner(t, m, lo, h);
      TidyCompactedKids(t.kids, m, lo, h - 1, ts);
    }
  }

  lemma {:induction false} TidyCompactedKids(kids: seq<Shape>, m: int, lo: int, h: nat, ts: int)
    requires WfKids(kids, m, lo, h)
    ensures TidyKids(CompactedKids(kids, ts), ts)
    decreases kids, 0
  {
    if kids != [] {
      hide Wf, WfTop, MaxOf, Tidy, Compacted, Dead;
      var c, tl := Compacted(kids[0], ts), CompactedKids(kids[1..], ts);
      TidyCompacted(kids[0], m, lo, h, ts);
      TidyCompactedKids(kids[1..], m, MaxOf(kids[0]), h, ts);
      CompactedKind(kids[0], ts);
      if kids[0].Leaf? {
        TidyLeaf(kids[0], m, lo, h, ts);
      }
      assert ([c] + tl)[1..] == tl && [c][1..] == [];
      assert [] + tl == tl;
    }
  }

  lemma CompactedKind(t: Shape, ts: int)
    ensures Compacted(t, ts).Leaf? == t.Leaf? && (Dead(t, ts) ==> t.Leaf?)
  {
  }

  // ---- Counting keys ----

  lemma PutLater(c: map<int, int>, d: map<int, int>, k: int, v: int)
    requires k !in c && k !in d
    ensures c + d[k := v] == (c + d)[k := v] && |c + d[k := v]| == |c + d| + 1
  {
    assert c + d[k := v] == (c + d)[k := v];
  }

  lemma JoinedLater(c: map<int, int>, d: map<int, int>, e: map<int, int>)
    ensures c + (d + e) == (c + d) + e
  {
  }

  lemma NothingMore(c: map<int, int>)
    ensures c + map[] == c
  {
  }

  lemma LeafMapLast(kvs: seq<KV>, lo: int)
    requires Sorted(kvs) && kvs != [] && kvs[0].key > lo
    ensures var last := kvs[|kvs| - 1]; var front := LeafMap(kvs[..|kvs| - 1]);
      last.key !in front && last.key > lo && LeafMap(kvs) == front[last.key := last.val]
  {
    LeafMapRange(kvs[..|kvs| - 1], lo);
  }

  /** Adding the pairs of a leaf to a map without their keys adds as many keys as there are pairs. */
  lemma {:induction false} LeafMapCount(c: map<int, int>, kvs: seq<KV>, lo: int)
    requires Sorted(kvs) && (kvs != [] ==> kvs[0].key > lo) && forall k :: k in c ==> k <= lo
    ensures |c + LeafMap(kvs)| == |c| + |kvs|
  {
    if kvs == [] {
      NothingMore(c);
    } else {
      var front, last := kvs[..|kvs| - 1], kvs[|kvs| - 1];
      LeafMapCount(c, front, lo);
      LeafMapLast(kvs, lo);
      hide LeafMap;
      PutLater(c, LeafMap(front), last.key, last.val);
    }
  }

  lemma {:induction false} CountAbove(c: map<int, int>, t: Shape, m: int, lo: int, h: nat)
    requires Wf(t, m, lo, h) && forall k :: k in c ==> k <= lo
    ensures |c + Contents(t)| == |c| + LeafKeys(t)
    decreases t, 1
  {
    if t.Leaf? {
      LeafMapCount(c, t.kvs, lo);
    } else {
      WfInner(t, m, lo, h);
      KidsCountAbove(c, t.kids, m, lo, h - 1);
    }
  }

  lemma {:induction false} KidsCountAbove(c: map<int, int>, kids: seq<Shape>, m: int, lo: int, h: nat)
    requires WfKids(kids, m, lo, h) && forall k :: k in c ==> k <= lo
    ensures |c + KidsMap(kids)| == |c| + KidsLeafKeys(kids)
    decreases kids, 0
  {
    if kids == [] {
      NothingMore(c);
    } else {
      hide WfTop, MaxOf, Contents, LeafKeys;
      CountAbove(c, kids[0], m, lo, h);
      ContentsRange(kids[0], m, m - 1, lo, h);
      KidsCountAbove(c + Contents(kids[0]), kids[1..], m, MaxOf(kids[0]), h);
      JoinedLater(c, Contents(kids[0]), KidsMap(kids[1..]));
    }
  }

  /** The number of leaf keys is the number of keys in the map. */
  lemma ContentsCount(t: Shape, m: int, lo: int, h: nat)
    requires Wf(t, m, lo, h)
    ensures |Contents(t)| == LeafKeys(t)
  {
    CountAbove(map[], t, m, lo, h);
    assert map[] + Contents(t) == Contents(t);
  }
}
