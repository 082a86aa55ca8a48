/** Whole runs of the tree against a plain map, and where `DeleteBelow` falls short of its description. */
module BTreeRuns {
  import opened BTreeNode
  import opened BTreeShape
  import opened BTreeCompaction
  import opened BTreeIteration
  import opened BTreeReload
  import opened BTree

  /** Reopening closes the tree and opens its pages again, with `part` words of data behind the last whole page. */
  datatype Op = SetKey(key: int, val: int) | Drop(ts: int) | Visit(f: (int, int) -> int) | Reopen(part: nat)

  /** The keys the tree takes; any other panics. */
  predicate GoodKey(k: int) {
    0 < k <= ABSOLUTE_MAX
  }

  /** What an operation does to the map. After a deletion a key reads what it did or zero, and only
      one whose value was below `ts` can read zero. */
  ghost predicate Effect(op: Op, c: map<int, int>, c': map<int, int>) {
    match op
    case SetKey(k, v) => c' == if GoodKey(k) then c[k := v] else c
    case Drop(ts) =>
      && (forall k :: k in c' ==> k in c && c'[k] == c[k])
      && (forall k :: k in c && c[k] >= ts ==> k in c')
    case Visit(f) =>
      && c'.Keys == c.Keys
      && (forall k :: k in c && c[k] != 0 && f(k, c[k]) != 0 ==> c'[k] == f(k, c[k]))
      && (forall k :: k in c && (c[k] == 0 || f(k, c[k]) == 0) ==> c'[k] == c[k])
    case Reopen(_) => c' == c
  }

  /** Reopening a tree that uses all whole pages, with a part of one behind them, panics. */
  predicate CutOff(op: Op, nextPage: nat, numPages: nat) {
    op.Reopen? && op.part > 0 && nextPage == numPages
  }

  /** Every run keeps the invariant, and each step does to the map what it should, up to a panic while reopening. */
  method Run(t: Tree, ops: seq<Op>) returns (u: Tree, ghost maps: seq<map<int, int>>, panicked: bool)
    requires t.Valid() && forall i :: 0 <= i < |ops| && ops[i].Reopen? ==> ops[i].part < 2 * t.m + 2
    modifies t, t.pages
    ensures 0 < |maps| <= |ops| + 1 && maps[0] == old(Contents(t.tree))
    ensures forall i :: 0 <= i < |maps| - 1 ==> Effect(ops[i], maps[i], maps[i + 1])
    ensures !panicked ==> u.Valid() && |maps| == |ops| + 1 && maps[|ops|] == Contents(u.tree)
    ensures panicked ==> |maps| <= |ops| && CutOff(ops[|maps| - 1], u.nextPage, |u.pages|)
  {
    hide Tree.Valid, Effect, Contents;
    maps, u := [Contents(t.tree)], t;
    for i := 0 to |ops|
      invariant u.Valid() && (u == t || fresh(u)) && u.m == t.m && Ours(u.pages, old(t.pages))
      invariant |maps| == i + 1 && maps[0] == old(Contents(t.tree)) && maps[i] == Contents(u.tree)
      invariant forall j :: 0 <= j < i ==> Effect(ops[j], maps[j], maps[j + 1])
    {
      u, panicked := Apply(u, ops[i]);
      if panicked {
        return;
      }
      maps := maps + [Contents(u.tree)];
    }
    panicked := false;
  }

  /** Every page is one of `was` or newly allocated. */
  twostate predicate Ours(new pages: seq<array<int>>, was: seq<array<int>>) {
    forall i :: 0 <= i < |pages| ==> pages[i] in was || fresh(pages[i])
  }

  method Apply(t: Tree, op: Op) returns (u: Tree, panicked: bool)
    requires t.Valid() && (op.Reopen? ==> op.part < 2 * t.m + 2)
    modifies t, t.pages
    ensures panicked == CutOff(op, old(t.nextPage), |old(t.pages)|)
    ensures panicked ==> u == t && t.nextPage == old(t.nextPage) && t.pages == old(t.pages)
    ensures !panicked ==> u.Valid() && (u == t || fresh(u)) && u.m == t.m && Ours(u.pages, old(t.pages))
    ensures !panicked ==> Effect(op, old(Contents(t.tree)), Contents(u.tree))
    ensures op.Drop? ==> Tidy(u.tree, op.ts)
  {
    hide Contents, Survivors, MappedMap, Tree.Standing, Settable, MaxOf, Tidy;
    u, panicked := t, false;
    match op {
      case SetKey(k, v) =>
        if GoodKey(k) {
          t.ValidUsable(k);
          t.Set(k, v);
        }
      case Drop(ts) =>
        ghost var was := t.tree;
        t.DeleteBelow(ts);
        DropEffect(Contents(was), Contents(t.tree), k => LeafMax(was, ts, k), ts);
      case Visit(f) =>
        t.IterateKV(f);
      case Reopen(part) =>
        u, panicked := Reload(t, part);
    }
  }

  /** Closes a tree and opens its pages again. */
  method Reload(t: Tree, part: nat) returns (u: Tree, panicked: bool)
    requires t.Valid() && part < 2 * t.m + 2
    modifies t.pages
    ensures panicked <==> part > 0 && t.nextPage == |t.pages|
    ensures panicked ==> u == t
    ensures !panicked ==> u.Valid() && fresh(u) && u.m == t.m && u.pages == t.pages && u.tree == t.tree
    ensures !panicked ==> u.nextPage == t.nextPage && u.freePage == t.freePage
    ensures !panicked ==> u.numPagesFree == t.numPagesFree && u.numLeafKeys == t.numLeafKeys
  {
    t.ValidStored();
    hide Tree.Standing;
    var r := Tree.Open(t.m, t.pages, part, t.mem, t.tree, t.depth, t.free, t.nextPage);
    if r == null {
      return t, true;
    }
    return r, false;
  }

  lemma DropEffect(c: map<int, int>, c': map<int, int>, stays: int -> bool, ts: int)
    requires Survivors(c, c', stays, ts)
    ensures Effect(Drop(ts), c, c')
  {
  }

  // ---- What DeleteBelow leaves ----

  /** The description of DeleteBelow: whatever reads below `ts` reads zero afterwards. */
  ghost predicate AllDropped(c: map<int, int>, c': map<int, int>, ts: int) {
    forall k :: Lookup(c, k) < ts ==> Lookup(c', k) == 0
  }

  /** It holds exactly if no leaf that stays has its largest key on a small value other than zero. */
  lemma DropsAllIff(t: Shape, m: int, h: nat, ts: int)
    requires Wf(t, m, 0, h) && t.Inner? && ts > 0
    ensures var c := Contents(t);
      AllDropped(c, Contents(Compacted(t, ts)), ts) <==>
      forall k :: k in c && LeafMax(t, ts, k) && c[k] < ts ==> c[k] == 0
  {
    CompactedMap(t, m, 0, h, ts);
    DropsIff(Contents(t), Contents(Compacted(t, ts)), k => LeafMax(t, ts, k), ts);
  }

  lemma DropsIff(c: map<int, int>, c': map<int, int>, stays: int -> bool, ts: int)
    requires Survivors(c, c', stays, ts) && ts > 0
    ensures AllDropped(c, c', ts) <==> forall k :: k in c && stays(k) && c[k] < ts ==> c[k] == 0
  {
    if AllDropped(c, c', ts) {
      forall k | k in c && stays(k) && c[k] < ts
        ensures c[k] == 0
      {
        assert Lookup(c', k) == c[k];
      }
    }
  }

  // Pages of a tree with room for 3 keys a node: the pairs (3, 5), (5, 1) and (7, 1).

  function FirstLeaf(): Shape { Leaf(2, [KV(3, 5), KV(5, 1)]) }

  function LastLeaf(): Shape { Leaf(3, [KV(7, 1), KV(ABSOLUTE_MAX, 0)]) }

  function SmallTree(): Shape { Inner(1, [FirstLeaf(), LastLeaf()]) }

  function SmallPages(): Mem {
    [[0, 0, 0, 0, 0, 0, 0, 0],
     [5, 2, ABSOLUTE_MAX, 3, 0, 0, 1, Meta(false, 2)],
     [3, 5, 5, 1, 0, 0, 2, Meta(true, 2)],
     [7, 1, ABSOLUTE_MAX, 0, 0, 0, 3, Meta(true, 2)]]
  }

  /** These pages store that tree. */
  lemma SmallTreeStored()
    ensures Stored(SmallPages(), 3, SmallTree(), 1, [], 4) && MaxOf(SmallTree()) == ABSOLUTE_MAX
    ensures !Blank(SmallPages(), 3)
  {
    hide Wf, Rep, Foot, KidsFoot;
    SmallTreeWf();
    SmallTreeRep();
    SmallTreeFoot();
  }

  lemma SmallTreeWf()
    ensures Wf(SmallTree(), 3, 0, 1) && MaxOf(SmallTree()) == ABSOLUTE_MAX
  {
    hide Wf, WfKids;
    assert SmallTree().kids == [FirstLeaf()] + [LastLeaf()];
    SmallLeaves();
    WfKidsConcat([FirstLeaf()], [LastLeaf()], 3, 0, 0);
    OneKid(FirstLeaf(), 0);
    OneKid(LastLeaf(), 5);
    WfPair(SmallTree());
  }

  lemma SmallLeaves()
    ensures Wf(FirstLeaf(), 3, 0, 0) && MaxOf(FirstLeaf()) == 5 && Contents(FirstLeaf()) == map[3 := 5, 5 := 1]
    ensures Wf(LastLeaf(), 3, 5, 0) && Contents(LastLeaf()) == map[7 := 1, ABSOLUTE_MAX := 0]
  {
    LeafOfTwo(KV(3, 5), KV(5, 1));
    LeafOfTwo(KV(7, 1), KV(ABSOLUTE_MAX, 0));
  }

  lemma LeafOfTwo(x: KV, y: KV)
    ensures LeafMap([x, y]) == map[x.key := x.val, y.key := y.val]
  {
    assert [x, y] == ([] + [x]) + [y];
    LeafMapSnoc([], x);
    LeafMapSnoc([] + [x], y);
  }

  lemma OneKid(a: Shape, lo: int)
    ensures WfKids([a], 3, lo, 0) <==> Wf(a, 3, lo, 0)
    ensures KidsMap([a]) == Contents(a) && LoAfter([a], lo) == MaxOf(a)
  {
    hide Wf, Contents, MaxOf;
    assert [a][1..] == [];
  }

  lemma WfPair(t: Shape)
    requires t.Inner? && |t.kids| == 2 && WfKids(t.kids, 3, 0, 0)
    ensures Wf(t, 3, 0, 1)
  {
    hide WfKids;
  }

  lemma SmallTreeRep()
    ensures Rep(SmallPages(), 3, SmallTree())
  {
    var kids := SmallTree().kids;
    assert Entries(kids) == [KV(5, 2), KV(ABSOLUTE_MAX, 3)];
    assert Holds(SmallPages()[1], 3, Node(1, false, Entries(kids)));
    assert Rep(SmallPages(), 3, kids[0]) && Rep(SmallPages(), 3, kids[1]);
  }

  lemma SmallTreeFoot()
    ensures Foot(SmallTree()) == PageRange(4)
  {
    hide Foot, KidsFoot;
    assert SmallTree().kids == [FirstLeaf()] + [LastLeaf()];
    KidsFootConcat([FirstLeaf()], [LastLeaf()]);
    KidsFootOne(FirstLeaf());
    KidsFootOne(LastLeaf());
    SmallFeet();
  }

  lemma SmallFeet()
    ensures Foot(FirstLeaf()) == multiset{2} && Foot(LastLeaf()) == multiset{3}
    ensures Foot(SmallTree()) == multiset{1} + KidsFoot(SmallTree().kids)
  {
  }

  lemma SmallTreeMap()
    ensures Contents(SmallTree()) == map[3 := 5, 5 := 1, 7 := 1, ABSOLUTE_MAX := 0]
  {
    hide Contents, KidsMap;
    SmallLeaves();
    assert SmallTree().kids == [FirstLeaf()] + [LastLeaf()];
    KidsMapConcat([FirstLeaf()], [LastLeaf()]);
    OneKid(FirstLeaf(), 0);
    OneKid(LastLeaf(), 5);
    InnerMap(SmallTree());
  }

  lemma InnerMap(t: Shape)
    ensures t.Inner? ==> Contents(t) == KidsMap(t.kids)
  {
  }

  lemma FirstLeafStays()
    ensures LeafMax(SmallTree(), 2, 5)
  {
    assert FirstLeaf().kvs[0].val == 5;
  }

  /** And in this tree it does not: 5 holds the value 1, which is below 2, and keeps it. */
  lemma SmallTreeKeeps()
    ensures var c := Contents(SmallTree()); 5 in c && c[5] == 1
    ensures Lookup(Contents(Compacted(SmallTree(), 2)), 5) == 1
  {
    hide Stored, Contents, Survivors, LeafMax, Wf;
    SmallTreeMap();
    SmallTreeWf();
    FirstLeafStays();
    CompactedMap(SmallTree(), 3, 0, 1, 2);
    SurvivorStays(Contents(SmallTree()), Contents(Compacted(SmallTree(), 2)), k => LeafMax(SmallTree(), 2, k), 2, 5);
  }

  lemma SurvivorStays(c: map<int, int>, c': map<int, int>, stays: int -> bool, ts: int, k: int)
    requires Survivors(c, c', stays, ts) && k in c && stays(k)
    ensures Lookup(c', k) == c[k]
  {
  }

  method Page(words: seq<int>) returns (page: array<int>)
    ensures fresh(page) && page[..] == words
  {
    page := new int[|words|](i requires 0 <= i < |words| => words[i]);
  }

  /** Opening these pages and calling DeleteBelow(2) leaves 1 to be read at 5, as before. */
  method DropLeavesOne() returns (t: Tree, before: int, after: int)
    ensures t.Valid() && t.tree == Compacted(SmallTree(), 2) && before == after == 1
  {
    hide Stored, Contents, LeafMax, Tree.Valid, Blank, Compacted;
    SmallTreeStored();
    SmallTreeKeeps();
    var p0 := Page(SmallPages()[0]);
    var p1 := Page(SmallPages()[1]);
    var p2 := Page(SmallPages()[2]);
    var p3 := Page(SmallPages()[3]);
    var tree := Tree.Open(3, [p0, p1, p2, p3], 0, SmallPages(), SmallTree(), 1, [], 4);
    t := tree;
    before := t.Get(5);
    t.DeleteBelow(2);
    after := t.Get(5);
  }
}
