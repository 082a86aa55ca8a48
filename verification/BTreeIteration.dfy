/** What `IterateKV` does to the logical tree: values change, keys and pages do not. */
module BTreeIteration {
  import opened BTreeNode
  import opened BTreeShape

  ghost function Mapped(t: Shape, f: (int, int) -> int): Shape
    decreases t, 1
  {
    match t
    case Leaf(pid, kvs) => Leaf(pid, VisitedAll(f, kvs))
    case Inner(pid, kids) => Inner(pid, MappedKids(kids, f))
  }

  ghost function MappedKids(kids: seq<Shape>, f: (int, int) -> int): seq<Shape>
    decreases kids, 0
  {
    if kids == [] then [] else [Mapped(kids[0], f)] + MappedKids(kids[1..], f)
  }

  ghost function MappedMap(c: map<int, int>, f: (int, int) -> int): map<int, int> {
    map k | k in c :: Visited(f, KV(k, c[k])).val
  }

  /** Keys stay; a value changes exactly if it is not zero and `f` answers something else than zero. */
  lemma MappedValues(c: map<int, int>, f: (int, int) -> int)
    ensures MappedMap(c, f).Keys == c.Keys
    ensures forall k :: k in c && c[k] != 0 && f(k, c[k]) != 0 ==> MappedMap(c, f)[k] == f(k, c[k])
    ensures forall k :: k in c && (c[k] == 0 || f(k, c[k]) == 0) ==> MappedMap(c, f)[k] == c[k]
  {
  }

  lemma {:induction false} MappedShape(t: Shape, f: (int, int) -> int, m: int, lo: int, h: nat)
    requires Wf(t, m, lo, h)
    ensures Wf(Mapped(t, f), m, lo, h) && MaxOf(Mapped(t, f)) == MaxOf(t)
    ensures Mapped(t, f).pid == t.pid && Foot(Mapped(t, f)) == Foot(t) && LeafKeys(Mapped(t, f)) == LeafKeys(t)
    decreases t, 1
  {
    if t.Leaf? {
      assert WfTop(t, m, m - 1, lo, h);
      assert WfTop(Mapped(t, f), m, m - 1, lo, h);
    } else {
      hide WfKids, MaxOf, MappedKids, KidsFoot, KidsLeafKeys;
      WfInner(t, m, lo, h);
      MappedKidsShape(t.kids, f, m, lo, h - 1);
      HalfFacts(Inner(t.pid, MappedKids(t.kids, f)), m, lo, h);
    }
  }

  lemma {:induction false} MappedKidsShape(kids: seq<Shape>, f: (int, int) -> int, m: int, lo: int, h: nat)
    requires WfKids(kids, m, lo, h)
    ensures WfKids(MappedKids(kids, f), m, lo, h) && |MappedKids(kids, f)| == |kids|
    ensures LoAfter(MappedKids(kids, f), lo) == LoAfter(kids, lo)
    ensures KidsFoot(MappedKids(kids, f)) == KidsFoot(kids)
    ensures KidsLeafKeys(MappedKids(kids, f)) == KidsLeafKeys(kids)
    decreases kids, 0
  {
    if kids != [] {
      hide Wf, MaxOf, Mapped, Foot, LeafKeys;
      var c, tl := Mapped(kids[0], f), MappedKids(kids[1..], f);
      MappedShape(kids[0], f, m, lo, h);
      MappedKidsShape(kids[1..], f, m, MaxOf(kids[0]), h);
      assert ([c] + tl)[1..] == tl;
      assert LoAfter(kids, lo) == LoAfter(kids[1..], MaxOf(kids[0]));
      assert LoAfter([c] + tl, lo) == LoAfter(tl, MaxOf(c));
    }
  }

  lemma {:induction false} MappedContents(t: Shape, f: (int, int) -> int)
    ensures Contents(Mapped(t, f)) == MappedMap(Contents(t), f)
    decreases t, 1
  {
    if t.Leaf? {
      MappedLeaf(t.kvs, f);
    } else {
      MappedKidsContents(t.kids, f);
    }
  }

  lemma {:induction false} MappedKidsContents(kids: seq<Shape>, f: (int, int) -> int)
    ensures KidsMap(MappedKids(kids, f)) == MappedMap(KidsMap(kids), f)
    decreases kids, 0
  {
    if kids != [] {
      hide Contents, Mapped, MappedMap;
      var hd, tl := Mapped(kids[0], f), MappedKids(kids[1..], f);
      MappedContents(kids[0], f);
      MappedKidsContents(kids[1..], f);
      assert ([hd] + tl)[1..] == tl;
      MappedUnion(Contents(kids[0]), KidsMap(kids[1..]), f);
    } else {
      assert MappedMap(map[], f) == map[];
    }
  }

  lemma MappedUnion(a: map<int, int>, b: map<int, int>, f: (int, int) -> int)
    ensures MappedMap(a + b, f) == MappedMap(a, f) + MappedMap(b, f)
  {
  }

  lemma {:induction false} MappedLeaf(kvs: seq<KV>, f: (int, int) -> int)
    ensures LeafMap(VisitedAll(f, kvs)) == MappedMap(LeafMap(kvs), f)
  {
    if kvs != [] {
      var front := kvs[..|kvs| - 1];
      MappedLeaf(front, f);
      assert VisitedAll(f, kvs)[..|kvs| - 1] == VisitedAll(f, front);
    }
  }

  lemma MappedInner(t: Shape, f: (int, int) -> int)
    requires t.Inner?
    ensures Mapped(t, f).Inner?
  {
  }

  lemma MappedStep(rest: seq<Shape>, done: seq<Shape>, f: (int, int) -> int)
    requires rest != []
    ensures done + MappedKids(rest, f) == done + [Mapped(rest[0], f)] + MappedKids(rest[1..], f)
  {
    hide Mapped;
  }

  lemma EntriesAppend(done: seq<Shape>, c: Shape)
    ensures Entries(done + [c]) == Entries(done) + [KV(MaxOf(c), c.pid)]
  {
  }

  lemma NoEntries()
    ensures Entries([]) == []
  {
  }
}
