/** What the pages alone say about the fields that are lost when a tree is closed: which pages are in
    use, where the free list starts, and how much there is of each. */
module BTreeReload {
  import opened BTreeNode
  import opened BTreeShape

  ghost function HeadOf(free: seq<nat>): nat {
    if free == [] then 0 else free[0]
  }

  /** The pages a tree left behind: tree `t`, free list `fr`, and pages from `next` on never used. */
  ghost predicate Stored(mem: Mem, m: int, t: Shape, h: nat, fr: seq<nat>, next: nat) {
    && GoodMax(m) && t.Inner? && t.pid == 1 && Rep(mem, m, t) && Wf(t, m, 0, h)
    && AllocOk(mem, m, HeadOf(fr), fr, next, Foot(t))
  }

  /** Pages that no tree was ever stored in: none has a number. */
  ghost predicate Blank(mem: Mem, m: int) {
    m >= 0 && forall p :: 0 <= p < |mem| ==> |mem[p]| == 2 * m + 2 && mem[p][2 * m] == 0
  }

  /** The root of a stored tree has its number. */
  lemma StoredNotBlank(mem: Mem, m: int, t: Shape, h: nat, fr: seq<nat>, next: nat)
    requires Stored(mem, m, t, h, fr, next)
    ensures 1 < |mem| && |mem[1]| == 2 * m + 2 && mem[1][2 * m] == 1
  {
    RepHolds(mem, m, t);
  }

  lemma {:induction false} FootIds(mem: Mem, m: int, t: Shape)
    requires Rep(mem, m, t)
    ensures forall p: nat :: p in Foot(t) ==> p < |mem| && m >= 0 && |mem[p]| == 2 * m + 2 && mem[p][2 * m] == p
    decreases t, 1
  {
    if t.Inner? {
      KidsFootIds(mem, m, t.kids);
    }
  }

  lemma {:induction false} KidsFootIds(mem: Mem, m: int, kids: seq<Shape>)
    requires RepKids(mem, m, kids)
    ensures forall p: nat :: p in KidsFoot(kids) ==> p < |mem| && m >= 0 && |mem[p]| == 2 * m + 2 && mem[p][2 * m] == p
    decreases kids, 0
  {
    if kids != [] {
      FootIds(mem, m, kids[0]);
      KidsFootIds(mem, m, kids[1..]);
    }
  }

  /** Each free page points to the next one, the last one to none. */
  lemma {:induction false} FreeNextAt(mem: Mem, m: int, head: int, free: seq<nat>, j: nat)
    requires FreeList(mem, m, head, free) && j < |free|
    ensures free[j] < |mem| && m >= 0 && |mem[free[j]]| == 2 * m + 2 && mem[free[j]][2 * m] == free[j]
    ensures mem[free[j]][0] == if j + 1 < |free| then free[j + 1] else 0
    decreases |free|
  {
    if j > 0 {
      FreeNextAt(mem, m, mem[head][0], free[1..], j - 1);
    }
  }

  lemma FreeNext(mem: Mem, m: int, head: int, free: seq<nat>)
    requires FreeList(mem, m, head, free)
    ensures forall j :: 0 <= j < |free| ==>
      free[j] < |mem| && m >= 0 && |mem[free[j]]| == 2 * m + 2 && mem[free[j]][2 * m] == free[j]
  {
    forall j | 0 <= j < |free|
      ensures free[j] < |mem| && m >= 0 && |mem[free[j]]| == 2 * m + 2 && mem[free[j]][2 * m] == free[j]
    {
      FreeNextAt(mem, m, head, free, j);
    }
  }

  /** The page number of every page below `next` is its own, and none has one from there on. */
  lemma PageIds(mem: Mem, m: int, t: Shape, h: nat, fr: seq<nat>, next: nat)
    requires Stored(mem, m, t, h, fr, next)
    ensures forall p :: 1 <= p < next <= |mem| ==> |mem[p]| == 2 * m + 2 && mem[p][2 * m] == p
    ensures forall p :: next <= p < |mem| ==> |mem[p]| == 2 * m + 2 && mem[p][2 * m] == 0
  {
    hide Rep, Wf, Foot, FreeList;
    FootIds(mem, m, t);
    FreeNext(mem, m, HeadOf(fr), fr);
    forall p: nat | 1 <= p < next <= |mem|
      ensures |mem[p]| == 2 * m + 2 && mem[p][2 * m] == p
    {
      InTreeOrFree(Foot(t), fr, next, p);
    }
  }

  /** A page below `next` is in the tree or, if not, free; never both. */
  lemma InTreeOrFree(foot: multiset<nat>, fr: seq<nat>, next: nat, p: nat)
    requires foot + multiset(fr) == PageRange(next) && 1 <= p < next
    ensures p in foot <==> p !in fr
  {
    assert (foot + multiset(fr))[p] == foot[p] + multiset(fr)[p] == 1;
  }

  /** The free pages are all different. */
  lemma FreeDistinct(foot: multiset<nat>, fr: seq<nat>, next: nat)
    requires foot + multiset(fr) == PageRange(next)
    ensures forall i, j :: 0 <= i < j < |fr| ==> fr[i] != fr[j]
    ensures forall i :: 0 <= i < |fr| ==> 1 <= fr[i] < next
  {
    forall i | 0 <= i < |fr|
      ensures 1 <= fr[i] < next
    {
      assert (foot + multiset(fr))[fr[i]] > 0;
    }
    forall i, j | 0 <= i < j < |fr|
      ensures fr[i] != fr[j]
    {
      assert fr == fr[..j] + fr[j..];
      assert fr[..j][i] == fr[i] && fr[j..][0] == fr[j];
      assert multiset(fr) == multiset(fr[..j]) + multiset(fr[j..]);
      assert (foot + multiset(fr))[fr[i]] <= 1;
    }
  }

  /** The free pages below `n`. */
  ghost function FreeBelow(fr: seq<nat>, n: nat): set<nat> {
    set p | p in fr && p < n
  }

  lemma FreeBelowStep(fr: seq<nat>, n: nat)
    ensures |FreeBelow(fr, n + 1)| == |FreeBelow(fr, n)| + if n in fr then 1 else 0
  {
    assert FreeBelow(fr, n + 1) == FreeBelow(fr, n) + if n in fr then {n} else {};
  }

  lemma FreeBelowOne(fr: seq<nat>)
    requires forall i :: 0 <= i < |fr| ==> 1 <= fr[i]
    ensures |FreeBelow(fr, 1)| == 0
  {
    assert FreeBelow(fr, 1) == {};
  }

  lemma {:induction false} DistinctCount(fr: seq<nat>, n: nat)
    requires forall i, j :: 0 <= i < j < |fr| ==> fr[i] != fr[j]
    requires forall i :: 0 <= i < |fr| ==> fr[i] < n
    ensures |FreeBelow(fr, n)| == |fr|
    decreases |fr|
  {
    if fr == [] {
      assert FreeBelow(fr, n) == {};
    } else {
      var tl := fr[1..];
      DistinctCount(tl, n);
      assert fr == [fr[0]] + tl;
      assert FreeBelow(fr, n) == FreeBelow(tl, n) + {fr[0]};
      assert fr[0] !in tl;
    }
  }

  /** Some free page points to page `p`. */
  ghost predicate Pointed(mem: Mem, fr: seq<nat>, p: int) {
    exists q :: q in fr && q < |mem| && |mem[q]| > 0 && mem[q][0] == p
  }

  /** The head is the one free page that no free page points to. */
  lemma OnlyHead(mem: Mem, m: int, fr: seq<nat>, foot: multiset<nat>, next: nat, p: nat)
    requires FreeList(mem, m, HeadOf(fr), fr) && foot + multiset(fr) == PageRange(next) && p in fr
    ensures Pointed(mem, fr, p) <==> p != HeadOf(fr)
  {
    FreeDistinct(foot, fr, next);
    var i :| 0 <= i < |fr| && fr[i] == p;
    if i > 0 {
      FreeNextAt(mem, m, HeadOf(fr), fr, i - 1);
      assert fr[i - 1] in fr;
    }
    if Pointed(mem, fr, p) {
      var q :| q in fr && q < |mem| && |mem[q]| > 0 && mem[q][0] == p;
      var j :| 0 <= j < |fr| && fr[j] == q;
      FreeNextAt(mem, m, HeadOf(fr), fr, j);
    }
  }

  lemma StoredNext(mem: Mem, m: int, t: Shape, h: nat, fr: seq<nat>, next: nat)
    requires Stored(mem, m, t, h, fr, next)
    ensures 1 <= next <= |mem|
  {
  }

  lemma RootInMem(mem: Mem, m: int, t: Shape)
    requires Rep(mem, m, t)
    ensures t.pid < |mem| && t.pid in Foot(t)
  {
  }

  lemma LeafSize(t: Shape)
    requires t.Leaf?
    ensures LeafKeys(t) == |NodeOf(t).kvs| && Foot(t) == multiset{t.pid}
  {
  }

  lemma NothingBefore(kids: seq<Shape>)
    ensures kids[..0] == [] && KidsFoot(kids[..0]) == multiset{} && KidsLeafKeys(kids[..0]) == 0
  {
  }

  /** One more child: its pages and its keys. */
  lemma KidsUpTo(t: Shape, i: nat)
    requires t.Inner? && i < |t.kids|
    ensures KidsFoot(t.kids[..i + 1]) == KidsFoot(t.kids[..i]) + Foot(t.kids[i])
    ensures KidsLeafKeys(t.kids[..i + 1]) == KidsLeafKeys(t.kids[..i]) + LeafKeys(t.kids[i])
    ensures forall p: nat :: p in Foot(t.kids[i]) ==> p in Foot(t)
    ensures t.kids[i].pid in Foot(t.kids[i])
  {
    hide KidsFoot, KidsLeafKeys;
    assert t.kids[..i + 1] == t.kids[..i] + [t.kids[i]];
    KidsFootConcat(t.kids[..i], [t.kids[i]]);
    KidsFootOne(t.kids[i]);
    KidsLeafKeysConcat(t.kids[..i], [t.kids[i]]);
    KidsLeafKeysOne(t.kids[i]);
    KidFoot(t.kids, i);
  }

  ghost predicate PointedBelow(mem: Mem, fr: seq<nat>, n: nat, p: int) {
    exists q :: q in fr && q < n && q < |mem| && |mem[q]| > 0 && mem[q][0] == p
  }

  /** `pointed` lists what the free pages below `n` point to. */
  ghost predicate Lists(mem: Mem, fr: seq<nat>, n: nat, pointed: seq<int>) {
    forall p :: p in pointed <==> p != 0 && PointedBelow(mem, fr, n, p)
  }

  lemma ListsStep(mem: Mem, fr: seq<nat>, n: nat, pointed: seq<int>)
    requires n < |mem| && |mem[n]| > 0 && Lists(mem, fr, n, pointed)
    ensures Lists(mem, fr, n + 1, if n in fr && mem[n][0] != 0 then pointed + [mem[n][0]] else pointed)
  {
    var pointed' := if n in fr && mem[n][0] != 0 then pointed + [mem[n][0]] else pointed;
    forall p
      ensures p in pointed' <==> p != 0 && PointedBelow(mem, fr, n + 1, p)
    {
      assert PointedBelow(mem, fr, n + 1, p) <==> PointedBelow(mem, fr, n, p) || (n in fr && mem[n][0] == p);
    }
  }

  lemma ListsNothing(mem: Mem, fr: seq<nat>)
    requires forall i :: 0 <= i < |fr| ==> 1 <= fr[i]
    ensures Lists(mem, fr, 1, [])
  {
  }

  lemma ListsAll(mem: Mem, fr: seq<nat>, next: nat, pointed: seq<int>)
    requires (forall i :: 0 <= i < |fr| ==> fr[i] < next) && Lists(mem, fr, next, pointed)
    ensures forall p :: p in pointed <==> p != 0 && Pointed(mem, fr, p)
  {
    assert forall p :: Pointed(mem, fr, p) <==> PointedBelow(mem, fr, next, p);
  }

  lemma PointedInRange(mem: Mem, m: int, fr: seq<nat>, foot: multiset<nat>, next: nat)
    requires FreeList(mem, m, HeadOf(fr), fr) && foot + multiset(fr) == PageRange(next)
    ensures forall p :: p != 0 && Pointed(mem, fr, p) ==> 1 <= p < next
  {
    FreeDistinct(foot, fr, next);
    forall p | p != 0 && Pointed(mem, fr, p)
      ensures 1 <= p < next
    {
      var q :| q in fr && q < |mem| && |mem[q]| > 0 && mem[q][0] == p;
      var j :| 0 <= j < |fr| && fr[j] == q;
      FreeNextAt(mem, m, HeadOf(fr), fr, j);
    }
  }

  lemma HeadInRange(foot: multiset<nat>, fr: seq<nat>, next: nat)
    requires foot + multiset(fr) == PageRange(next)
    ensures HeadOf(fr) == 0 || 1 <= HeadOf(fr) < next
    ensures fr != [] ==> HeadOf(fr) in fr && HeadOf(fr) != 0
  {
    FreeDistinct(foot, fr, next);
  }
}
