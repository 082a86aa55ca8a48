/** The logical tree that a set of pages stands for: which pages it owns, the map it represents, and
    the structural invariant.  An internal node carries no keys of its own: by `Rep` the key stored
    for a child is the child's maximum key. */
module BTreeShape {
  import opened BTreeNode

  datatype Shape = Leaf(pid: nat, kvs: seq<KV>) | Inner(pid: nat, kids: seq<Shape>)

  type Mem = seq<seq<int>>

  // ---- What the pages say ----

  ghost function MaxOf(t: Shape): int {
    match t
    case Leaf(_, kvs) => LastKey(kvs)
    case Inner(_, kids) => if kids == [] then 0 else MaxOf(kids[|kids| - 1])
  }

  ghost function Entries(kids: seq<Shape>): seq<KV> {
    seq(|kids|, i requires 0 <= i < |kids| => KV(MaxOf(kids[i]), kids[i].pid))
  }

  ghost function NodeOf(t: Shape): Node {
    match t
    case Leaf(pid, kvs) => Node(pid, true, kvs)
    case Inner(pid, kids) => Node(pid, false, Entries(kids))
  }

  /** Every page of `t` holds the node it stands for. */
  ghost predicate Rep(mem: Mem, m: int, t: Shape) {
    && t.pid < |mem|
    && Holds(mem[t.pid], m, NodeOf(t))
    && (t.Inner? ==> RepKids(mem, m, t.kids))
  }

  ghost predicate RepKids(mem: Mem, m: int, kids: seq<Shape>) {
    forall i :: 0 <= i < |kids| ==> Rep(mem, m, kids[i])
  }

  /** The pages of a tree, each as often as it is reached. */
  ghost function Foot(t: Shape): multiset<nat>
    decreases t, 1
  {
    match t
    case Leaf(pid, _) => multiset{pid}
    case Inner(pid, kids) => multiset{pid} + KidsFoot(kids)
  }

  ghost function KidsFoot(kids: seq<Shape>): multiset<nat>
    decreases kids, 0
  {
    if kids == [] then multiset{} else Foot(kids[0]) + KidsFoot(kids[1..])
  }

  // ---- What the tree means ----

  ghost function LeafMap(kvs: seq<KV>): map<int, int> {
    if kvs == [] then map[] else
      var last := kvs[|kvs| - 1];
      LeafMap(kvs[..|kvs| - 1])[last.key := last.val]
  }

  ghost function Contents(t: Shape): map<int, int>
    decreases t, 1
  {
    match t
    case Leaf(_, kvs) => LeafMap(kvs)
    case Inner(_, kids) => KidsMap(kids)
  }

  ghost function KidsMap(kids: seq<Shape>): map<int, int>
    decreases kids, 0
  {
    if kids == [] then map[] else Contents(kids[0]) + KidsMap(kids[1..])
  }

  ghost function LeafKeys(t: Shape): nat
    decreases t, 1
  {
    match t
    case Leaf(_, kvs) => |kvs|
    case Inner(_, kids) => KidsLeafKeys(kids)
  }

  ghost function KidsLeafKeys(kids: seq<Shape>): nat
    decreases kids, 0
  {
    if kids == [] then 0 else LeafKeys(kids[0]) + KidsLeafKeys(kids[1..])
  }

  ghost function Lookup(c: map<int, int>, k: int): int {
    if k in c then c[k] else 0
  }

  // ---- The structural invariant ----

  /** Keys ascend and lie above `lo`, all leaves are at depth `h`, every node below the top has
      between 1 and m - 1 keys, and the top one between 1 and `top`. */
  ghost predicate WfTop(t: Shape, m: int, top: int, lo: int, h: nat)
    decreases t, 1
  {
    match t
    case Leaf(_, kvs) => h == 0 && 0 < |kvs| <= top && Sorted(kvs) && kvs[0].key > lo
    case Inner(_, kids) => h > 0 && 0 < |kids| <= top && WfKids(kids, m, lo, h - 1)
  }

  ghost predicate Wf(t: Shape, m: int, lo: int, h: nat)
    decreases t, 2
  {
    WfTop(t, m, m - 1, lo, h)
  }

  /** Siblings in ascending order: the keys of each lie above the maximum of the one before it. */
  ghost predicate WfKids(kids: seq<Shape>, m: int, lo: int, h: nat)
    decreases kids, 0
  {
    kids == [] || (Wf(kids[0], m, lo, h) && WfKids(kids[1..], m, MaxOf(kids[0]), h))
  }

  ghost function LoAfter(kids: seq<Shape>, lo: int): int {
    if kids == [] then lo else MaxOf(kids[|kids| - 1])
  }

  // ---- Concatenation ----

  lemma {:induction false} KidsFootConcat(a: seq<Shape>, b: seq<Shape>)
    ensures KidsFoot(a + b) == KidsFoot(a) + KidsFoot(b)
  {
    hide Foot;
    if a == [] {
      assert a + b == b;
    } else {
      KidsFootConcat(a[1..], b);
      assert (a + b)[0] == a[0] && (a + b)[1..] == a[1..] + b;
      assert KidsFoot(a + b) == Foot(a[0]) + KidsFoot(a[1..] + b);
    }
  }

  lemma {:induction false} KidsMapConcat(a: seq<Shape>, b: seq<Shape>)
    ensures KidsMap(a + b) == KidsMap(a) + KidsMap(b)
  {
    if a == [] {
      assert a + b == b;
    } else {
      KidsMapConcat(a[1..], b);
      assert (a + b)[1..] == a[1..] + b;
    }
  }

  lemma {:induction false} KidsLeafKeysConcat(a: seq<Shape>, b: seq<Shape>)
    ensures KidsLeafKeys(a + b) == KidsLeafKeys(a) + KidsLeafKeys(b)
  {
    if a == [] {
      assert a + b == b;
    } else {
      KidsLeafKeysConcat(a[1..], b);
      assert (a + b)[1..] == a[1..] + b;
    }
  }

  lemma {:induction false} WfKidsConcat(a: seq<Shape>, b: seq<Shape>, m: int, lo: int, h: nat)
    ensures WfKids(a + b, m, lo, h) <==> WfKids(a, m, lo, h) && WfKids(b, m, LoAfter(a, lo), h)
    decreases |a|
  {
    if a == [] {
      assert a + b == b;
    } else {
      WfKidsConcat(a[1..], b, m, MaxOf(a[0]), h);
      assert (a + b)[0] == a[0] && (a + b)[1..] == a[1..] + b;
      assert LoAfter(a[1..], MaxOf(a[0])) == LoAfter(a, lo);
    }
  }

  // ---- Key ranges ----

  /** The keys of the map are the keys of the pairs. */
  lemma {:induction false} LeafMapAt(kvs: seq<KV>, k: int) returns (i: nat)
    requires k in LeafMap(kvs)
    ensures i < |kvs| && kvs[i].key == k
  {
    i := |kvs| - 1;
    if kvs[i].key != k {
      i := LeafMapAt(kvs[..|kvs| - 1], k);
    }
  }

  lemma {:induction false} LeafMapHas(kvs: seq<KV>, i: nat)
    requires Sorted(kvs) && i < |kvs|
    ensures kvs[i].key in LeafMap(kvs) && LeafMap(kvs)[kvs[i].key] == kvs[i].val
  {
    var n := |kvs| - 1;
    if i < n {
      LeafMapHas(kvs[..n], i);
      assert kvs[i].key < kvs[n].key;
    }
  }

  lemma HasKeyAt(kvs: seq<KV>, i: nat)
    requires Sorted(kvs) && i < |kvs|
    ensures HasKey(kvs, kvs[i].key) && kvs[0].key <= kvs[i].key <= kvs[|kvs| - 1].key
  {
    RankIsFirst(kvs, kvs[i].key, i);
  }

  lemma LeafMapRange(kvs: seq<KV>, lo: int)
    requires Sorted(kvs) && (kvs != [] ==> kvs[0].key > lo)
    ensures forall k :: k in LeafMap(kvs) ==> lo < k && kvs != [] && k <= kvs[|kvs| - 1].key
    ensures forall i :: 0 <= i < |kvs| ==> kvs[i].key in LeafMap(kvs) && LeafMap(kvs)[kvs[i].key] == kvs[i].val
    ensures forall k :: k in LeafMap(kvs) ==> HasKey(kvs, k)
  {
    hide LeafMap, HasKey, Sorted;
    forall i | 0 <= i < |kvs|
      ensures kvs[i].key in LeafMap(kvs) && LeafMap(kvs)[kvs[i].key] == kvs[i].val
    {
      LeafMapHas(kvs, i);
    }
    forall k | k in LeafMap(kvs)
      ensures lo < k && kvs != [] && k <= kvs[|kvs| - 1].key && HasKey(kvs, k)
    {
      var i := LeafMapAt(kvs, k);
      HasKeyAt(kvs, i);
    }
  }

  lemma {:induction false} ContentsRange(t: Shape, m: int, top: int, lo: int, h: nat)
    requires WfTop(t, m, top, lo, h)
    ensures lo < MaxOf(t) && MaxOf(t) in Contents(t)
    ensures forall k :: k in Contents(t) ==> lo < k <= MaxOf(t)
    decreases t, 1
  {
    match t {
      case Leaf(_, kvs) =>
        LeafMapRange(kvs, lo);
        assert kvs[|kvs| - 1].key in LeafMap(kvs);
      case Inner(_, kids) =>
        KidsRange(kids, m, lo, h - 1);
    }
  }

  lemma {:induction false} KidsRange(kids: seq<Shape>, m: int, lo: int, h: nat)
    requires WfKids(kids, m, lo, h)
    ensures lo <= LoAfter(kids, lo)
    ensures kids != [] ==> lo < LoAfter(kids, lo) && LoAfter(kids, lo) in KidsMap(kids)
    ensures forall k :: k in KidsMap(kids) ==> lo < k <= LoAfter(kids, lo)
    decreases kids, 0
  {
    if kids != [] {
      ContentsRange(kids[0], m, m - 1, lo, h);
      KidsRange(kids[1..], m, MaxOf(kids[0]), h);
      assert LoAfter(kids, lo) == LoAfter(kids[1..], MaxOf(kids[0]));
    }
  }

  /** A tree stays well formed when its lower bound drops. */
  lemma {:induction false} WfLower(t: Shape, m: int, top: int, lo: int, lo': int, h: nat)
    requires WfTop(t, m, top, lo, h) && lo' <= lo
    ensures WfTop(t, m, top, lo', h)
    decreases t
  {
    if t.Inner? {
      assert Wf(t.kids[0], m, lo, h - 1);
      WfLower(t.kids[0], m, m - 1, lo, lo', h - 1);
    }
  }

  lemma {:induction false} EntriesSorted(kids: seq<Shape>, m: int, lo: int, h: nat)
    requires WfKids(kids, m, lo, h)
    ensures Sorted(Entries(kids))
    ensures forall i :: 0 <= i < |kids| ==> Entries(kids)[i].key > lo
    decreases |kids|
  {
    if kids != [] {
      ContentsRange(kids[0], m, m - 1, lo, h);
      EntriesSorted(kids[1..], m, MaxOf(kids[0]), h);
      var es := Entries(kids);
      assert forall i :: 1 <= i < |es| ==> es[i] == Entries(kids[1..])[i - 1];
    }
  }

  // ---- Frames ----

  /** A child's pages among those of its siblings. */
  lemma {:induction false} KidFoot(kids: seq<Shape>, i: nat)
    requires i < |kids|
    ensures Foot(kids[i]) <= KidsFoot(kids)
  {
    if i > 0 {
      KidFoot(kids[1..], i - 1);
    }
  }

  /** `Rep` depends on the tree's own pages only. */
  lemma {:induction false} RepFrame(mem: Mem, mem': Mem, m: int, t: Shape)
    requires Rep(mem, m, t)
    requires forall p: nat :: p in Foot(t) ==> p < |mem'| && (p < |mem| ==> mem'[p] == mem[p])
    ensures Rep(mem', m, t)
    decreases t, 1
  {
    if t.Inner? {
      assert forall p: nat :: p in KidsFoot(t.kids) ==> p in Foot(t);
      RepKidsFrame(mem, mem', m, t.kids);
    }
  }

  lemma {:induction false} RepKidsFrame(mem: Mem, mem': Mem, m: int, kids: seq<Shape>)
    requires RepKids(mem, m, kids)
    requires forall p: nat :: p in KidsFoot(kids) ==> p < |mem'| && (p < |mem| ==> mem'[p] == mem[p])
    ensures RepKids(mem', m, kids)
    decreases kids, 0
  {
    forall i | 0 <= i < |kids|
      ensures Rep(mem', m, kids[i])
    {
      KidFoot(kids, i);
      assert forall p: nat :: p in Foot(kids[i]) ==> p in KidsFoot(kids);
      RepFrame(mem, mem', m, kids[i]);
    }
  }

  // ---- Reading ----

  /** The child that the search selects is the only one that can hold `k`. */
  lemma {:induction false} LookupKid(kids: seq<Shape>, m: int, lo: int, h: nat, k: int, i: nat)
    requires WfKids(kids, m, lo, h) && i == Rank(Entries(kids), k)
    ensures Lookup(KidsMap(kids), k) == if i == |kids| then 0 else Lookup(Contents(kids[i]), k)
    decreases |kids|
  {
    if kids != [] {
      ContentsRange(kids[0], m, m - 1, lo, h);
      KidsRange(kids[1..], m, MaxOf(kids[0]), h);
      if MaxOf(kids[0]) < k {
        assert Entries(kids)[1..] == Entries(kids[1..]);
        LookupKid(kids[1..], m, MaxOf(kids[0]), h, k, i - 1);
      }
    }
  }

  lemma LookupLeaf(kvs: seq<KV>, k: int, lo: int)
    requires Sorted(kvs) && (kvs != [] ==> kvs[0].key > lo)
    ensures Lookup(LeafMap(kvs), k) == if HasKey(kvs, k) then kvs[Rank(kvs, k)].val else 0
    ensures k in LeafMap(kvs) <==> HasKey(kvs, k)
  {
    LeafMapRange(kvs, lo);
  }

  // ---- Writing ----

  /** Putting a pair into a leaf. */
  lemma PutSorted(kvs: seq<KV>, k: int, v: int, lo: int)
    requires Sorted(kvs) && (kvs != [] ==> kvs[0].key > lo) && k > lo
    ensures Sorted(Put(kvs, k, v)) && Put(kvs, k, v)[0].key > lo
    ensures |Put(kvs, k, v)| == |kvs| + if HasKey(kvs, k) then 0 else 1
    ensures kvs != [] && k <= kvs[|kvs| - 1].key ==> Put(kvs, k, v)[|Put(kvs, k, v)| - 1].key == kvs[|kvs| - 1].key
  {
    hide Rank, HasKey, Put;
    var r := Rank(kvs, k);
    PutAt(kvs, k, v, r);
    var q := Put(kvs, k, v);
    forall i, j | 0 <= i < j < |q|
      ensures q[i].key < q[j].key
    {
      if HasKey(kvs, k) {
        assert q[i].key == kvs[i].key && q[j].key == kvs[j].key;
      } else {
        assert q[i] == if i < r then kvs[i] else if i == r then KV(k, v) else kvs[i - 1];
        assert q[j] == if j < r then kvs[j] else if j == r then KV(k, v) else kvs[j - 1];
        assert r < |kvs| && j > r ==> kvs[r].key <= kvs[j - 1].key;
      }
    }
  }

  lemma {:induction false} LeafMapConcat(a: seq<KV>, b: seq<KV>)
    ensures LeafMap(a + b) == LeafMap(a) + LeafMap(b)
  {
    if b == [] {
      assert a + b == a;
    } else {
      LeafMapConcat(a, b[..|b| - 1]);
      assert (a + b)[..|a + b| - 1] == a + b[..|b| - 1];
    }
  }

  /** `Put` replaces a middle piece, the old pair for `k` if there is one, by the new pair. */
  lemma PutSplit(kvs: seq<KV>, k: int, v: int) returns (a: seq<KV>, mid: seq<KV>, b: seq<KV>)
    requires Sorted(kvs)
    ensures kvs == a + mid + b && Put(kvs, k, v) == a + [KV(k, v)] + b
    ensures mid == [] || (|mid| == 1 && mid[0].key == k)
    ensures Sorted(b) && (b != [] ==> b[0].key > k)
  {
    var r := Rank(kvs, k);
    var s := if HasKey(kvs, k) then r + 1 else r;
    a, mid, b := kvs[..r], kvs[r..s], kvs[s..];
  }

  lemma PutMap(kvs: seq<KV>, k: int, v: int)
    requires Sorted(kvs)
    ensures LeafMap(Put(kvs, k, v)) == LeafMap(kvs)[k := v]
  {
    hide LeafMap, Put, Rank, HasKey, Sorted;
    var a, mid, b := PutSplit(kvs, k, v);
    LeafMapThree(a, mid, b);
    LeafMapThree(a, [KV(k, v)], b);
    LeafMapRange(b, k);
    LeafMapOne(KV(k, v));
    if mid == [] {
      LeafMapNone();
    } else {
      LeafMapOne(mid[0]);
      assert mid == [mid[0]];
    }
    UpdateMiddle(LeafMap(a), LeafMap(mid), map[k := v], LeafMap(b), k, v);
  }

  lemma LeafMapNone()
    ensures LeafMap([]) == map[]
  {
  }

  lemma LeafMapOne(kv: KV)
    ensures LeafMap([kv]) == map[kv.key := kv.val]
  {
    assert [kv][..0] == [];
  }

  lemma LeafMapThree(a: seq<KV>, x: seq<KV>, b: seq<KV>)
    ensures LeafMap(a + x + b) == LeafMap(a) + LeafMap(x) + LeafMap(b)
  {
    LeafMapConcat(a + x, b);
    LeafMapConcat(a, x);
  }

  lemma UpdateMiddle(a: map<int, int>, c: map<int, int>, c': map<int, int>, b: map<int, int>, k: int, v: int)
    requires c' == c[k := v] && k !in b
    ensures a + c' + b == (a + c + b)[k := v]
  {
  }

  /** Replacing one child by one or two that hold its pairs and the new one. */
  lemma SpliceKids(a: seq<Shape>, mid: seq<Shape>, b: seq<Shape>, m: int, lo: int, h: nat)
    requires WfKids(a, m, lo, h) && mid != []
    requires WfKids(mid, m, LoAfter(a, lo), h) && WfKids(b, m, LoAfter(mid, lo), h)
    ensures WfKids(a + mid + b, m, lo, h)
    ensures LoAfter(a + mid + b, lo) == if b == [] then LoAfter(mid, lo) else LoAfter(b, lo)
  {
    WfKidsConcat(a, mid, m, lo, h);
    WfKidsConcat(a + mid, b, m, lo, h);
  }

  lemma SpliceMap(a: seq<Shape>, c: map<int, int>, mid: seq<Shape>, b: seq<Shape>, m: int, hi: int, h: nat, k: int,
                  v: int)
    requires KidsMap(mid) == c[k := v] && k <= hi && WfKids(b, m, hi, h)
    ensures KidsMap(a + mid + b) == (KidsMap(a) + c + KidsMap(b))[k := v]
  {
    KidsMapThree(a, mid, b);
    KidsRange(b, m, hi, h);
    UpdateMiddle(KidsMap(a), c, KidsMap(mid), KidsMap(b), k, v);
  }

  lemma KidsMapOne(c: Shape)
    ensures KidsMap([c]) == Contents(c)
  {
    assert [c][1..] == [];
  }

  lemma KidsMapThree(a: seq<Shape>, x: seq<Shape>, b: seq<Shape>)
    ensures KidsMap(a + x + b) == KidsMap(a) + KidsMap(x) + KidsMap(b)
  {
    KidsMapConcat(a + x, b);
    KidsMapConcat(a, x);
  }

  lemma KidsFootThree(a: seq<Shape>, x: seq<Shape>, b: seq<Shape>)
    ensures KidsFoot(a + x + b) == KidsFoot(a) + KidsFoot(x) + KidsFoot(b)
  {
    KidsFootConcat(a + x, b);
    KidsFootConcat(a, x);
  }

  lemma KidsFootOne(c: Shape)
    ensures KidsFoot([c]) == Foot(c)
  {
    assert [c][1..] == [];
  }

  lemma KidsLeafKeysThree(a: seq<Shape>, x: seq<Shape>, b: seq<Shape>)
    ensures KidsLeafKeys(a + x + b) == KidsLeafKeys(a) + KidsLeafKeys(x) + KidsLeafKeys(b)
  {
    KidsLeafKeysConcat(a + x, b);
    KidsLeafKeysConcat(a, x);
  }

  // ---- Splitting a full node ----

  ghost function Size(t: Shape): nat {
    if t.Leaf? then |t.kvs| else |t.kids|
  }

  ghost function Lower(t: Shape, at: nat): Shape
    requires at <= Size(t)
  {
    match t
    case Leaf(pid, kvs) => Leaf(pid, kvs[..at])
    case Inner(pid, kids) => Inner(pid, kids[..at])
  }

  /** The upper part, on page `pid`. */
  ghost function Upper(t: Shape, at: nat, pid: nat): Shape
    requires at <= Size(t)
  {
    match t
    case Leaf(_, kvs) => Leaf(pid, kvs[at..])
    case Inner(_, kids) => Inner(pid, kids[at..])
  }

  lemma SplitNodes(t: Shape, at: nat, pid: nat)
    requires at <= Size(t)
    ensures NodeOf(Lower(t, at)) == NodeOf(t).(kvs := NodeOf(t).kvs[..at])
    ensures NodeOf(Upper(t, at, pid)) == NodeOf(t).(pid := pid, kvs := NodeOf(t).kvs[at..])
  {
    if t.Inner? {
      assert Entries(t.kids[..at]) == Entries(t.kids)[..at];
      assert Entries(t.kids[at..]) == Entries(t.kids)[at..];
    }
  }

  lemma SplitFoot(t: Shape, at: nat, pid: nat)
    requires at <= Size(t)
    ensures KidsFoot([Lower(t, at), Upper(t, at, pid)]) == Foot(t) + multiset{pid}
    ensures KidsLeafKeys([Lower(t, at), Upper(t, at, pid)]) == LeafKeys(t)
  {
    hide KidsFoot, KidsLeafKeys, Foot, LeafKeys, Lower, Upper;
    var c, d := Lower(t, at), Upper(t, at, pid);
    assert [c, d] == [c] + [d];
    KidsFootConcat([c], [d]);
    KidsFootOne(c);
    KidsFootOne(d);
    KidsLeafKeysConcat([c], [d]);
    KidsLeafKeysOne(c);
    KidsLeafKeysOne(d);
    SplitCounts(t, at, pid);
  }

  lemma SplitCounts(t: Shape, at: nat, pid: nat)
    requires at <= Size(t)
    ensures Foot(Lower(t, at)) + Foot(Upper(t, at, pid)) == Foot(t) + multiset{pid}
    ensures LeafKeys(Lower(t, at)) + LeafKeys(Upper(t, at, pid)) == LeafKeys(t)
  {
    hide KidsFoot, KidsLeafKeys;
    if t.Inner? {
      assert t.kids == t.kids[..at] + t.kids[at..];
      KidsFootConcat(t.kids[..at], t.kids[at..]);
      KidsLeafKeysConcat(t.kids[..at], t.kids[at..]);
    }
  }

  lemma SplitMap(t: Shape, at: nat, pid: nat)
    requires at <= Size(t)
    ensures KidsMap([Lower(t, at), Upper(t, at, pid)]) == Contents(t)
  {
    var c, d := Lower(t, at), Upper(t, at, pid);
    assert [c, d] == [c] + [d];
    KidsMapConcat([c], [d]);
    KidsMapOne(c);
    KidsMapOne(d);
    if t.Inner? {
      assert t.kids == t.kids[..at] + t.kids[at..];
      KidsMapConcat(t.kids[..at], t.kids[at..]);
    } else {
      assert t.kvs == t.kvs[..at] + t.kvs[at..];
      LeafMapConcat(t.kvs[..at], t.kvs[at..]);
    }
  }

  lemma SplitWf(t: Shape, m: int, lo: int, h: nat, at: nat, pid: nat)
    requires WfTop(t, m, m, lo, h) && 0 < at < Size(t)
    ensures WfKids([Lower(t, at), Upper(t, at, pid)], m, lo, h)
    ensures MaxOf(Upper(t, at, pid)) == MaxOf(t)
    ensures lo < MaxOf(Lower(t, at)) < MaxOf(t)
  {
    var c, d := Lower(t, at), Upper(t, at, pid);
    if t.Inner? {
      assert t.kids == t.kids[..at] + t.kids[at..];
      WfKidsConcat(t.kids[..at], t.kids[at..], m, lo, h - 1);
    }
    assert Wf(c, m, lo, h);
    assert t.Leaf? ==> d.kvs[0] == t.kvs[at] && MaxOf(c) == t.kvs[at - 1].key;
    assert Wf(d, m, MaxOf(c), h);
    ContentsRange(c, m, m - 1, lo, h);
    ContentsRange(d, m, m - 1, MaxOf(c), h);
    assert [c, d][1..] == [d] && [d][1..] == [];
  }

  lemma PutTwice(a: seq<KV>, b: seq<KV>, k1: int, k2: int, p: int, q: int)
    requires Sorted(a + [KV(k2, p)] + b) && k1 < k2
    requires a != [] ==> a[|a| - 1].key < k1
    ensures !HasKey(a + [KV(k2, p)] + b, k1)
    ensures Put(a + [KV(k2, p)] + b, k1, p) == a + [KV(k1, p), KV(k2, p)] + b
    ensures HasKey(a + [KV(k1, p), KV(k2, p)] + b, k2)
    ensures Put(a + [KV(k1, p), KV(k2, p)] + b, k2, q) == a + [KV(k1, p), KV(k2, q)] + b
  {
    hide Rank, HasKey, Put, Sorted;
    var x, y, z := KV(k1, p), KV(k2, p), KV(k2, q);
    assert a + [y] + b == a + ([y] + b);
    FrontSorted(a, [y] + b, [x]);
    PutBetween(a, [y] + b, k1, p);
    assert a + [x, y] + b == a + ([x] + ([y] + b)) == a + [x] + [y] + b;
    PutOver(a + [x], y, b, q);
    assert a + [x, z] + b == a + [x] + [z] + b;
  }

  lemma FrontSorted(a: seq<KV>, w: seq<KV>, x: seq<KV>)
    requires Sorted(a + w) && |x| == 1 && (a != [] ==> a[|a| - 1].key < x[0].key)
    ensures forall i :: 0 <= i < |a| ==> a[i].key < x[0].key
    ensures forall i :: 0 <= i < |a + x| ==> (a + x)[i].key <= x[0].key
  {
    assert forall i :: 0 <= i < |a| ==> (a + w)[i] == a[i];
  }

  /** A new key goes between `a` and `w`. */
  lemma PutBetween(a: seq<KV>, w: seq<KV>, k: int, v: int)
    requires forall i :: 0 <= i < |a| ==> a[i].key < k
    requires w != [] && k < w[0].key
    ensures !HasKey(a + w, k) && Put(a + w, k, v) == a + ([KV(k, v)] + w)
  {
    hide Rank, HasKey, Put;
    var s := a + w;
    RankIsFirst(s, k, |a|);
    PutAt(s, k, v, |a|);
    assert s[..|a|] == a && s[|a|..] == w;
    assert a + [KV(k, v)] + w == a + ([KV(k, v)] + w);
  }

  /** An old key gets its new value in place. */
  lemma PutOver(a: seq<KV>, e: KV, b: seq<KV>, v: int)
    requires forall i :: 0 <= i < |a| ==> a[i].key < e.key
    ensures HasKey(a + [e] + b, e.key) && Put(a + [e] + b, e.key, v) == a + [KV(e.key, v)] + b
  {
    hide Rank, HasKey, Put;
    var s := a + [e] + b;
    assert forall i :: 0 <= i < |a| ==> s[i] == a[i];
    RankIsFirst(s, e.key, |a|);
    PutAt(s, e.key, v, |a|);
  }

  lemma PositiveInsert(a: seq<KV>, e: KV, x: KV, b: seq<KV>)
    requires Positive(a + [x] + b) && e.key > 0
    ensures Positive(a + [e, x] + b)
  {
    var s, u := a + [x] + b, a + [e, x] + b;
    forall i | 0 <= i < |u|
      ensures u[i].key > 0
    {
      assert u[i] == if i == |a| then e else s[if i < |a| then i else i - 1];
    }
  }

  // ---- The free pages ----

  /** `head` starts the list `free`, threaded through word 0 of its pages. */
  ghost predicate FreeList(mem: Mem, m: int, head: int, free: seq<nat>)
    decreases |free|
  {
    if free == [] then head == 0 else
      && head == free[0] && 0 < head < |mem|
      && m >= 0 && |mem[head]| == 2 * m + 2 && mem[head][2 * m] == head
      && FreeList(mem, m, mem[head][0], free[1..])
  }

  /** Pages from `next` on were never used: their page number is still zero. */
  ghost predicate Unused(mem: Mem, m: int, next: nat) {
    && 1 <= next <= |mem|
    && forall p :: next <= p < |mem| ==> m >= 0 && |mem[p]| == 2 * m + 2 && mem[p][2 * m] == 0
  }

  /** The pages 1 to `next - 1`, each once. */
  ghost function PageRange(next: nat): (r: multiset<nat>)
    ensures forall p: nat :: r[p] == if 1 <= p < next then 1 else 0
  {
    if next <= 1 then multiset{} else PageRange(next - 1) + multiset{next - 1}
  }

  lemma {:induction false} RangeCount(next: nat)
    ensures |PageRange(next)| == if next <= 1 then 0 else next - 1
  {
    if next > 1 {
      RangeCount(next - 1);
    }
  }

  lemma {:induction false} FreeListFrame(mem: Mem, mem': Mem, m: int, head: int, free: seq<nat>)
    requires FreeList(mem, m, head, free) && |mem| <= |mem'|
    requires forall p :: p in free && p < |mem| ==> mem'[p] == mem[p]
    ensures FreeList(mem', m, head, free)
    decreases |free|
  {
    if free != [] {
      FreeListFrame(mem, mem', m, mem[head][0], free[1..]);
    }
  }

  /** A used page is in range and not free, when the used and the free pages make up the range. */
  lemma UsedPage(used: multiset<nat>, free: seq<nat>, next: nat, p: nat)
    requires used + multiset(free) == PageRange(next) && p in used
    ensures 1 <= p < next && p !in free
  {
    assert PageRange(next)[p] <= 1;
    assert (used + multiset(free))[p] == used[p] + multiset(free)[p];
  }

  lemma PopFree(mem: Mem, m: int, head: int, free: seq<nat>, used: multiset<nat>, next: nat)
    requires FreeList(mem, m, head, free) && free != []
    requires used + multiset(free) == PageRange(next)
    ensures FreeList(mem, m, mem[head][0], free[1..])
    ensures used + multiset{head} + multiset(free[1..]) == PageRange(next)
    ensures head !in used && head !in free[1..] && 1 <= head < next
  {
    assert free == [free[0]] + free[1..];
    var all := used + multiset{free[0]} + multiset(free[1..]);
    assert all == PageRange(next);
    assert all[free[0]] <= 1;
  }

  lemma TakeNext(free: seq<nat>, used: multiset<nat>, next: nat)
    requires used + multiset(free) == PageRange(next) && next >= 1
    ensures used + multiset{next} + multiset(free) == PageRange(next + 1)
    ensures next !in used && next !in free
  {
    assert (used + multiset(free))[next] == 0;
  }

  /** The free list and the never used pages account for every page that is not in `used`. */
  ghost predicate AllocOk(mem: Mem, m: int, head: int, free: seq<nat>, next: nat, used: multiset<nat>) {
    && FreeList(mem, m, head, free)
    && Unused(mem, m, next)
    && used + multiset(free) == PageRange(next)
  }

  /** Writing to a used page does not disturb the allocation. */
  lemma AllocUpdate(mem: Mem, m: int, head: int, free: seq<nat>, next: nat, used: multiset<nat>, pid: nat, w: seq<int>)
    requires AllocOk(mem, m, head, free, next, used) && pid in used
    ensures 1 <= pid < next <= |mem| && AllocOk(mem[pid := w], m, head, free, next, used)
  {
    UsedPage(used, free, next, pid);
    FreeListFrame(mem, mem[pid := w], m, head, free);
  }

  /** Taking the first never used page, present in `mem'` if need be by an added zero page. */
  lemma TakeNextOk(mem: Mem, mem': Mem, m: int, head: int, free: seq<nat>, next: nat, used: multiset<nat>)
    requires AllocOk(mem, m, head, free, next, used) && next < |mem'|
    requires mem <= mem' && |mem'| <= |mem| + 1
    requires |mem'| > |mem| ==> m >= 0 && |mem'[|mem|]| == 2 * m + 2 && mem'[|mem|][2 * m] == 0
    ensures AllocOk(mem', m, head, free, next + 1, used + multiset{next}) && next !in used
  {
    TakeNext(free, used, next);
    FreeListFrame(mem, mem', m, head, free);
  }

  // ---- The path of an insertion ----

  ghost predicate Empty(t: Shape) {
    Size(t) == 0
  }

  /** The maximum key after `k` went in. */
  ghost function MaxWith(t: Shape, k: int): int {
    if Empty(t) then k else MaxOf(t)
  }

  /** `k` belongs under `t`: between its bounds, or anywhere when `t` is the fresh root or leaf. */
  ghost predicate Settable(t: Shape, m: int, lo: int, h: nat, k: int) {
    && 0 <= lo < k
    && if Empty(t) then h == (if t.Leaf? then 0 else 1) else Wf(t, m, lo, h) && k <= MaxOf(t)
  }

  /** The pages of an internal node and of its children around one child. */
  ghost function Ring(pid: nat, a: seq<Shape>, b: seq<Shape>): multiset<nat> {
    multiset{pid} + KidsFoot(a) + KidsFoot(b)
  }

  /** Page `pid` has children `a`, one child on page `cpid` under key `mk`, and children `b`. */
  ghost predicate Opened(mem: Mem, m: int, pid: nat, a: seq<Shape>, mk: int, cpid: nat, b: seq<Shape>, lo: int,
                         h: nat) {
    && pid < |mem|
    && Holds(mem[pid], m, Node(pid, false, Entries(a) + [KV(mk, cpid)] + Entries(b)))
    && RepKids(mem, m, a) && RepKids(mem, m, b)
    && 0 <= lo && WfKids(a, m, lo, h) && LoAfter(a, lo) < mk && WfKids(b, m, mk, h)
    && |a| + 1 + |b| < m
  }

  lemma OpenedFrame(mem: Mem, mem': Mem, m: int, pid: nat, a: seq<Shape>, mk: int, cpid: nat, b: seq<Shape>, lo: int,
                    h: nat)
    requires Opened(mem, m, pid, a, mk, cpid, b, lo, h) && |mem| <= |mem'|
    requires forall p: nat :: p in Ring(pid, a, b) && p < |mem| ==> mem'[p] == mem[p]
    ensures Opened(mem', m, pid, a, mk, cpid, b, lo, h)
  {
    assert pid in Ring(pid, a, b);
    KidsFootInMem(mem, m, a);
    KidsFootInMem(mem, m, b);
    assert forall p: nat :: p in KidsFoot(a) || p in KidsFoot(b) ==> p in Ring(pid, a, b);
    RepKidsFrame(mem, mem', m, a);
    RepKidsFrame(mem, mem', m, b);
  }

  /** The footprint of a well-represented tree lies in memory. */
  lemma {:induction false} FootInMem(mem: Mem, m: int, t: Shape)
    requires Rep(mem, m, t)
    ensures forall p: nat :: p in Foot(t) ==> p < |mem|
    decreases t, 1
  {
    if t.Inner? {
      KidsFootInMem(mem, m, t.kids);
    }
  }

  lemma {:induction false} KidsFootInMem(mem: Mem, m: int, kids: seq<Shape>)
    requires RepKids(mem, m, kids)
    ensures forall p: nat :: p in KidsFoot(kids) ==> p < |mem|
    decreases kids, 0
  {
    if kids != [] {
      FootInMem(mem, m, kids[0]);
      KidsFootInMem(mem, m, kids[1..]);
    }
  }

  /** The child for `k` and its siblings. */
  lemma SelectKid(kids: seq<Shape>, m: int, lo: int, h: nat, k: int) returns (a: seq<Shape>, c: Shape, b: seq<Shape>)
    requires kids != [] && WfKids(kids, m, lo, h) && 0 <= lo < k <= LoAfter(kids, lo)
    ensures kids == a + [c] + b && |a| == Rank(Entries(kids), k)
    ensures WfKids(a, m, lo, h) && WfKids(b, m, MaxOf(c), h)
    ensures Settable(c, m, LoAfter(a, lo), h, k) && !Empty(c)
    ensures LoAfter(a, lo) < MaxOf(c)
  {
    var i := Rank(Entries(kids), k);
    assert Entries(kids)[|kids| - 1].key >= k;
    a, c, b := kids[..i], kids[i], kids[i + 1..];
    assert kids == a + [c] + b;
    WfKidsConcat(a + [c], b, m, lo, h);
    WfKidsConcat(a, [c], m, lo, h);
    KidsRange(a, m, lo, h);
    assert Wf(c, m, LoAfter(a, lo), h);
    ContentsRange(c, m, m - 1, LoAfter(a, lo), h);
    assert Entries(kids)[i].key >= k;
    assert i > 0 ==> Entries(kids)[i - 1].key < k;
  }

  lemma KidsLeafKeysOne(c: Shape)
    ensures KidsLeafKeys([c]) == LeafKeys(c)
  {
    assert [c][1..] == [];
  }

  // What an internal node's three parts add up to.

  lemma PartsMap(a: seq<Shape>, c: Shape, b: seq<Shape>)
    ensures KidsMap(a + [c] + b) == KidsMap(a) + Contents(c) + KidsMap(b)
  {
    KidsMapThree(a, [c], b);
    KidsMapOne(c);
  }

  lemma PartsFoot(pid: nat, a: seq<Shape>, c: Shape, b: seq<Shape>)
    ensures Foot(Inner(pid, a + [c] + b)) == Ring(pid, a, b) + Foot(c)
  {
    KidsFootThree(a, [c], b);
    KidsFootOne(c);
  }

  lemma PartsLeafKeys(a: seq<Shape>, c: Shape, b: seq<Shape>)
    ensures KidsLeafKeys(a + [c] + b) == KidsLeafKeys(a) + LeafKeys(c) + KidsLeafKeys(b)
  {
    KidsLeafKeysThree(a, [c], b);
    KidsLeafKeysOne(c);
  }

  lemma PartsEntries(a: seq<Shape>, c: seq<Shape>, b: seq<Shape>)
    ensures Entries(a + c + b) == Entries(a) + Entries(c) + Entries(b)
  {
  }

  lemma WfInner(t: Shape, m: int, lo: int, h: nat)
    requires Wf(t, m, lo, h) && t.Inner?
    ensures h > 0 && 0 < |t.kids| < m && WfKids(t.kids, m, lo, h - 1) && LoAfter(t.kids, lo) == MaxOf(t)
  {
  }

  lemma RepKidsConcat(mem: Mem, m: int, a: seq<Shape>, b: seq<Shape>)
    ensures RepKids(mem, m, a + b) <==> RepKids(mem, m, a) && RepKids(mem, m, b)
  {
    var c := a + b;
    if RepKids(mem, m, c) {
      assert forall i :: 0 <= i < |a| ==> a[i] == c[i];
      forall i | 0 <= i < |b|
        ensures Rep(mem, m, b[i])
      {
        assert b[i] == c[|a| + i];
      }
    }
  }

  /** An existing child for `k`: its page is open between its siblings. */
  lemma OpenKid(mem: Mem, m: int, t: Shape, lo: int, h: nat, k: int) returns (a: seq<Shape>, c: Shape, b: seq<Shape>)
    requires Rep(mem, m, t) && t.Inner? && t.kids != [] && Settable(t, m, lo, h, k)
    ensures h > 0 && t.kids == a + [c] + b && |a| == Rank(Entries(t.kids), k) && !Empty(c)
    ensures Opened(mem, m, t.pid, a, MaxOf(c), c.pid, b, lo, h - 1) && Rep(mem, m, c)
    ensures Settable(c, m, LoAfter(a, lo), h - 1, k)
  {
    WfInner(t, m, lo, h);
    a, c, b := SelectKid(t.kids, m, lo, h - 1, k);
    PartsEntries(a, [c], b);
    assert Entries([c]) == [KV(MaxOf(c), c.pid)];
    RepKidsConcat(mem, m, a + [c], b);
    RepKidsConcat(mem, m, a, [c]);
    assert Rep(mem, m, [c][0]);
  }

  /** The fresh root after its first slot and leaf were made. */
  lemma OpenFirst(mem: Mem, m: int, pid: nat, k: int, child: nat, lo: int)
    requires GoodMax(m) && 0 <= lo < k && pid < |mem| && child < |mem|
    requires Holds(mem[pid], m, Node(pid, false, [KV(k, child)])) && Holds(mem[child], m, Node(child, true, []))
    ensures Opened(mem, m, pid, [], k, child, [], lo, 0) && Rep(mem, m, Leaf(child, []))
    ensures Settable(Leaf(child, []), m, LoAfter([], lo), 0, k)
    ensures Ring(pid, [], []) + Foot(Leaf(child, [])) == multiset{pid, child}
  {
    assert Entries([]) + [KV(k, child)] + Entries([]) == [KV(k, child)];
  }

  /** Two parts of the used pages have no page in common. */
  lemma Apart(x: multiset<nat>, r: multiset<nat>, free: seq<nat>, next: nat)
    requires x + r + multiset(free) == PageRange(next)
    ensures forall p: nat :: p in x ==> p !in r
  {
    forall p: nat | p in x
      ensures p !in r
    {
      assert (x + r + multiset(free))[p] == x[p] + r[p] + multiset(free)[p] <= 1;
    }
  }

  /** The slot for `k` holds a key and a page number, except in the fresh root. */
  lemma SlotFilled(mem: Mem, m: int, t: Shape, r: multiset<nat>, free: seq<nat>, next: nat, lo: int, h: nat, k: int)
    requires Rep(mem, m, t) && t.Inner? && Settable(t, m, lo, h, k)
    requires Foot(t) + r + multiset(free) == PageRange(next)
    ensures var idx := Rank(Entries(t.kids), k);
      if Empty(t) then idx == 0 else
      idx < |t.kids| && Entries(t.kids)[idx].key > 0 && Entries(t.kids)[idx].val > 0
  {
    if !Empty(t) {
      var a, c, b := OpenKid(mem, m, t, lo, h, k);
      PartsFoot(t.pid, a, c, b);
      UsedPage(Foot(t) + r, free, next, c.pid);
      assert Entries(t.kids)[|a|] == KV(MaxOf(c), c.pid);
    }
  }

  /** The parts of `t` around the child for `k`, after the slot was filled if it had to be. */
  lemma OpenFilled(mem: Mem, m: int, t: Shape, child: nat, lo: int, h: nat, k: int)
    returns (a: seq<Shape>, c: Shape, b: seq<Shape>)
    requires GoodMax(m) && t.Inner? && Settable(t, m, lo, h, k) && t.pid < |mem|
    requires !Empty(t) ==>
      Rep(mem, m, t) && var i := Rank(Entries(t.kids), k); i < |t.kids| && child == Entries(t.kids)[i].val
    requires Empty(t) ==> child < |mem| && Holds(mem[t.pid], m, Node(t.pid, false, [KV(k, child)]))
    requires Empty(t) ==> Holds(mem[child], m, Node(child, true, []))
    ensures h > 0 && c.pid == child && |a| == Rank(Entries(t.kids), k)
    ensures Opened(mem, m, t.pid, a, MaxWith(c, k), child, b, lo, h - 1) && Rep(mem, m, c)
    ensures Settable(c, m, LoAfter(a, lo), h - 1, k)
    ensures Ring(t.pid, a, b) + Foot(c) == Foot(t) + if Empty(t) then multiset{child} else multiset{}
    ensures if Empty(t) then a == b == [] && c.Leaf? && Empty(c) else t.kids == a + [c] + b && !Empty(c)
  {
    if Empty(t) {
      a, c, b := [], Leaf(child, []), [];
      OpenFirst(mem, m, t.pid, k, child, lo);
    } else {
      a, c, b := OpenKid(mem, m, t, lo, h, k);
      PartsFoot(t.pid, a, c, b);
      assert Entries(t.kids)[|a|] == KV(MaxOf(c), c.pid);
    }
  }

  lemma LastKeyAppend(kvs: seq<KV>, e: KV)
    ensures LastKey(kvs + [e]) == e.key
  {
  }

  lemma NodeMax(t: Shape)
    ensures LastKey(NodeOf(t).kvs) == MaxOf(t)
  {
  }

  lemma RepInner(mem: Mem, m: int, pid: nat, a: seq<Shape>, mid: seq<Shape>, b: seq<Shape>)
    requires pid < |mem| && Holds(mem[pid], m, Node(pid, false, Entries(a) + Entries(mid) + Entries(b)))
    requires RepKids(mem, m, a) && RepKids(mem, m, mid) && RepKids(mem, m, b)
    ensures Rep(mem, m, Inner(pid, a + mid + b))
  {
    PartsEntries(a, mid, b);
    RepKidsConcat(mem, m, a, mid);
    RepKidsConcat(mem, m, a + mid, b);
  }

  /** After the words of a node were split over two pages, both halves are represented. */
  lemma RepSplit(mem: Mem, mem': Mem, m: int, c: Shape, at: nat, nn: nat)
    requires Rep(mem, m, c) && at <= Size(c) && |mem| <= |mem'| && nn < |mem'|
    requires forall p: nat :: p in Foot(c) && p != c.pid && p < |mem| ==> mem'[p] == mem[p]
    requires c.Inner? ==> c.pid !in KidsFoot(c.kids)
    requires Holds(mem'[c.pid], m, NodeOf(c).(kvs := NodeOf(c).kvs[..at]))
    requires Holds(mem'[nn], m, NodeOf(c).(pid := nn, kvs := NodeOf(c).kvs[at..]))
    ensures Rep(mem', m, Lower(c, at)) && Rep(mem', m, Upper(c, at, nn))
  {
    SplitNodes(c, at, nn);
    if c.Inner? {
      assert forall p: nat :: p in KidsFoot(c.kids) ==> p in Foot(c);
      KidsFootInMem(mem, m, c.kids);
      RepKidsFrame(mem, mem', m, c.kids);
      assert c.kids == c.kids[..at] + c.kids[at..];
      RepKidsConcat(mem', m, c.kids[..at], c.kids[at..]);
    }
  }

  /** Writing to a page outside their footprint leaves siblings as they are. */
  lemma RepKidsUpdate(mem: Mem, m: int, kids: seq<Shape>, pid: nat, w: seq<int>)
    requires RepKids(mem, m, kids) && pid < |mem| && pid !in KidsFoot(kids)
    ensures RepKids(mem[pid := w], m, kids)
  {
    KidsFootInMem(mem, m, kids);
    RepKidsFrame(mem, mem[pid := w], m, kids);
  }

  lemma SortedAround(x: seq<KV>, e: KV, y: seq<KV>)
    requires Sorted(x) && Sorted(y)
    requires x != [] ==> LastKey(x) < e.key
    requires forall i :: 0 <= i < |y| ==> y[i].key > e.key
    ensures Sorted(x + [e] + y)
  {
    var s := x + [e] + y;
    forall i, j | 0 <= i < j < |s|
      ensures s[i].key < s[j].key
    {
      assert i < |x| ==> s[i] == x[i] && x[i].key <= LastKey(x);
      assert j > |x| ==> s[j] == y[j - |x| - 1];
    }
  }

  lemma OpenedSorted(mem: Mem, m: int, pid: nat, a: seq<Shape>, mk: int, cpid: nat, b: seq<Shape>, lo: int, h: nat)
    requires Opened(mem, m, pid, a, mk, cpid, b, lo, h)
    ensures Sorted(Entries(a) + [KV(mk, cpid)] + Entries(b)) && Positive(Entries(a) + [KV(mk, cpid)] + Entries(b))
    ensures LastKey(Entries(a)) <= LoAfter(a, lo) && 0 <= LoAfter(a, lo)
  {
    hide WfKids, Holds, MaxOf;
    EntriesSorted(a, m, lo, h);
    EntriesSorted(b, m, mk, h);
    KidsRange(a, m, lo, h);
    SortedAround(Entries(a), KV(mk, cpid), Entries(b));
    forall i | 0 <= i < |a| + 1 + |b|
      ensures (Entries(a) + [KV(mk, cpid)] + Entries(b))[i].key > 0
    {
      assert i > |a| ==> (Entries(a) + [KV(mk, cpid)] + Entries(b))[i] == Entries(b)[i - |a| - 1];
    }
  }

  /** Both halves of a full child, as shapes. */
  lemma HalvesShape(c: Shape, m: int, lo: int, h: nat, nn: nat)
    requires GoodMax(m) && WfTop(c, m, m, lo, h) && Size(c) == m
    ensures var l, u := Lower(c, m / 2), Upper(c, m / 2, nn);
      && WfKids([l, u], m, lo, h) && lo < MaxOf(l) < MaxOf(u) == MaxOf(c)
      && KidsMap([l, u]) == Contents(c) && KidsLeafKeys([l, u]) == LeafKeys(c)
      && KidsFoot([l, u]) == Foot(c) + multiset{nn}
      && !Empty(l) && !Empty(u)
  {
    SplitWf(c, m, lo, h, m / 2, nn);
    SplitMap(c, m / 2, nn);
    SplitFoot(c, m / 2, nn);
  }

  lemma KidsFootParts(t: Shape)
    requires t.Inner?
    ensures Foot(t) == multiset{t.pid} + KidsFoot(t.kids)
  {
  }

  /** A node's own page is not used by its children nor by anything else. */
  lemma OwnPage(c: Shape, used: multiset<nat>, free: seq<nat>, next: nat)
    requires Foot(c) + used + multiset(free) == PageRange(next) && c.pid in Foot(c)
    ensures c.pid !in used && (c.Inner? ==> c.pid !in KidsFoot(c.kids))
  {
    hide Foot, KidsFoot, PageRange;
    if c.Inner? {
      KidsFootParts(c);
    }
    assert (Foot(c) + used + multiset(free))[c.pid] <= 1;
  }

  /** Both halves of a full child, as pages; the rest of the tree is as it was. */
  lemma HalvesRep(mem: Mem, mem': Mem, m: int, c: Shape, nn: nat, used: multiset<nat>, free: seq<nat>, next: nat)
    requires Rep(mem, m, c) && Size(c) == m && |mem| <= |mem'| && nn < |mem'|
    requires Foot(c) + used + multiset(free) == PageRange(next)
    requires forall p: nat :: p in Foot(c) + used && p != c.pid && p < |mem| ==> mem'[p] == mem[p]
    requires Holds(mem'[c.pid], m, NodeOf(c).(kvs := NodeOf(c).kvs[..m / 2]))
    requires Holds(mem'[nn], m, NodeOf(c).(pid := nn, kvs := NodeOf(c).kvs[m / 2..]))
    ensures Rep(mem', m, Lower(c, m / 2)) && Rep(mem', m, Upper(c, m / 2, nn))
    ensures forall p: nat :: p in used && p < |mem| ==> mem'[p] == mem[p]
  {
    hide Holds, Rep, RepKids, NodeOf, Lower, Upper, Size, Foot, PageRange;
    RepHolds(mem, m, c);
    OwnPage(c, used, free, next);
    RepSplit(mem, mem', m, c, m / 2, nn);
  }

  lemma RepHolds(mem: Mem, m: int, t: Shape)
    requires Rep(mem, m, t)
    ensures t.pid < |mem| && Holds(mem[t.pid], m, NodeOf(t)) && |NodeOf(t).kvs| == Size(t) && t.pid in Foot(t)
  {
  }

  /** The parent's page was rewritten for children `a`, `mid` and `b`. */
  lemma AfterLink(mem: Mem, mem': Mem, m: int, pid: nat, a: seq<Shape>, mid: seq<Shape>, b: seq<Shape>,
                  r: multiset<nat>, free: seq<nat>, next: nat)
    requires pid < |mem| == |mem'| && mem' == mem[pid := mem'[pid]]
    requires Holds(mem'[pid], m, Node(pid, false, Entries(a) + Entries(mid) + Entries(b)))
    requires RepKids(mem, m, a) && RepKids(mem, m, mid) && RepKids(mem, m, b)
    requires Ring(pid, a, b) + KidsFoot(mid) + r + multiset(free) == PageRange(next)
    ensures Rep(mem', m, Inner(pid, a + mid + b))
    ensures Foot(Inner(pid, a + mid + b)) + r == Ring(pid, a, b) + KidsFoot(mid) + r
    ensures pid !in r
  {
    assert Ring(pid, a, b) + KidsFoot(mid) + r == multiset{pid} + (KidsFoot(a) + KidsFoot(b) + KidsFoot(mid) + r);
    Apart(multiset{pid}, KidsFoot(a) + KidsFoot(b) + KidsFoot(mid) + r, free, next);
    RepKidsUpdate(mem, m, a, pid, mem'[pid]);
    RepKidsUpdate(mem, m, mid, pid, mem'[pid]);
    RepKidsUpdate(mem, m, b, pid, mem'[pid]);
    RepInner(mem', m, pid, a, mid, b);
    KidsFootThree(a, mid, b);
  }

  /** What linking the halves of a split child needs to know, on values. */
  lemma HalvesReady(mem: Mem, mem': Mem, m: int, pid: nat, a: seq<Shape>, c: Shape, b: seq<Shape>, nn: nat,
                    r: multiset<nat>, free: seq<nat>, next: nat, lo: int, h: nat)
    requires GoodMax(m) && Opened(mem, m, pid, a, MaxOf(c), c.pid, b, lo, h) && Rep(mem, m, c)
    requires WfTop(c, m, m, LoAfter(a, lo), h) && Size(c) == m && |mem| <= |mem'| && nn < |mem'|
    requires Ring(pid, a, b) + Foot(c) + r + multiset(free) == PageRange(next)
    requires forall p: nat :: p in Ring(pid, a, b) + Foot(c) + r && p != c.pid && p < |mem| ==> mem'[p] == mem[p]
    requires Holds(mem'[c.pid], m, NodeOf(c).(kvs := NodeOf(c).kvs[..m / 2]))
    requires Holds(mem'[nn], m, NodeOf(c).(pid := nn, kvs := NodeOf(c).kvs[m / 2..]))
    ensures var l, u, ea, eb := Lower(c, m / 2), Upper(c, m / 2, nn), Entries(a), Entries(b);
      var kvs := ea + [KV(LastKey(NodeOf(u).kvs), c.pid)] + eb;
      && Holds(mem'[c.pid], m, NodeOf(l)) && Holds(mem'[nn], m, NodeOf(u))
      && 0 < LastKey(NodeOf(l).kvs) < LastKey(NodeOf(u).kvs) && LastKey(ea) < LastKey(NodeOf(l).kvs)
      && |kvs| < m && Sorted(kvs) && Positive(kvs)
      && pid < |mem'| && Holds(mem'[pid], m, Node(pid, false, kvs))
      && Entries([l, u]) == [KV(LastKey(NodeOf(l).kvs), c.pid), KV(LastKey(NodeOf(u).kvs), nn)]
      && RepKids(mem', m, a) && RepKids(mem', m, [l, u]) && RepKids(mem', m, b)
    ensures forall p: nat :: p in r && p < |mem| ==> mem'[p] == mem[p]
  {
    hide Holds, Sorted, Positive, WfTop, WfKids, MaxOf, Contents, KidsMap, KidsLeafKeys, KidsFoot, Foot, PageRange;
    var l, u, rest := Lower(c, m / 2), Upper(c, m / 2, nn), Ring(pid, a, b) + r;
    assert Foot(c) + rest == Ring(pid, a, b) + Foot(c) + r;
    HalvesShape(c, m, LoAfter(a, lo), h, nn);
    HalvesRep(mem, mem', m, c, nn, rest, free, next);
    OpenedFrame(mem, mem', m, pid, a, MaxOf(c), c.pid, b, lo, h);
    RepHolds(mem', m, l);
    RepHolds(mem', m, u);
    NodeMax(l);
    NodeMax(u);
    OpenedSorted(mem, m, pid, a, MaxOf(c), c.pid, b, lo, h);
  }

  lemma RingHas(pid: nat, a: seq<Shape>, b: seq<Shape>)
    ensures pid in Ring(pid, a, b)
  {
  }

  lemma LoAfterPair(l: Shape, u: Shape, lo: int)
    ensures LoAfter([l, u], lo) == MaxOf(u)
  {
  }

  /** A leaf page was written: the leaf after `Put`. */
  lemma LeafDone(t: Shape, m: int, lo: int, h: nat, k: int, v: int)
    requires GoodMax(m) && t.Leaf? && Settable(t, m, lo, h, k)
    ensures var t' := Leaf(t.pid, Put(t.kvs, k, v));
      && WfTop(t', m, m, lo, h) && MaxOf(t') == MaxWith(t, k)
      && Contents(t') == Contents(t)[k := v]
      && LeafKeys(t') == LeafKeys(t) + if HasKey(t.kvs, k) then 0 else 1
    ensures Sorted(t.kvs) && Positive(t.kvs) && |t.kvs| < m
  {
    hide Put, HasKey;
    assert !Empty(t) ==> WfTop(t, m, m - 1, lo, h);
    PutSorted(t.kvs, k, v, lo);
    PutMap(t.kvs, k, v);
    if t.kvs == [] {
      PutEmpty(k, v);
      assert Put(t.kvs, k, v) == [KV(k, v)];
    }
  }

  lemma NothingBelow(c: Shape)
    requires c.Leaf? && Empty(c)
    ensures KidsMap([]) + Contents(c) + KidsMap([]) == KidsMap([])
    ensures KidsLeafKeys([]) == LeafKeys(c) == 0
  {
  }

  lemma PutEmpty(k: int, v: int)
    ensures Put([], k, v) == [KV(k, v)]
  {
  }

  /** An internal node after the insertion below it: its children around the child for `k` are as they
      were, and `mid` took that child's place. */
  lemma InnerDone(t: Shape, mem: Mem, m: int, lo: int, h: nat, k: int, v: int, a: seq<Shape>, c: Shape,
                  mid: seq<Shape>, b: seq<Shape>)
    requires t.Inner? && Settable(t, m, lo, h, k) && h > 0 && 1 <= |mid| <= 2
    requires if Empty(t) then a == b == [] && c.Leaf? && Empty(c) else t.kids == a + [c] + b && !Empty(c)
    requires Opened(mem, m, t.pid, a, MaxWith(c, k), c.pid, b, lo, h - 1) && Settable(c, m, LoAfter(a, lo), h - 1, k)
    requires WfKids(mid, m, LoAfter(a, lo), h - 1) && LoAfter(mid, lo) == MaxWith(c, k)
    requires KidsMap(mid) == Contents(c)[k := v]
    ensures var t' := Inner(t.pid, a + mid + b);
      && WfTop(t', m, m, lo, h) && MaxOf(t') == MaxWith(t, k)
      && Contents(t') == Contents(t)[k := v]
      && LeafKeys(t') - LeafKeys(t) == KidsLeafKeys(mid) - LeafKeys(c)
  {
    hide WfKids, KidsMap, KidsLeafKeys, MaxOf, Wf, WfTop, Holds, Contents, LeafKeys, Entries;
    var kids, was := a + mid + b, a + [c] + b;
    SpliceKids(a, mid, b, m, lo, h - 1);
    SpliceMap(a, Contents(c), mid, b, m, MaxWith(c, k), h - 1, k, v);
    KidsLeafKeysThree(a, mid, b);
    InnerFacts(t.pid, kids, m, lo, h);
    if Empty(t) {
      NothingBelow(c);
      InnerFacts(t.pid, [], m, lo, h);
      assert t == Inner(t.pid, []);
    } else {
      PartsMap(a, c, b);
      PartsLeafKeys(a, c, b);
      InnerFacts(t.pid, was, m, lo, h);
      assert t == Inner(t.pid, was);
    }
  }

  lemma InnerFacts(pid: nat, kids: seq<Shape>, m: int, lo: int, h: nat)
    ensures var t := Inner(pid, kids);
      && Contents(t) == KidsMap(kids) && LeafKeys(t) == KidsLeafKeys(kids)
      && (kids != [] ==> MaxOf(t) == LoAfter(kids, lo))
      && (h > 0 && 0 < |kids| <= m && WfKids(kids, m, lo, h - 1) ==> WfTop(t, m, m, lo, h))
  {
  }

  /** A child that is not full stays the only one in its slot. */
  lemma SingleKid(mem: Mem, m: int, pid: nat, a: seq<Shape>, c: Shape, b: seq<Shape>, lo: int, h: nat)
    requires Opened(mem, m, pid, a, MaxOf(c), c.pid, b, lo, h) && Rep(mem, m, c)
    requires WfTop(c, m, m, LoAfter(a, lo), h) && Size(c) < m
    ensures WfKids([c], m, LoAfter(a, lo), h) && LoAfter([c], lo) == MaxOf(c)
    ensures KidsMap([c]) == Contents(c) && KidsLeafKeys([c]) == LeafKeys(c)
    ensures Rep(mem, m, Inner(pid, a + [c] + b))
    ensures Foot(Inner(pid, a + [c] + b)) == Ring(pid, a, b) + Foot(c)
  {
    KidsMapOne(c);
    KidsLeafKeysOne(c);
    PartsFoot(pid, a, c, b);
    assert [c][1..] == [];
    assert Entries([c]) == [KV(MaxOf(c), c.pid)];
    RepInner(mem, m, pid, a, [c], b);
  }

  // ---- Splitting the root ----

  /** The two children of the root after its split: the old root's halves on new pages. */
  ghost function RootHalves(t: Shape, at: nat, left: nat, right: nat): seq<Shape>
    requires t.Inner? && at <= |t.kids|
  {
    [Inner(left, t.kids[..at]), Inner(right, t.kids[at..])]
  }

  lemma RootShape(t: Shape, m: int, lo: int, h: nat, left: nat, right: nat)
    requires GoodMax(m) && t.Inner? && WfTop(t, m, m, lo, h) && |t.kids| == m
    ensures var mid := RootHalves(t, m / 2, left, right);
      && Wf(Inner(t.pid, mid), m, lo, h + 1) && MaxOf(Inner(t.pid, mid)) == MaxOf(t)
      && MaxOf(mid[0]) < MaxOf(mid[1])
      && Contents(Inner(t.pid, mid)) == Contents(t) && LeafKeys(Inner(t.pid, mid)) == LeafKeys(t)
      && Ring(t.pid, [], []) + KidsFoot(mid) == Foot(t) + multiset{left, right}
  {
    hide Wf, WfTop, WfKids, KidsMap, KidsLeafKeys, KidsFoot, MaxOf, Foot, Ring, Contents, LeafKeys, LoAfter;
    var a, b := t.kids[..m / 2], t.kids[m / 2..];
    assert t == Inner(t.pid, a + b) by { assert t.kids == a + b; }
    RootWf(t.pid, a, b, m, lo, h, left, right);
    RootMap(t.pid, a, b, left, right);
    RootFoot(t.pid, a, b, left, right);
  }

  lemma RootWf(pid: nat, a: seq<Shape>, b: seq<Shape>, m: int, lo: int, h: nat, left: nat, right: nat)
    requires GoodMax(m) && WfTop(Inner(pid, a + b), m, m, lo, h) && |a| == m / 2 && |a + b| == m
    ensures var l, r := Inner(left, a), Inner(right, b);
      && Wf(Inner(pid, [l, r]), m, lo, h + 1) && MaxOf(Inner(pid, [l, r])) == MaxOf(Inner(pid, a + b))
      && MaxOf(l) < MaxOf(r)
  {
    hide Wf, WfTop, WfKids, KidsMap, KidsLeafKeys, MaxOf;
    var l, r := Inner(left, a), Inner(right, b);
    InnerWf(Inner(pid, a + b), m, lo, h);
    WfKidsConcat(a, b, m, lo, h - 1);
    KidsRange(b, m, LoAfter(a, lo), h - 1);
    HalfFacts(l, m, lo, h);
    HalfFacts(r, m, MaxOf(l), h);
    PairWf(l, r, m, lo, h);
    InnerFacts(pid, [l, r], m, lo, h + 1);
    InnerFacts(pid, a + b, m, lo, h);
    assert Wf(Inner(pid, [l, r]), m, lo, h + 1) by {
      WfNarrow(Inner(pid, [l, r]), m, lo, h + 1);
    }
  }

  lemma RootMap(pid: nat, a: seq<Shape>, b: seq<Shape>, left: nat, right: nat)
    ensures var t, t' := Inner(pid, a + b), Inner(pid, [Inner(left, a), Inner(right, b)]);
      Contents(t') == Contents(t) && LeafKeys(t') == LeafKeys(t)
  {
    hide KidsMap, KidsLeafKeys;
    var l, r := Inner(left, a), Inner(right, b);
    assert [l, r] == [l] + [r];
    KidsMapConcat(a, b);
    KidsMapConcat([l], [r]);
    KidsMapOne(l);
    KidsMapOne(r);
    KidsLeafKeysConcat(a, b);
    KidsLeafKeysConcat([l], [r]);
    KidsLeafKeysOne(l);
    KidsLeafKeysOne(r);
  }

  lemma InnerWf(t: Shape, m: int, lo: int, h: nat)
    requires t.Inner? && WfTop(t, m, m, lo, h)
    ensures h > 0 && 0 < |t.kids| <= m && WfKids(t.kids, m, lo, h - 1) && t == Inner(t.pid, t.kids)
  {
  }

  lemma HalfFacts(t: Shape, m: int, lo: int, h: nat)
    requires t.Inner? && h > 0 && 0 < |t.kids| < m && WfKids(t.kids, m, lo, h - 1)
    ensures Wf(t, m, lo, h) && MaxOf(t) == LoAfter(t.kids, lo)
    ensures Contents(t) == KidsMap(t.kids) && LeafKeys(t) == KidsLeafKeys(t.kids)
  {
  }

  lemma PairWf(l: Shape, r: Shape, m: int, lo: int, h: nat)
    requires Wf(l, m, lo, h) && Wf(r, m, MaxOf(l), h)
    ensures WfKids([l, r], m, lo, h) && LoAfter([l, r], lo) == MaxOf(r)
  {
    assert [l, r][1..] == [r] && [r][1..] == [];
  }

  lemma WfNarrow(t: Shape, m: int, lo: int, h: nat)
    requires WfTop(t, m, m, lo, h) && Size(t) < m
    ensures Wf(t, m, lo, h)
  {
  }

  lemma RootFoot(pid: nat, a: seq<Shape>, b: seq<Shape>, left: nat, right: nat)
    ensures Ring(pid, [], []) + KidsFoot([Inner(left, a), Inner(right, b)]) ==
      Foot(Inner(pid, a + b)) + multiset{left, right}
  {
    hide KidsFoot;
    var l, r := Inner(left, a), Inner(right, b);
    KidsFootConcat(a, b);
    KidsFootConcat([l], [r]);
    KidsFootOne(l);
    KidsFootOne(r);
    assert [l, r] == [l] + [r];
    assert KidsFoot([]) == multiset{} by { NoFoot(); }
  }

  lemma PutSecond(k1: int, k2: int, p: int, q: int)
    requires k1 < k2
    ensures Put([KV(k1, p)], k2, q) == [KV(k1, p), KV(k2, q)]
  {
    RankIsFirst([KV(k1, p)], k2, 1);
  }

  lemma NoFoot()
    ensures KidsFoot([]) == multiset{}
  {
  }

  lemma RootRep(mem: Mem, mem': Mem, m: int, t: Shape, left: nat, right: nat, free: seq<nat>, next: nat)
    requires t.Inner? && Rep(mem, m, t) && |t.kids| == m && m >= 0
    requires Foot(t) + multiset(free) == PageRange(next)
    requires |mem| <= |mem'| && left < |mem'| && right < |mem'|
    requires forall p: nat :: p in Foot(t) && p != t.pid && p < |mem| ==> mem'[p] == mem[p]
    requires Holds(mem'[left], m, Node(left, false, Entries(t.kids)[..m / 2]))
    requires Holds(mem'[right], m, Node(right, false, Entries(t.kids)[m / 2..]))
    ensures RepKids(mem', m, RootHalves(t, m / 2, left, right))
    ensures RepKids(mem', m, [])
  {
    hide Foot, KidsFoot, RepKids, Holds, Rep;
    var a, b := t.kids[..m / 2], t.kids[m / 2..];
    KidsKept(mem, mem', m, t, free, next);
    assert t.kids == a + b;
    RepKidsConcat(mem', m, a, b);
    assert a == t.kids[0..m / 2] && b == t.kids[m / 2..m];
    assert Entries(t.kids)[..m / 2] == Entries(t.kids)[0..m / 2];
    assert Entries(t.kids)[m / 2..] == Entries(t.kids)[m / 2..m];
    PartRep(mem', m, left, t.kids, 0, m / 2);
    PartRep(mem', m, right, t.kids, m / 2, m);
    RepPair(mem', m, Inner(left, a), Inner(right, b));
  }

  lemma KidsKept(mem: Mem, mem': Mem, m: int, t: Shape, free: seq<nat>, next: nat)
    requires t.Inner? && Rep(mem, m, t) && |mem| <= |mem'|
    requires Foot(t) + multiset(free) == PageRange(next)
    requires forall p: nat :: p in Foot(t) && p != t.pid && p < |mem| ==> mem'[p] == mem[p]
    ensures RepKids(mem', m, t.kids)
  {
    hide Holds;
    assert Foot(t) + multiset(free) == multiset{t.pid} + KidsFoot(t.kids) + multiset(free);
    Apart(multiset{t.pid}, KidsFoot(t.kids), free, next);
    assert forall p: nat :: p in KidsFoot(t.kids) ==> p in Foot(t);
    KidsFootInMem(mem, m, t.kids);
    RepKidsFrame(mem, mem', m, t.kids);
  }

  lemma PartRep(mem: Mem, m: int, pid: nat, kids: seq<Shape>, i: nat, j: nat)
    requires pid < |mem| && i <= j <= |kids| && RepKids(mem, m, kids[i..j])
    requires Holds(mem[pid], m, Node(pid, false, Entries(kids)[i..j]))
    ensures Rep(mem, m, Inner(pid, kids[i..j]))
  {
    hide Holds;
    assert Entries(kids[i..j]) == Entries(kids)[i..j];
  }

  lemma RepPair(mem: Mem, m: int, l: Shape, r: Shape)
    requires Rep(mem, m, l) && Rep(mem, m, r)
    ensures RepKids(mem, m, [l, r]) && RepKids(mem, m, [])
  {
    hide Rep;
  }

  /** The entries for the root's two new children. */
  lemma RootEntries(t: Shape, m: int, left: nat, right: nat, lo: int, h: nat)
    requires GoodMax(m) && t.Inner? && WfTop(t, m, m, lo, h) && |t.kids| == m && lo >= 0
    ensures var mid := RootHalves(t, m / 2, left, right);
      && NodeOf(mid[0]) == Node(left, false, Entries(t.kids)[..m / 2])
      && NodeOf(mid[1]) == Node(right, false, Entries(t.kids)[m / 2..])
      && 0 < LastKey(NodeOf(mid[0]).kvs) < LastKey(NodeOf(mid[1]).kvs)
      && Entries([]) + Entries(mid) + Entries([]) ==
        [KV(LastKey(NodeOf(mid[0]).kvs), left), KV(LastKey(NodeOf(mid[1]).kvs), right)]
  {
    hide WfTop, WfKids, Wf, MaxOf, LastKey, Contents, KidsMap;
    var mid := RootHalves(t, m / 2, left, right);
    RootShape(t, m, lo, h, left, right);
    InnerWf(t, m, lo, h);
    assert t.kids == t.kids[..m / 2] + t.kids[m / 2..];
    WfKidsConcat(t.kids[..m / 2], t.kids[m / 2..], m, lo, h - 1);
    HalfFacts(mid[0], m, lo, h);
    ContentsAbove(mid[0], m, lo, h);
    NodeMax(mid[0]);
    NodeMax(mid[1]);
    assert Entries(t.kids[..m / 2]) == Entries(t.kids)[..m / 2];
    assert Entries(t.kids[m / 2..]) == Entries(t.kids)[m / 2..];
  }

  lemma ContentsAbove(t: Shape, m: int, lo: int, h: nat)
    requires Wf(t, m, lo, h)
    ensures lo < MaxOf(t)
  {
    ContentsRange(t, m, m - 1, lo, h);
  }

  lemma InnerNotEmpty(t: Shape, m: int, lo: int, h: nat)
    requires Wf(t, m, lo, h)
    ensures !Empty(t)
  {
  }

  lemma InnerSize(t: Shape)
    requires t.Inner?
    ensures Size(t) == |t.kids|
  {
  }

  // ---- Freeing a page ----

  /** A used page whose word 0 now points to the head of the free list becomes that head. */
  lemma FreePage(mem: Mem, m: int, head: int, free: seq<nat>, next: nat, used: multiset<nat>, p: nat)
    requires AllocOk(mem, m, head, free, next, used + multiset{p}) && p < |mem|
    requires m > 0 && |mem[p]| == 2 * m + 2 && mem[p][2 * m] == p
    ensures AllocOk(mem[p := mem[p][0 := head]], m, p, [p] + free, next, used)
  {
    var mem' := mem[p := mem[p][0 := head]];
    UsedPage(used + multiset{p}, free, next, p);
    FreeListFrame(mem, mem', m, head, free);
    assert ([p] + free)[1..] == free;
    assert used + multiset([p] + free) == used + multiset{p} + multiset(free);
  }

  // ---- Creation and reading ----

  lemma NothingAllocated(mem: Mem, m: int)
    requires |mem| > 0 && m >= 0 && forall p :: 0 <= p < |mem| ==> |mem[p]| == 2 * m + 2 && mem[p][2 * m] == 0
    ensures AllocOk(mem, m, 0, [], 1, multiset{})
  {
  }

  lemma FreshRoot(mem: Mem, m: int, k: int)
    requires 1 < |mem| && Holds(mem[1], m, Node(1, false, [])) && k > 0
    ensures Rep(mem, m, Inner(1, [])) && Settable(Inner(1, []), m, 0, 1, k)
    ensures Foot(Inner(1, [])) == multiset{1} && LeafKeys(Inner(1, [])) == 0
    ensures Contents(Inner(1, [])) == map[] && MaxWith(Inner(1, []), k) == k
  {
  }

  lemma LeafLookup(t: Shape, m: int, lo: int, h: nat, k: int)
    requires t.Leaf? && Wf(t, m, lo, h)
    ensures Lookup(Contents(t), k) == if HasKey(t.kvs, k) then t.kvs[Rank(t.kvs, k)].val else 0
  {
    assert WfTop(t, m, m - 1, lo, h);
    LookupLeaf(t.kvs, k, lo);
  }

  /** The words of slot `Rank(k)` lead to the only child that can hold `k`. */
  lemma InnerLookup(mem: Mem, t: Shape, m: int, lo: int, h: nat, k: int)
    requires t.Inner? && Rep(mem, m, t) && Wf(t, m, lo, h) && lo >= 0
    ensures h > 0
    ensures var i := Rank(Entries(t.kids), k);
      if i == |t.kids| then Lookup(Contents(t), k) == 0 else
      && mem[t.pid][2 * i] > 0 && mem[t.pid][2 * i + 1] == t.kids[i].pid < |mem|
      && Lookup(Contents(t), k) == Lookup(Contents(t.kids[i]), k)
  {
    var i := Rank(Entries(t.kids), k);
    WfInner(t, m, lo, h);
    LookupKid(t.kids, m, lo, h - 1, k, i);
    EntriesSorted(t.kids, m, lo, h - 1);
    if i < |t.kids| {
      assert Rep(mem, m, t.kids[i]);
      assert mem[t.pid][2 * i] == Entries(t.kids)[i].key && mem[t.pid][2 * i + 1] == Entries(t.kids)[i].val;
    }
  }

  /** Child `i` is represented and well formed, above some bound. */
  lemma KidLo(mem: Mem, t: Shape, m: int, lo: int, h: nat, i: nat) returns (lo': int)
    requires t.Inner? && Rep(mem, m, t) && Wf(t, m, lo, h) && lo >= 0 && i < |t.kids|
    ensures h > 0 && lo' >= 0 && Wf(t.kids[i], m, lo', h - 1) && Rep(mem, m, t.kids[i])
  {
    WfInner(t, m, lo, h);
    var a, b := t.kids[..i], t.kids[i..];
    assert t.kids == a + b;
    WfKidsConcat(a, b, m, lo, h - 1);
    KidsRange(a, m, lo, h - 1);
    lo' := LoAfter(a, lo);
    assert b[0] == t.kids[i];
  }
}
