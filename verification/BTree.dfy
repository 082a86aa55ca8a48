/** The B+ tree: recursive insertion with splits, page reuse, compaction, iteration, and the rebuilding
    of the in-memory fields from the pages. */
module BTree {
  import opened BTreeNode
  import opened BTreeShape
  import opened BTreeCompaction
  import opened BTreeIteration
  import opened BTreeReload

  const ABSOLUTE_MAX := 0xFFFF_FFFF_FFFF_FFFE

  class Tree {
    const m: nat  // maxKeys
    var pages: seq<array<int>>
    var nextPage: nat
    var freePage: nat
    var numLeafKeys: int
    var numPagesFree: int
    ghost var mem: Mem  // the words of `pages`
    ghost var free: seq<nat>  // the free pages, head first
    ghost var tree: Shape
    ghost var depth: nat

    ghost predicate Linked()
      reads `pages, `mem, pages
    {
      && GoodMax(m)
      && |mem| == |pages|
      && (forall i, j :: 0 <= i < j < |pages| ==> pages[i] != pages[j])
      && (forall i :: 0 <= i < |pages| ==> pages[i].Length == 2 * m + 2 && pages[i][..] == mem[i])
    }

    /** The pages that are not `used` are free or were never used. */
    ghost predicate Allocated(used: multiset<nat>)
      reads `pages, `mem, `nextPage, `freePage, `free, `numPagesFree, pages
    {
      && Linked()
      && AllocOk(mem, m, freePage, free, nextPage, used)
      && numPagesFree == |free|
    }

    /** The pages in `used` are as they were in `was`. */
    static ghost predicate SamePages(was: Mem, now: Mem, used: multiset<nat>) {
      && |was| <= |now|
      && forall p: nat :: p in used && p < |was| ==> now[p] == was[p]
    }

    /** Every page is one of `was` or newly allocated. */
    twostate predicate FreshPages(was: seq<array<int>>)
      reads `pages
    {
      && |was| <= |pages|
      && forall i :: 0 <= i < |pages| ==> pages[i] in was || fresh(pages[i])
    }

    /** The pages in `used` other than `pid` are as they were in `was`. */
    static ghost predicate SamePagesBut(was: Mem, now: Mem, used: multiset<nat>, pid: nat) {
      && |was| <= |now|
      && forall p: nat :: p in used && p != pid && p < |was| ==> now[p] == was[p]
    }

    /** The pages used and the free ones are all pages below the next one. */
    lemma UsedRange(used: multiset<nat>)
      requires Allocated(used)
      ensures used + multiset(free) == PageRange(nextPage) && nextPage <= |mem| == |pages| && GoodMax(m)
    {
    }

    lemma PageWords(used: multiset<nat>, pid: nat)
      requires Allocated(used) && pid < |pages|
      ensures pid < |mem| && pages[pid].Length == 2 * m + 2 && pages[pid][..] == mem[pid] && GoodMax(m)
    {
    }

    static lemma KeptApart(was: Mem, now: Mem, used: multiset<nat>, pid: nat)
      requires SamePagesBut(was, now, used, pid)
      ensures |was| <= |now| && forall p: nat :: p in used && p != pid && p < |was| ==> now[p] == was[p]
    {
    }

    static lemma KeptAside(was: Mem, now: Mem, used: multiset<nat>, r: multiset<nat>, pid: nat)
      requires was == now || (SamePagesBut(was, now, used + r, pid) && pid !in r)
      ensures SamePages(was, now, r)
    {
    }

    /** Pages that are kept while others change, and mid while page `pid` changes. */
    static lemma KeptThen(was: Mem, mid: Mem, now: Mem, used: multiset<nat>, pid: nat)
      requires |was| <= |mid| == |now| && pid !in used && pid < |mid| && now == mid[pid := now[pid]]
      requires forall p: nat :: p in used && p < |was| ==> mid[p] == was[p]
      ensures SamePages(was, now, used)
    {
    }

    /** Appends a zeroed page if page `pid`, at most the next one, does not exist. */
    method Reserve(pid: nat)
      requires Linked() && pid <= |pages|
      modifies `pages, `mem
      ensures Linked() && pid < |pages| && FreshPages(old(pages))
      ensures old(pages) <= pages && old(mem) <= mem && |mem| == if pid < |old(mem)| then |old(mem)| else pid + 1
      ensures |mem| > |old(mem)| ==> |mem[pid]| == 2 * m + 2 && mem[pid][2 * m] == 0
    {
      if pid + 1 > |pages| {
        var page := new int[2 * m + 2](_ => 0);
        pages, mem := pages + [page], mem + [page[..]];
      }
    }

    method TakeFreePage(ghost used: multiset<nat>) returns (pid: nat)
      requires Allocated(used) && freePage > 0
      ensures pid == old(freePage)
      modifies `freePage, `free, `numPagesFree
      ensures Allocated(used + multiset{pid}) && pid !in used
    {
      PopFree(mem, m, freePage, free, used, nextPage);
      pid := freePage;
      numPagesFree := numPagesFree - 1;
      freePage, free := pages[pid][0], free[1..];
    }

    method TakeNextPage(ghost used: multiset<nat>) returns (pid: nat)
      requires Allocated(used)
      modifies `nextPage, `pages, `mem
      ensures Allocated(used + multiset{pid}) && pid !in used
      ensures pid == old(nextPage)
      ensures old(pages) <= pages && old(mem) <= mem && FreshPages(old(pages))
    {
      hide FreeList, PageRange;
      pid := nextPage;
      Reserve(pid);
      TakeNextOk(old(mem), mem, m, freePage, free, nextPage, used);
      nextPage := nextPage + 1;
    }

    /** Takes the head of the free list, or the next unused page, growing the data if need be. */
    method TakePage(ghost used: multiset<nat>) returns (pid: nat)
      requires Allocated(used)
      modifies `pages, `mem, `nextPage, `freePage, `free, `numPagesFree
      ensures Allocated(used + multiset{pid}) && 0 < pid < |pages| && pid !in used
      ensures pid == if old(freePage) > 0 then old(freePage) else old(nextPage)
      ensures old(pages) <= pages && old(mem) <= mem && FreshPages(old(pages))
    {
      if freePage > 0 {
        pid := TakeFreePage(used);
      } else {
        pid := TakeNextPage(used);
      }
      UsedPage(used + multiset{pid}, free, nextPage, pid);
    }

    method InitPage(pid: nat, bit: int, ghost used: multiset<nat>)
      requires Allocated(used) && pid in used && pid < |pages| && bit in {0, BIT_LEAF}
      modifies `mem, pages[pid]
      ensures Allocated(used) && mem == old(mem)[pid := mem[pid]]
      ensures Holds(mem[pid], m, Node(pid, bit == BIT_LEAF, []))
    {
      var n := pages[pid];
      BTreeNode.Init(n, m, bit, pid);
      AllocUpdate(mem, m, freePage, free, nextPage, used, pid, n[..]);
      mem := mem[pid := n[..]];
    }

    /** An empty page of the given kind. */
    method NewNode(bit: int, ghost used: multiset<nat>) returns (pid: nat)
      requires Allocated(used) && bit in {0, BIT_LEAF}
      modifies `pages, `mem, `nextPage, `freePage, `free, `numPagesFree, pages
      ensures Allocated(used + multiset{pid}) && 0 < pid < |pages| && pid !in used
      ensures pid == if old(freePage) > 0 then old(freePage) else old(nextPage)
      ensures Holds(mem[pid], m, Node(pid, bit == BIT_LEAF, []))
      ensures SamePages(old(mem), mem, used) && FreshPages(old(pages))
    {
      hide Holds, FreeList, Unused, PageRange, AllocOk;
      pid := TakePage(used);
      assert pages[pid] in pages;
      InitPage(pid, bit, used + multiset{pid});
    }

    /** An empty page of the same kind as page `pid`. */
    method NewNodeLike(pid: nat, ghost x: Node, ghost used: multiset<nat>) returns (nn: nat)
      requires Allocated(used) && pid < |pages| && pid < |mem| && Holds(mem[pid], m, x)
      modifies `pages, `mem, `nextPage, `freePage, `free, `numPagesFree, pages
      ensures Allocated(used + multiset{nn}) && nn < |pages| && nn !in used
      ensures Holds(mem[nn], m, Node(nn, x.leaf, []))
      ensures SamePages(old(mem), mem, used) && FreshPages(old(pages))
    {
      MetaReads(pages[pid], m, x);
      nn := NewNode(Bits(pages[pid], m), used);
    }

    // ---- Node operations on a page of the tree ----

    method PutPair(pid: nat, k: int, v: int, ghost x: Node, ghost used: multiset<nat>) returns (numAdded: nat)
      requires Allocated(used) && pid in used && pid < |pages| && Holds(mem[pid], m, x)
      requires k > 0 && Positive(x.kvs) && (|x.kvs| < m || HasKey(x.kvs, k))
      modifies `mem, pages[pid]
      ensures Allocated(used) && mem == old(mem)[pid := mem[pid]]
      ensures Holds(mem[pid], m, x.(kvs := Put(x.kvs, k, v)))
      ensures numAdded == if HasKey(x.kvs, k) then 0 else 1
    {
      var n := pages[pid];
      numAdded := BTreeNode.Set(n, m, k, v, x);
      AllocUpdate(mem, m, freePage, free, nextPage, used, pid, n[..]);
      mem := mem[pid := n[..]];
    }

    method AddPair(pid: nat, idx: nat, k: int, ghost x: Node, ghost used: multiset<nat>)
      requires Allocated(used) && pid in used && pid < |pages| && Holds(mem[pid], m, x)
      requires idx == |x.kvs| < m
      modifies `mem, pages[pid]
      ensures Allocated(used) && mem == old(mem)[pid := mem[pid]]
      ensures Holds(mem[pid], m, x.(kvs := x.kvs + [KV(k, 0)]))
    {
      var n := pages[pid];
      BTreeNode.AddKey(n, m, idx, k, x);
      AllocUpdate(mem, m, freePage, free, nextPage, used, pid, n[..]);
      mem := mem[pid := n[..]];
    }

    method SetPtr(pid: nat, idx: nat, v: int, ghost x: Node, ghost used: multiset<nat>)
      requires Allocated(used) && pid in used && pid < |pages| && Holds(mem[pid], m, x)
      requires idx < |x.kvs|
      modifies `mem, pages[pid]
      ensures Allocated(used) && mem == old(mem)[pid := mem[pid]]
      ensures Holds(mem[pid], m, x.(kvs := x.kvs[idx := KV(x.kvs[idx].key, v)]))
    {
      var n := pages[pid];
      BTreeNode.SetVal(n, m, idx, v, x);
      AllocUpdate(mem, m, freePage, free, nextPage, used, pid, n[..]);
      mem := mem[pid := n[..]];
    }

    /** Splits the full page `pid`; the upper half goes to a new page. */
    method Split(pid: nat, ghost x: Node, ghost used: multiset<nat>) returns (nn: nat)
      requires Allocated(used) && pid in used && pid < |pages| && Holds(mem[pid], m, x) && |x.kvs| == m
      modifies `pages, `mem, `nextPage, `freePage, `free, `numPagesFree, pages
      ensures Allocated(used + multiset{nn}) && nn < |pages| && nn !in used
      ensures SamePagesBut(old(mem), mem, used, pid) && FreshPages(old(pages))
      ensures Holds(mem[pid], m, x.(kvs := x.kvs[..m / 2]))
      ensures Holds(mem[nn], m, x.(pid := nn, kvs := x.kvs[m / 2..]))
    {
      hide Holds, FreeList, Unused, PageRange;
      nn := NewNodeLike(pid, x, used);
      ghost var y := Node(nn, x.leaf, []);
      assert pages[pid] in pages && pages[nn] in pages;
      MoveUpperPages(pid, nn, x, y, used + multiset{nn});
    }

    method MoveUpperPages(pid: nat, nn: nat, ghost x: Node, ghost y: Node, ghost used: multiset<nat>)
      requires Allocated(used) && pid in used && nn in used && pid != nn && pid < |pages| && nn < |pages|
      requires Holds(mem[pid], m, x) && |x.kvs| == m && Holds(mem[nn], m, y) && y.kvs == []
      modifies `mem, pages[pid], pages[nn]
      ensures Allocated(used) && mem == old(mem)[pid := mem[pid]][nn := mem[nn]]
      ensures Holds(mem[pid], m, x.(kvs := x.kvs[..m / 2]))
      ensures Holds(mem[nn], m, y.(kvs := x.kvs[m / 2..]))
    {
      var n, u := pages[pid], pages[nn];
      BTreeNode.MoveUpper(n, u, m, x, y);
      AllocUpdate(mem, m, freePage, free, nextPage, used, pid, n[..]);
      AllocUpdate(mem[pid := n[..]], m, freePage, free, nextPage, used, nn, u[..]);
      mem := mem[pid := n[..]][nn := u[..]];
    }

    // ---- Insertion ----

    /** The slot of the child for `k`.  In the fresh root the slot and its leaf are made first. */
    method ChildFor(pid: nat, k: int, ghost t: Shape, ghost r: multiset<nat>, ghost lo: int, ghost h: nat)
      returns (idx: nat, child: nat, ghost a: seq<Shape>, ghost c: Shape, ghost b: seq<Shape>)
      requires Allocated(Foot(t) + r) && Rep(mem, m, t) && t.Inner? && t.pid == pid && pid < |pages|
      requires Settable(t, m, lo, h, k)
      modifies `pages, `mem, `nextPage, `freePage, `free, `numPagesFree, pages
      ensures h > 0 && Allocated(Ring(pid, a, b) + Foot(c) + r) && child == c.pid < |pages| && idx == |a|
      ensures Opened(mem, m, pid, a, MaxWith(c, k), child, b, lo, h - 1) && Rep(mem, m, c)
      ensures Settable(c, m, LoAfter(a, lo), h - 1, k)
      ensures if Empty(t) then a == b == [] && c.Leaf? && Empty(c) else t.kids == a + [c] + b && !Empty(c)
      ensures SamePages(old(mem), mem, r) && FreshPages(old(pages))
    {
      hide Holds, Allocated, SamePages, SamePagesBut, PageRange, FreeList, Unused, Opened, Rep, Settable, Foot,
           KidsFoot, Entries;
      UsedRange(Foot(t) + r);
      PageWords(Foot(t) + r, pid);
      RepHolds(mem, m, t);
      Apart(Foot(t), r, free, nextPage);
      SlotFilled(mem, m, t, r, free, nextPage, lo, h, k);
      idx := SearchKey(pages[pid], m, k, NodeOf(t));
      child := FillSlot(pid, idx, k, NodeOf(t), Foot(t) + r);
      a, c, b := OpenFilled(mem, m, t, child, lo, h, k);
      assert Ring(pid, a, b) + Foot(c) + r == if Empty(t) then Foot(t) + r + multiset{child} else Foot(t) + r;
      RepHolds(mem, m, c);
      UsedRange(Ring(pid, a, b) + Foot(c) + r);
      KeptAside(old(mem), mem, Foot(t), r, pid);
    }

    /** The child in slot `idx`; an empty slot, there in the fresh root only, gets `k` and a new leaf. */
    method FillSlot(pid: nat, idx: nat, k: int, ghost x: Node, ghost used: multiset<nat>) returns (child: nat)
      requires Allocated(used) && pid in used && pid < |pages| && Holds(mem[pid], m, x)
      requires if x.kvs == [] then idx == 0 else idx < |x.kvs| && x.kvs[idx].key > 0 && x.kvs[idx].val > 0
      modifies `pages, `mem, `nextPage, `freePage, `free, `numPagesFree, pages
      ensures x.kvs != [] ==> Allocated(used) && mem == old(mem) && child == x.kvs[idx].val
      ensures x.kvs == [] ==> Allocated(used + multiset{child}) && SamePagesBut(old(mem), mem, used, pid)
      ensures x.kvs == [] ==> pid < |mem| && Holds(mem[pid], m, x.(kvs := [KV(k, child)]))
      ensures x.kvs == [] ==> child < |mem| && Holds(mem[child], m, Node(child, true, []))
      ensures FreshPages(old(pages))
    {
      hide AllocOk, FreeList, Unused, PageRange;
      ghost var y := FillKey(pid, idx, k, x, used);
      child := pages[pid][ValOffset(idx)];
      assert child == 0 <==> x.kvs == [];
      if child != 0 {
        return;
      }
      assert y.kvs == [KV(k, 0)];
      child := FirstChild(pid, idx, y, used);
      assert y.kvs[idx := KV(y.kvs[idx].key, child)] == [KV(k, child)];
    }

    method FillKey(pid: nat, idx: nat, k: int, ghost x: Node, ghost used: multiset<nat>) returns (ghost y: Node)
      requires Allocated(used) && pid in used && pid < |pages| && Holds(mem[pid], m, x)
      requires if x.kvs == [] then idx == 0 else idx < |x.kvs| && x.kvs[idx].key > 0
      modifies `mem, pages[pid]
      ensures Allocated(used) && mem == old(mem)[pid := mem[pid]] && Holds(mem[pid], m, y)
      ensures if x.kvs == [] then y == x.(kvs := [KV(k, 0)]) else y == x && mem == old(mem)
      ensures pages[pid][2 * idx + 1] == y.kvs[idx].val
    {
      hide Holds, AllocOk;
      y := x;
      var n := pages[pid];
      SlotWords(mem[pid], m, x, idx);
      assert n[..][2 * idx] == n[2 * idx];
      if n[KeyOffset(idx)] == 0 {
        AddPair(pid, idx, k, x, used);
        y := x.(kvs := [KV(k, 0)]);
        assert x.kvs + [KV(k, 0)] == y.kvs;
      }
      SlotWords(mem[pid], m, y, idx);
      assert n[..][2 * idx + 1] == n[2 * idx + 1];
    }

    static lemma SlotWords(w: seq<int>, m: int, x: Node, idx: nat)
      requires GoodMax(m) && Holds(w, m, x) && (if x.kvs == [] then idx == 0 else idx < |x.kvs|)
      ensures |w| == 2 * m + 2 && 2 * idx + 1 < 2 * m
      ensures if x.kvs == [] then w[2 * idx] == 0 else w[2 * idx] == x.kvs[idx].key && w[2 * idx + 1] == x.kvs[idx].val
    {
    }

    /** A new leaf, pointed to from slot `idx`. */
    method FirstChild(pid: nat, idx: nat, ghost x: Node, ghost used: multiset<nat>) returns (child: nat)
      requires Allocated(used) && pid in used && pid < |pages| && Holds(mem[pid], m, x) && idx < |x.kvs|
      modifies `pages, `mem, `nextPage, `freePage, `free, `numPagesFree, pages
      ensures Allocated(used + multiset{child}) && child < |pages| && child !in used && pid < |pages|
      ensures Holds(mem[pid], m, x.(kvs := x.kvs[idx := KV(x.kvs[idx].key, child)]))
      ensures Holds(mem[child], m, Node(child, true, []))
      ensures SamePagesBut(old(mem), mem, used, pid) && FreshPages(old(pages))
    {
      hide FreeList, Unused, PageRange, AllocOk, Holds;
      child := NewNode(BIT_LEAF, used);
      assert pages[pid] in pages;
      SetPtr(pid, idx, child, x, used + multiset{child});
    }

    /** Splits the full child `c` of page `pid` and links both halves. */
    method SplitChild(pid: nat, child: nat, ghost a: seq<Shape>, ghost c: Shape, ghost b: seq<Shape>,
                      ghost r: multiset<nat>, ghost lo: int, ghost h: nat) returns (ghost mid: seq<Shape>)
      requires Allocated(Ring(pid, a, b) + Foot(c) + r) && pid < |pages| && child == c.pid < |pages|
      requires Opened(mem, m, pid, a, MaxOf(c), child, b, lo, h) && Rep(mem, m, c)
      requires WfTop(c, m, m, LoAfter(a, lo), h) && Size(c) == m
      modifies `pages, `mem, `nextPage, `freePage, `free, `numPagesFree, pages
      ensures |mid| == 2 && WfKids(mid, m, LoAfter(a, lo), h) && LoAfter(mid, lo) == MaxOf(c)
      ensures KidsMap(mid) == Contents(c) && KidsLeafKeys(mid) == LeafKeys(c)
      ensures Rep(mem, m, Inner(pid, a + mid + b)) && Allocated(Foot(Inner(pid, a + mid + b)) + r)
      ensures SamePages(old(mem), mem, r) && FreshPages(old(pages))
    {
      hide Holds, Sorted, Positive, Rep, RepKids, WfTop, WfKids, MaxOf, LoAfter, Contents, KidsMap, KidsLeafKeys,
           KidsFoot, Foot;
      hide Allocated, SamePages, SamePagesBut, FreeList, Unused, PageRange, Opened, Ring, LastKey, Entries, NodeOf,
           Lower, Upper, Size;
      ghost var free0, next0, used := free, nextPage, Ring(pid, a, b) + Foot(c) + r;
      UsedRange(used);
      RepHolds(mem, m, c);
      var nn := Split(child, NodeOf(c), used);
      UsedRange(used + multiset{nn});
      KeptApart(old(mem), mem, used, child);
      ghost var l, u, was := Lower(c, m / 2), Upper(c, m / 2, nn), mem;
      mid := [l, u];
      HalvesShape(c, m, LoAfter(a, lo), h, nn);
      HalvesReady(old(mem), mem, m, pid, a, c, b, nn, r, free0, next0, lo, h);
      RingHas(pid, a, b);
      assert pages[pid] in pages;
      assert FreshPages(old(pages));
      LinkHalves(pid, child, nn, Entries(a), Entries(b), NodeOf(l), NodeOf(u), used + multiset{nn});
      assert used + multiset{nn} == Ring(pid, a, b) + KidsFoot(mid) + r;
      UsedRange(Ring(pid, a, b) + KidsFoot(mid) + r);
      AfterLink(was, mem, m, pid, a, mid, b, r, free, nextPage);
      LoAfterPair(l, u, lo);
      KeptThen(old(mem), was, mem, r, pid);
    }

    /** Sets the maximum key of page `child` in page `pid`, pointing to `child`. */
    method SetMax(pid: nat, child: nat, ghost x: Node, ghost y: Node, ghost used: multiset<nat>)
      requires Allocated(used) && pid in used && pid < |pages| && child < |pages|
      requires Holds(mem[pid], m, x) && Holds(mem[child], m, y)
      requires LastKey(y.kvs) > 0 && Positive(x.kvs) && (|x.kvs| < m || HasKey(x.kvs, LastKey(y.kvs)))
      modifies `mem, pages[pid]
      ensures Allocated(used) && mem == old(mem)[pid := mem[pid]]
      ensures Holds(mem[pid], m, x.(kvs := Put(x.kvs, LastKey(y.kvs), child)))
    {
      var k := MaxKey(pages[child], m, y);
      var _ := PutPair(pid, k, child, x, used);
    }

    /** Sets the maximum of the lower half, a new key, and redirects the old key to the upper half. */
    method LinkHalves(pid: nat, child: nat, nn: nat, ghost ea: seq<KV>, ghost eb: seq<KV>, ghost l: Node, ghost u: Node,
                      ghost used: multiset<nat>)
      requires Allocated(used) && pid in used && pid < |pages| && child < |pages| && nn < |pages| && pid != nn
      requires Holds(mem[child], m, l) && Holds(mem[nn], m, u)
      requires 0 < LastKey(l.kvs) < LastKey(u.kvs) && LastKey(ea) < LastKey(l.kvs)
      requires var kvs := ea + [KV(LastKey(u.kvs), child)] + eb;
        |kvs| < m && Sorted(kvs) && Positive(kvs) && Holds(mem[pid], m, Node(pid, false, kvs))
      modifies `mem, pages[pid]
      ensures Allocated(used) && mem == old(mem)[pid := mem[pid]]
      ensures Holds(mem[pid], m, Node(pid, false, ea + [KV(LastKey(l.kvs), child), KV(LastKey(u.kvs), nn)] + eb))
    {
      hide Holds, AllocOk, Sorted, Positive, HasKey, Put, Rank;
      ghost var k1, k2 := LastKey(l.kvs), LastKey(u.kvs);
      PutTwice(ea, eb, k1, k2, child, nn);
      PositiveInsert(ea, KV(k1, child), KV(k2, child), eb);
      SetMax(pid, child, Node(pid, false, ea + [KV(k2, child)] + eb), l, used);
      SetMax(pid, nn, Node(pid, false, ea + [KV(k1, child), KV(k2, child)] + eb), u, used);
    }

    /** Keeps the child as it is, or splits it if it is full. */
    method SplitIfFull(pid: nat, child: nat, ghost a: seq<Shape>, ghost c: Shape, ghost b: seq<Shape>,
                       ghost r: multiset<nat>, ghost lo: int, ghost h: nat) returns (ghost mid: seq<Shape>)
      requires Allocated(Ring(pid, a, b) + Foot(c) + r) && pid < |pages| && child == c.pid < |pages|
      requires Opened(mem, m, pid, a, MaxOf(c), child, b, lo, h) && Rep(mem, m, c)
      requires WfTop(c, m, m, LoAfter(a, lo), h)
      modifies `pages, `mem, `nextPage, `freePage, `free, `numPagesFree, pages
      ensures 1 <= |mid| <= 2 && WfKids(mid, m, LoAfter(a, lo), h) && LoAfter(mid, lo) == MaxOf(c)
      ensures KidsMap(mid) == Contents(c) && KidsLeafKeys(mid) == LeafKeys(c)
      ensures Rep(mem, m, Inner(pid, a + mid + b)) && Allocated(Foot(Inner(pid, a + mid + b)) + r)
      ensures SamePages(old(mem), mem, r) && FreshPages(old(pages))
    {
      RepHolds(mem, m, c);
      MetaReads(pages[child], m, NodeOf(c));
      if IsFull(pages[child], m) {
        mid := SplitChild(pid, child, a, c, b, r, lo, h);
      } else {
        mid := [c];
        SingleKid(mem, m, pid, a, c, b, lo, h);
      }
    }

    method HasLeafBit(pid: nat, ghost x: Node, ghost used: multiset<nat>) returns (leaf: bool)
      requires Allocated(used) && pid < |pages| && pid < |mem| && Holds(mem[pid], m, x)
      ensures leaf == x.leaf
    {
      var n;
      leaf, n := ReadMeta(pid, x);
    }

    method ReadMeta(pid: nat, ghost x: Node) returns (leaf: bool, n: nat)
      requires Linked() && pid < |pages| && pid < |mem| && Holds(mem[pid], m, x)
      ensures leaf == x.leaf && n == |x.kvs|
    {
      MetaReads(pages[pid], m, x);
      leaf, n := IsLeaf(pages[pid], m), NumKeys(pages[pid], m);
    }

    /** Inserts below page `pid`; afterwards the node there may be full. */
    method SetRec(pid: nat, k: int, v: int, ghost t: Shape, ghost r: multiset<nat>, ghost lo: int, ghost h: nat)
      returns (ghost t': Shape)
      requires Allocated(Foot(t) + r) && Rep(mem, m, t) && t.pid == pid < |pages|
      requires Settable(t, m, lo, h, k)
      modifies `pages, `mem, `nextPage, `freePage, `free, `numPagesFree, `numLeafKeys, pages
      ensures Allocated(Foot(t') + r) && Rep(mem, m, t') && t'.pid == pid < |pages| && t'.Leaf? == t.Leaf?
      ensures WfTop(t', m, m, lo, h) && MaxOf(t') == MaxWith(t, k)
      ensures Contents(t') == Contents(t)[k := v]
      ensures numLeafKeys == old(numLeafKeys) + LeafKeys(t') - LeafKeys(t)
      ensures SamePages(old(mem), mem, r) && FreshPages(old(pages))
      decreases h
    {
      hide Holds, Sorted, Positive, Rep, WfTop, WfKids, Wf, MaxOf, LoAfter, Contents, KidsMap, LeafKeys, KidsLeafKeys,
           KidsFoot, Foot;
      hide AllocOk, Linked, Allocated, FreeList, Unused, PageRange, Put, Rank, HasKey, Opened, Ring, Settable, Empty,
           MaxWith, Entries;
      RepHolds(mem, m, t);
      var leaf := HasLeafBit(pid, NodeOf(t), Foot(t) + r);
      if leaf {
        t' := SetLeaf(pid, k, v, t, r, lo, h);
        return;
      }
      var idx, child;
      ghost var a, c, b;
      idx, child, a, c, b := ChildFor(pid, k, t, r, lo, h);
      ghost var was, ring := mem, Ring(pid, a, b) + r;
      assert Foot(c) + ring == Ring(pid, a, b) + Foot(c) + r;
      RepHolds(mem, m, c);
      assert FreshPages(old(pages));
      ghost var c' := SetRec(child, k, v, c, ring, LoAfter(a, lo), h - 1);
      assert Ring(pid, a, b) + Foot(c') + r == Foot(c') + ring;
      assert FreshPages(old(pages));
      OpenedFrame(was, mem, m, pid, a, MaxWith(c, k), child, b, lo, h - 1);
      ghost var mid := SplitIfFull(pid, child, a, c', b, r, lo, h - 1);
      t' := Inner(pid, a + mid + b);
      InnerDone(t, was, m, lo, h, k, v, a, c, mid, b);
    }

    method SetLeaf(pid: nat, k: int, v: int, ghost t: Shape, ghost r: multiset<nat>, ghost lo: int, ghost h: nat)
      returns (ghost t': Shape)
      requires Allocated(Foot(t) + r) && Rep(mem, m, t) && t.Leaf? && t.pid == pid < |pages|
      requires Settable(t, m, lo, h, k)
      modifies `mem, `numLeafKeys, pages[pid]
      ensures Allocated(Foot(t') + r) && Rep(mem, m, t') && t'.pid == pid && t'.Leaf?
      ensures WfTop(t', m, m, lo, h) && MaxOf(t') == MaxWith(t, k)
      ensures Contents(t') == Contents(t)[k := v]
      ensures numLeafKeys == old(numLeafKeys) + LeafKeys(t') - LeafKeys(t)
      ensures SamePages(old(mem), mem, r)
    {
      hide Holds, WfTop, Put, Rank, HasKey, Sorted, Positive, Contents, MaxOf, FreeList, Unused, PageRange;
      LeafDone(t, m, lo, h, k, v);
      Apart(Foot(t), r, free, nextPage);
      var numAdded := PutPair(pid, k, v, NodeOf(t), Foot(t) + r);
      numLeafKeys := numLeafKeys + numAdded;
      t' := Leaf(pid, Put(t.kvs, k, v));
    }

    // ---- The root ----

    /** The two halves of the full root page, both on new pages; the root page is left without keys. */
    method HalveRoot(ghost x: Node, ghost used: multiset<nat>) returns (left: nat, right: nat)
      requires Allocated(used) && 1 in used && 1 < |pages| && Holds(mem[1], m, x) && !x.leaf && x.pid == 1
        && |x.kvs| == m
      modifies `pages, `mem, `nextPage, `freePage, `free, `numPagesFree, pages
      ensures Allocated(used + multiset{left, right}) && left < |pages| && right < |pages| && left != 1 && right != 1
      ensures left !in used && right !in used && left != right
      ensures 1 < |pages| && Holds(mem[1], m, Node(1, false, []))
      ensures Holds(mem[left], m, Node(left, false, x.kvs[..m / 2]))
      ensures Holds(mem[right], m, Node(right, false, x.kvs[m / 2..]))
      ensures SamePagesBut(old(mem), mem, used, 1) && FreshPages(old(pages))
    {
      hide Holds, AllocOk, Allocated, SamePages, SamePagesBut;
      left, right := HalveOut(x, used);
      ghost var made, both := mem, used + multiset{right} + multiset{left};
      assert pages[1] in pages && pages[left] in pages && FreshPages(old(pages));
      PagesInMem(both);
      MoveAllPages(1, left, x.(kvs := x.kvs[..m / 2]), Node(left, false, []), both);
      PagesInMem(both);
      KeptButMoved(old(mem), made, mem, used, left);
      assert both == used + multiset{left, right};
    }

    lemma PagesInMem(used: multiset<nat>)
      requires Allocated(used)
      ensures |mem| == |pages|
    {
    }

    /** The upper half of the root goes to one page, and another one is taken for the lower half. */
    method HalveOut(ghost x: Node, ghost used: multiset<nat>) returns (left: nat, right: nat)
      requires Allocated(used) && 1 in used && 1 < |pages| && Holds(mem[1], m, x) && !x.leaf && x.pid == 1
        && |x.kvs| == m
      modifies `pages, `mem, `nextPage, `freePage, `free, `numPagesFree, pages
      ensures Allocated(used + multiset{right} + multiset{left})
      ensures 1 < |pages| && left < |pages| && right < |pages| && left != 1 && right != 1
      ensures left !in used && right !in used && left != right
      ensures Holds(mem[1], m, x.(kvs := x.kvs[..m / 2])) && Holds(mem[left], m, Node(left, false, []))
      ensures Holds(mem[right], m, Node(right, false, x.kvs[m / 2..]))
      ensures SamePagesBut(old(mem), mem, used, 1) && FreshPages(old(pages))
    {
      hide Holds, AllocOk, Allocated, SamePages, SamePagesBut;
      right := Split(1, x, used);
      PagesInMem(used + multiset{right});
      assert FreshPages(old(pages));
      ghost var split := mem;
      left := NewNodeLike(1, x.(kvs := x.kvs[..m / 2]), used + multiset{right});
      PagesInMem(used + multiset{right} + multiset{left});
      HalvesKept(old(mem), split, mem, used, right);
    }

    /** The two halves of a root that is split, and what else was used, while the second page is taken. */
    static lemma HalvesKept(was: Mem, split: Mem, made: Mem, used: multiset<nat>, right: nat)
      requires SamePagesBut(was, split, used, 1) && SamePages(split, made, used + multiset{right})
      ensures SamePagesBut(was, made, used, 1)
      ensures right < |split| ==> right < |made| && made[right] == split[right]
      ensures 1 in used && 1 < |split| ==> 1 < |made| && made[1] == split[1]
    {
    }

    static lemma KeptButMoved(was: Mem, made: Mem, now: Mem, used: multiset<nat>, left: nat)
      requires SamePagesBut(was, made, used, 1) && left !in used && 1 < |made| && left < |made|
      requires |now| == |made| && now == made[1 := now[1]][left := now[left]]
      ensures SamePagesBut(was, now, used, 1)
    {
    }

    method MoveAllPages(pid: nat, nn: nat, ghost x: Node, ghost y: Node, ghost used: multiset<nat>)
      requires Allocated(used) && pid in used && nn in used && pid != nn && pid < |pages| && nn < |pages|
      requires Holds(mem[pid], m, x) && Holds(mem[nn], m, y) && y.kvs == []
      modifies `mem, pages[pid], pages[nn]
      ensures Allocated(used) && mem == old(mem)[pid := mem[pid]][nn := mem[nn]]
      ensures Holds(mem[pid], m, x.(kvs := []))
      ensures Holds(mem[nn], m, y.(kvs := x.kvs))
    {
      var n, u := pages[pid], pages[nn];
      BTreeNode.MoveAll(n, u, m, x, y);
      AllocUpdate(mem, m, freePage, free, nextPage, used, pid, n[..]);
      AllocUpdate(mem[pid := n[..]], m, freePage, free, nextPage, used, nn, u[..]);
      mem := mem[pid := n[..]][nn := u[..]];
    }

    /** Gives the emptied root its two children. */
    method LinkRoot(left: nat, right: nat, ghost l: Node, ghost r: Node, ghost used: multiset<nat>)
      requires Allocated(used) && 1 in used && 1 < |pages| && left < |pages| && right < |pages| && left != 1
        && right != 1
      requires Holds(mem[1], m, Node(1, false, [])) && Holds(mem[left], m, l) && Holds(mem[right], m, r)
      requires 0 < LastKey(l.kvs) < LastKey(r.kvs)
      modifies `mem, pages[1]
      ensures Allocated(used) && mem == old(mem)[1 := mem[1]]
      ensures Holds(mem[1], m, Node(1, false, [KV(LastKey(l.kvs), left), KV(LastKey(r.kvs), right)]))
    {
      hide Holds, AllocOk, Put, Rank, HasKey, LastKey;
      PutEmpty(LastKey(l.kvs), left);
      PutSecond(LastKey(l.kvs), LastKey(r.kvs), left, right);
      SetMax(1, left, Node(1, false, []), l, used);
      SetMax(1, right, Node(1, false, [KV(LastKey(l.kvs), left)]), r, used);
    }

    method SplitRoot(ghost t: Shape, ghost h: nat) returns (ghost t': Shape)
      requires Allocated(Foot(t)) && Rep(mem, m, t) && t.Inner? && t.pid == 1 && |t.kids| == m && 1 < |pages|
      requires WfTop(t, m, m, 0, h)
      modifies `pages, `mem, `nextPage, `freePage, `free, `numPagesFree, pages
      ensures Allocated(Foot(t')) && Rep(mem, m, t') && t'.Inner? && t'.pid == 1
      ensures Wf(t', m, 0, h + 1) && MaxOf(t') == MaxOf(t)
      ensures Contents(t') == Contents(t) && LeafKeys(t') == LeafKeys(t)
      ensures FreshPages(old(pages))
    {
      hide Holds, FreeList, Unused, PageRange, Rep, RepKids, WfTop, Wf, MaxOf, LastKey, Contents, LeafKeys, Foot,
           KidsFoot, Entries, Ring;
      ghost var free0, next0, x, used := free, nextPage, NodeOf(t), Foot(t);
      RepHolds(mem, m, t);
      var left, right := HalveRoot(x, used);
      ghost var was, mid := mem, RootHalves(t, m / 2, left, right);
      RootShape(t, m, 0, h, left, right);
      RootRep(old(mem), mem, m, t, left, right, free0, next0);
      RootEntries(t, m, left, right, 0, h);
      assert pages[1] in pages;
      LinkRoot(left, right, NodeOf(mid[0]), NodeOf(mid[1]), used + multiset{left, right});
      t' := Inner(1, mid);
      assert [] + mid + [] == mid;
      AfterLink(was, mem, m, 1, [], mid, [], multiset{}, free, nextPage);
    }

    /** What `Set` needs of the tree: everything but a key in the root. */
    ghost predicate Usable(k: int)
      reads this, pages
    {
      && Allocated(Foot(tree)) && Rep(mem, m, tree) && tree.Inner? && tree.pid == 1
      && Settable(tree, m, 0, depth, k)
      && numLeafKeys == LeafKeys(tree)
    }

    ghost predicate Standing()
      reads this, pages
    {
      && Allocated(Foot(tree)) && Rep(mem, m, tree) && tree.Inner? && tree.pid == 1
      && Wf(tree, m, 0, depth)
      && numLeafKeys == LeafKeys(tree)
    }

    /** The invariant of a tree between operations. */
    ghost predicate Valid()
      reads this, pages
    {
      Standing() && MaxOf(tree) == ABSOLUTE_MAX
    }

    /** What the statistics of a tree say: how many keys it has, and that every page is in it or free. */
    lemma Counts()
      requires Valid()
      ensures numLeafKeys == |Contents(tree)| && |Foot(tree)| + numPagesFree == nextPage - 1
    {
      hide Rep, MaxOf, Wf, Foot, FreeList;
      ContentsCount(tree, m, 0, depth);
      RangeCount(nextPage);
      assert |Foot(tree) + multiset(free)| == |Foot(tree)| + |multiset(free)|;
    }

    lemma ValidUsable(k: int)
      requires Valid() && 0 < k <= ABSOLUTE_MAX
      ensures Usable(k) && MaxWith(tree, k) == ABSOLUTE_MAX
    {
      hide WfKids, Rep, MaxOf;
      InnerNotEmpty(tree, m, 0, depth);
    }

    /** Sets `k` to `v`; a full root is split under a new root on the same page. */
    method Set(k: int, v: int)
      requires Usable(k)
      modifies this, pages
      ensures Standing() && MaxOf(tree) == MaxWith(old(tree), k)
      ensures Contents(tree) == Contents(old(tree))[k := v]
      ensures FreshPages(old(pages))
    {
      hide Holds, AllocOk, Linked, Allocated, Rep, WfTop, MaxOf, Contents, LeafKeys, Foot, MaxWith, Settable;
      RepHolds(mem, m, tree);
      assert Foot(tree) + multiset{} == Foot(tree);
      RootPage();
      ghost var t := SetRec(1, k, v, tree, multiset{}, 0, depth);
      ghost var h := depth;
      assert Foot(t) + multiset{} == Foot(t);
      var full := HasAllKeys(1, t, Foot(t));
      if full {
        assert FreshPages(old(pages));
        InnerSize(t);
        t := SplitRoot(t, depth);
        h := depth + 1;
      } else {
        WfNarrow(t, m, 0, depth);
      }
      tree, depth := t, h;
    }

    lemma RootPage()
      requires Allocated(Foot(tree)) && Rep(mem, m, tree) && tree.pid == 1
      ensures 1 < |pages| && GoodMax(m)
    {
    }

    method HasAllKeys(pid: nat, ghost t: Shape, ghost used: multiset<nat>) returns (full: bool)
      requires Allocated(used) && Rep(mem, m, t) && t.pid == pid < |pages|
      ensures full == (Size(t) == m) && (!full ==> Size(t) < m)
    {
      RepHolds(mem, m, t);
      MetaReads(pages[pid], m, NodeOf(t));
      full := IsFull(pages[pid], m);
    }

    // ---- Creation ----

    /** A tree over `size` zeroed pages, page 0 among them, holding only the rightmost key. */
    constructor (maxKeys: nat, size: nat)
      requires GoodMax(maxKeys) && size > 0
      ensures Valid() && Contents(tree) == map[ABSOLUTE_MAX := 0] && m == maxKeys
      ensures fresh(pages)
    {
      m := maxKeys;
      pages, mem := [], [];
      nextPage, freePage, free := 1, 0, [];
      numLeafKeys, numPagesFree := 0, 0;
      tree, depth := Inner(1, []), 1;
      new;
      var i := 0;
      while i < size
        modifies `pages, `mem
        invariant Linked() && i == |pages| <= size && fresh(pages)
        invariant forall p :: 0 <= p < i ==> mem[p][2 * m] == 0
      {
        Reserve(i);
        i := i + 1;
      }
      InitRootNode();
    }

    method InitRootNode()
      requires Linked() && 0 < |pages| && nextPage == 1 && freePage == 0 && free == []
        && numPagesFree == numLeafKeys == 0
      requires forall p :: 0 <= p < |mem| ==> mem[p][2 * m] == 0
      requires tree == Inner(1, []) && depth == 1
      modifies this, pages
      ensures Valid() && Contents(tree) == map[ABSOLUTE_MAX := 0]
      ensures FreshPages(old(pages))
    {
      hide Holds, Rep, AllocOk, Foot, Contents, LeafKeys, Settable, MaxWith;
      NothingAllocated(mem, m);
      var root := NewNode(0, multiset{});
      assert FreshPages(old(pages));
      FreshRoot(mem, m, ABSOLUTE_MAX);
      assert multiset{} + multiset{root} == multiset{1};
      Set(ABSOLUTE_MAX, 0);
    }

    // ---- Reading ----

    /** The value under `k`, or zero when there is none. */
    method Get(k: int) returns (v: int)
      requires Valid() && 0 < k <= ABSOLUTE_MAX
      ensures v == Lookup(Contents(tree), k)
    {
      v := GetRec(1, k, tree, 0, depth);
    }

    method GetRec(pid: nat, k: int, ghost t: Shape, ghost lo: int, ghost h: nat) returns (v: int)
      requires Linked() && Rep(mem, m, t) && t.pid == pid < |pages| && Wf(t, m, lo, h) && lo >= 0
      ensures v == Lookup(Contents(t), k)
      decreases h
    {
      hide Holds, Contents, WfKids, WfTop, MaxOf;
      RepHolds(mem, m, t);
      var n := pages[pid];
      MetaReads(n, m, NodeOf(t));
      if IsLeaf(n, m) {
        LeafLookup(t, m, lo, h, k);
        v := BTreeNode.Get(n, m, k, NodeOf(t));
        return;
      }
      var idx := SearchKey(n, m, k, NodeOf(t));
      InnerLookup(mem, t, m, lo, h, k);
      if idx == NumKeys(n, m) || n[KeyOffset(idx)] == 0 {
        return 0;
      }
      var child := n[ValOffset(idx)];
      ghost var lo' := KidLo(mem, t, m, lo, h, idx);
      v := GetRec(child, k, t.kids[idx], lo', h - 1);
    }

    // ---- Compaction ----

    method CompactPage(pid: nat, lo: int, ghost x: Node, ghost used: multiset<nat>) returns (rem: nat)
      requires Allocated(used) && pid in used && pid < |pages| && Holds(mem[pid], m, x)
      modifies `mem, pages[pid]
      ensures Allocated(used) && mem == old(mem)[pid := mem[pid]]
      ensures var kept := Kept(x.kvs, lo, LastKey(x.kvs));
        && Holds(mem[pid], m, x.(kvs := kept))
        && rem == if |kept| == 1 && kept[0].key == LastKey(x.kvs) && kept[0].val < lo then 0 else |kept|
    {
      var n := pages[pid];
      rem := BTreeNode.Compact(n, m, lo, x);
      AllocUpdate(mem, m, freePage, free, nextPage, used, pid, n[..]);
      mem := mem[pid := n[..]];
    }

    /** Puts a used page at the head of the free list. */
    method FreeNode(child: nat, ghost x: Node, ghost used: multiset<nat>)
      requires Allocated(used + multiset{child}) && child < |pages| && Holds(mem[child], m, x) && x.pid == child
      modifies `mem, `freePage, `free, `numPagesFree, pages[child]
      ensures Allocated(used) && mem == old(mem)[child := mem[child]]
    {
      FreePage(mem, m, freePage, free, nextPage, used, child);
      var n := pages[child];
      n[0] := freePage;
      freePage, free := child, [child] + free;
      numPagesFree := numPagesFree + 1;
      mem := mem[child := n[..]];
      assert mem[child] == old(mem)[child][0 := old(freePage)];
    }

    /** Removes the keys whose value is below `ts`, except the largest key of each leaf that stays. */
    method DeleteBelow(ts: int)
      requires Valid()
      modifies this, pages
      ensures Valid() && tree == Compacted(old(tree), ts) && depth == old(depth)
      ensures Survivors(Contents(old(tree)), Contents(tree), k => LeafMax(old(tree), ts, k), ts)
      ensures Tidy(tree, ts)
      ensures pages == old(pages) && nextPage == old(nextPage)
    {
      hide Tidy;
      hide Holds, AllocOk, Allocated, SamePages, Rep, MaxOf, Contents, LeafKeys, Foot, Wf, WfTop, Compacted, Survivors;
      numLeafKeys := 0;
      assert Foot(tree) + multiset{} == Foot(tree);
      RepHolds(mem, m, tree);
      UsedRange(Foot(tree));
      ghost var t := tree;
      var _ := CompactRec(1, ts, t, multiset{}, 0, depth);
      CompactedWf(t, m, 0, depth, ts);
      CompactedMap(t, m, 0, depth, ts);
      TidyCompacted(t, m, 0, depth, ts);
      tree := Compacted(t, ts);
      assert Foot(tree) + multiset{} == Foot(tree);
    }

    method CompactRec(pid: nat, ts: int, ghost t: Shape, ghost r: multiset<nat>, ghost lo: int, ghost h: nat)
      returns (rem: nat)
      requires Allocated(Foot(t) + r) && Rep(mem, m, t) && t.pid == pid < |pages| && Wf(t, m, lo, h) && lo >= 0
      modifies `mem, `freePage, `free, `numPagesFree, `numLeafKeys, pages
      ensures Allocated(Foot(Compacted(t, ts)) + r) && Rep(mem, m, Compacted(t, ts))
      ensures rem == 0 <==> Dead(t, ts)
      ensures numLeafKeys == old(numLeafKeys) + LeafKeys(Compacted(t, ts))
      ensures SamePages(old(mem), mem, r)
      decreases h, 1
    {
      var leaf := HasLeafBit(pid, NodeOf(t), Foot(t) + r);
      if leaf {
        rem := CompactLeaf(pid, ts, t, r, lo, h);
      } else {
        rem := CompactInner(pid, ts, t, r, lo, h);
      }
    }

    method CompactLeaf(pid: nat, ts: int, ghost t: Shape, ghost r: multiset<nat>, ghost lo: int, ghost h: nat)
      returns (rem: nat)
      requires Allocated(Foot(t) + r) && Rep(mem, m, t) && t.Leaf? && t.pid == pid < |pages| && Wf(t, m, lo, h)
      modifies `mem, `numLeafKeys, pages[pid]
      ensures Allocated(Foot(Compacted(t, ts)) + r) && Rep(mem, m, Compacted(t, ts))
      ensures rem == 0 <==> Dead(t, ts)
      ensures numLeafKeys == old(numLeafKeys) + LeafKeys(Compacted(t, ts))
      ensures SamePages(old(mem), mem, r)
    {
      hide Holds, Wf, FreeList, Unused, Kept, Dead;
      LeafCompacts(t, m, lo, h, ts);
      Apart(Foot(t), r, free, nextPage);
      rem := CompactPage(pid, ts, NodeOf(t), Foot(t) + r);
      var n := CountKeys(pid, NodeOf(Compacted(t, ts)), Foot(t) + r);
      numLeafKeys := numLeafKeys + n;
    }

    method CountKeys(pid: nat, ghost x: Node, ghost used: multiset<nat>) returns (n: nat)
      requires Allocated(used) && pid < |pages| && pid < |mem| && Holds(mem[pid], m, x)
      ensures n == |x.kvs|
    {
      MetaReads(pages[pid], m, x);
      n := NumKeys(pages[pid], m);
    }

    method CompactInner(pid: nat, ts: int, ghost t: Shape, ghost r: multiset<nat>, ghost lo: int, ghost h: nat)
      returns (rem: nat)
      requires Allocated(Foot(t) + r) && Rep(mem, m, t) && t.Inner? && t.pid == pid < |pages| && Wf(t, m, lo, h)
        && lo >= 0
      modifies `mem, `freePage, `free, `numPagesFree, `numLeafKeys, pages
      ensures Allocated(Foot(Compacted(t, ts)) + r) && Rep(mem, m, Compacted(t, ts))
      ensures rem > 0
      ensures numLeafKeys == old(numLeafKeys) + LeafKeys(Compacted(t, ts))
      ensures SamePages(old(mem), mem, r)
      decreases h, 0
    {
      hide Holds, Rep, Wf, WfKids, Foot, KidsFoot, FreeList, Unused, Compacted, CompactedKids, Dead, LeafKeys,
           KidsLeafKeys, LoopState, LoopFoot;
      hide MaxOf, LoAfter, LastKey, Kept;
      RepHolds(mem, m, t);
      WfInner(t, m, lo, h);
      var N := CountKeys(pid, NodeOf(t), Foot(t) + r);
      ghost var mk := MaxOf(t);
      LoopStart(mem, m, t, r, mk);
      ghost var marked, done := CompactKids(pid, N, ts, t.kids, mk, r, lo, h - 1);
      rem := FinishInner(pid, ts, t, marked, done, r, lo, h);
    }

    /** Drops the entries whose child page was cleared. */
    method FinishInner(pid: nat, ts: int, ghost t: Shape, ghost marked: seq<KV>, ghost done: seq<Shape>,
                       ghost r: multiset<nat>,
                       ghost lo: int, ghost h: nat) returns (rem: nat)
      requires t.Inner? && t.pid == pid < |pages| && Wf(t, m, lo, h) && LastKey(marked) == MaxOf(t)
      requires Allocated(LoopFoot(pid, done, [], r)) && LoopState(mem, m, pid, marked, done, [], MaxOf(t))
      requires CompactedKids(t.kids, ts) == done + CompactedKids([], ts)
      modifies `mem, pages[pid]
      ensures Allocated(Foot(Compacted(t, ts)) + r) && Rep(mem, m, Compacted(t, ts))
      ensures rem > 0 && LeafKeys(Compacted(t, ts)) == KidsLeafKeys(done)
      ensures SamePages(old(mem), mem, r)
    {
      hide Holds, Rep, Wf, WfKids, Foot, KidsFoot, FreeList, Unused, Compacted, CompactedKids, Dead, LeafKeys,
           KidsLeafKeys, LoopState, LoopFoot;
      hide MaxOf, LoAfter, LastKey, Kept, RepKids;
      LoopEnd(mem, m, t, marked, done, r, ts, lo, h, free, nextPage);
      rem := CompactPage(pid, 1, Node(pid, false, marked), LoopFoot(pid, done, [], r));
      CompactedInner(old(mem), mem, m, t, done, r, ts, free, nextPage);
    }

    /** The loop over the children. */
    method CompactKids(pid: nat, N: nat, ts: int, ghost kids: seq<Shape>, ghost mk: int, ghost r: multiset<nat>,
                       ghost lo: int, ghost h: nat)
      returns (ghost marked: seq<KV>, ghost done: seq<Shape>)
      requires Allocated(LoopFoot(pid, [], kids, r)) && LoopState(mem, m, pid, [], [], kids, mk)
      requires N == |kids| > 0 && pid < |pages|
      requires WfKids(kids, m, lo, h) && lo >= 0 && LoAfter(kids, lo) == mk
      modifies `mem, `freePage, `free, `numPagesFree, `numLeafKeys, pages
      ensures Allocated(LoopFoot(pid, done, [], r)) && LoopState(mem, m, pid, marked, done, [], mk)
      ensures LastKey(marked) == mk && CompactedKids(kids, ts) == done + CompactedKids([], ts)
      ensures numLeafKeys == old(numLeafKeys) + KidsLeafKeys(done)
      ensures SamePages(old(mem), mem, r)
      decreases h, 3
    {
      hide Holds, WfKids, KidsFoot, FreeList, Unused, AllocOk, Linked, CompactedKids, KidsLeafKeys, LoopState, LoopFoot;
      hide MaxOf, LoAfter, LastKey;
      NoLeafKeys();
      ghost var rest, below := kids, lo;
      marked, done := [], [];
      var i := 0;
      while i < N
        invariant 0 <= i == |marked| <= N && N == i + |rest| && pid < |pages|
        invariant Allocated(LoopFoot(pid, done, rest, r)) && LoopState(mem, m, pid, marked, done, rest, mk)
        invariant WfKids(rest, m, below, h) && below >= 0
        invariant if rest == [] then LastKey(marked) == mk else LoAfter(rest, below) == mk
        invariant CompactedKids(kids, ts) == done + CompactedKids(rest, ts)
        invariant numLeafKeys == old(numLeafKeys) + KidsLeafKeys(done)
        invariant SamePages(old(mem), mem, r)
      {
        NextKid(rest, m, below, h);
        CompactedKidsStep(rest, ts);
        ghost var was := done;
        marked, done := CompactChild(pid, i, N, ts, marked, done, rest, mk, r, below, h);
        assert done + CompactedKids(rest[1..], ts) == was + CompactedKids(rest, ts);
        rest, below := rest[1..], MaxOf(rest[0]);
        i := i + 1;
      }
      assert rest == [];
    }

    /** Frees a dropped child and clears its entry in the parent. */
    method FreeChild(pid: nat, i: nat, child: nat, ghost x: Node, ghost y: Node, ghost used: multiset<nat>)
      requires Allocated(multiset{child} + used) && pid in used && pid != child && pid < |pages| && child < |pages|
      requires Holds(mem[pid], m, x) && i < |x.kvs| && Holds(mem[child], m, y) && y.pid == child
      modifies `mem, `freePage, `free, `numPagesFree, `numLeafKeys, pages[pid], pages[child]
      ensures Allocated(used) && mem == old(mem)[child := mem[child]][pid := mem[pid]]
      ensures Holds(mem[pid], m, x.(kvs := x.kvs[i := KV(x.kvs[i].key, 0)]))
      ensures numLeafKeys == old(numLeafKeys) - |y.kvs|
    {
      hide Holds, AllocOk;
      assert multiset{child} + used == used + multiset{child};
      var n := CountKeys(child, y, used + multiset{child});
      numLeafKeys := numLeafKeys - n;
      FreeNode(child, y, used);
      SetPtr(pid, i, 0, x, used);
    }

    /** Frees the compacted child `rest[0]`, none of whose values reaches `ts`. */
    method DropChild(pid: nat, i: nat, child: nat, ts: int, ghost was: Mem, ghost marked: seq<KV>,
                     ghost done: seq<Shape>,
                     ghost rest: seq<Shape>, ghost mk: int, ghost r: multiset<nat>, ghost lo: int, ghost h: nat)
      requires |rest| > 1 && Dead(rest[0], ts) && child == rest[0].pid && i == |marked| && pid < |pages|
      requires WfKids(rest, m, lo, h) && LoAfter(rest, lo) == mk
      requires Allocated(Foot(Compacted(rest[0], ts)) + LoopFoot(pid, done, rest[1..], r))
        && Rep(mem, m, Compacted(rest[0], ts))
      requires LoopState(was, m, pid, marked, done, rest, mk) && SamePages(was, mem, LoopFoot(pid, done, rest[1..], r))
      modifies `mem, `freePage, `free, `numPagesFree, `numLeafKeys, pages
      ensures Allocated(LoopFoot(pid, done, rest[1..], r))
      ensures LoopState(mem, m, pid, marked + [KV(MaxOf(rest[0]), 0)], done, rest[1..], mk)
      ensures numLeafKeys == old(numLeafKeys) - LeafKeys(Compacted(rest[0], ts))
      ensures SamePages(was, mem, r)
    {
      hide Holds, Rep, Wf, WfKids, Foot, KidsFoot, AllocOk, FreeList, Unused, Compacted, Dead, LeafKeys, KidsLeafKeys,
           LoopState, LoopFoot, MaxOf, LoAfter;
      ghost var c, ring := rest[0], LoopFoot(pid, done, rest[1..], r);
      DeadFoot(c, ts);
      FirstKid(rest, m, lo, h);
      LoopOpen(was, m, pid, marked, done, rest, mk, r);
      LoopHas(pid, done, rest[1..], r);
      RepHolds(mem, m, Compacted(c, ts));
      UsedRange(Foot(Compacted(c, ts)) + ring);
      LoopApart(pid, child, done, rest[1..], r, free, nextPage);
      ghost var x := Node(pid, false, marked + [KV(MaxOf(c), child)] + Entries(rest[1..]));
      assert pages[pid] in pages && pages[child] in pages;
      UnlinkAt(marked, KV(MaxOf(c), child), Entries(rest[1..]));
      FreeChild(pid, i, child, x, NodeOf(Compacted(c, ts)), ring);
      LoopDrop(was, mem, m, pid, marked, done, rest, mk, r);
    }

    /** One round of the loop over the children. */
    method CompactChild(pid: nat, i: nat, N: nat, ts: int, ghost marked: seq<KV>, ghost done: seq<Shape>,
                        ghost rest: seq<Shape>,
                        ghost mk: int, ghost r: multiset<nat>, ghost lo: int, ghost h: nat)
      returns (ghost marked': seq<KV>, ghost done': seq<Shape>)
      requires Allocated(LoopFoot(pid, done, rest, r)) && LoopState(mem, m, pid, marked, done, rest, mk)
      requires rest != [] && i == |marked| && N == i + |rest| && pid < |pages|
      requires WfKids(rest, m, lo, h) && lo >= 0 && LoAfter(rest, lo) == mk
      modifies `mem, `freePage, `free, `numPagesFree, `numLeafKeys, pages
      ensures Allocated(LoopFoot(pid, done', rest[1..], r)) && LoopState(mem, m, pid, marked', done', rest[1..], mk)
      ensures |marked'| == i + 1 && LastKey(marked') == MaxOf(rest[0])
      ensures done' == done + if |rest| > 1 && Dead(rest[0], ts) then [] else [Compacted(rest[0], ts)]
      ensures numLeafKeys == old(numLeafKeys) + KidsLeafKeys(done') - KidsLeafKeys(done)
      ensures SamePages(old(mem), mem, r)
      decreases h, 2
    {
      hide Holds, Rep, Wf, WfKids, Foot, KidsFoot, Allocated, FreeList, Unused, Compacted, Dead, LeafKeys, KidsLeafKeys,
           LoopState, LoopFoot, MaxOf, LoAfter, LastKey;
      ghost var c, ring := rest[0], LoopFoot(pid, done, rest[1..], r);
      UsedRange(LoopFoot(pid, done, rest, r));
      PageWords(LoopFoot(pid, done, rest, r), pid);
      LoopOpen(mem, m, pid, marked, done, rest, mk, r);
      FirstKid(rest, m, lo, h);
      LoopHas(pid, done, rest[1..], r);
      var child: int := pages[pid][ValOffset(i)];
      var rem := CompactRec(child, ts, c, ring, lo, h);
      if rem == 0 && i < N - 1 {
        DropChild(pid, i, child, ts, old(mem), marked, done, rest, mk, r, lo, h);
        marked', done' := marked + [KV(MaxOf(c), 0)], done;
        LastKeyAppend(marked, KV(MaxOf(c), 0));
      } else {
        CompactedWf(c, m, lo, h, ts);
        RepHolds(mem, m, Compacted(c, ts));
        UsedRange(Foot(Compacted(c, ts)) + ring);
        UsedPage(Foot(Compacted(c, ts)) + ring, free, nextPage, c.pid);
        LoopKeep(old(mem), mem, m, pid, marked, done, rest, mk, Compacted(c, ts), r);
        marked', done' := marked + [KV(MaxOf(c), c.pid)], done + [Compacted(c, ts)];
        LastKeyAppend(marked, KV(MaxOf(c), c.pid));
        KidsLeafKeysConcat(done, [Compacted(c, ts)]);
        KidsLeafKeysOne(Compacted(c, ts));
      }
    }

    // ---- Iteration ----

    /** Offers every pair with a value to `f`, leaf by leaf, and stores what it returns if that is not zero. */
    method IterateKV(f: (int, int) -> int)
      requires Valid()
      modifies `mem, `tree, pages
      ensures Valid() && tree == Mapped(old(tree), f)
      ensures Contents(tree) == MappedMap(Contents(old(tree)), f)
      ensures var c, c' := Contents(old(tree)), Contents(tree);
        && c'.Keys == c.Keys
        && (forall k :: k in c && c[k] != 0 && f(k, c[k]) != 0 ==> c'[k] == f(k, c[k]))
        && (forall k :: k in c && (c[k] == 0 || f(k, c[k]) == 0) ==> c'[k] == c[k])
    {
      hide Holds, AllocOk, Rep, MaxOf, Contents, LeafKeys, Foot, Wf, WfTop, Mapped, MappedMap;
      assert Foot(tree) + multiset{} == Foot(tree);
      RepHolds(mem, m, tree);
      ghost var t := tree;
      IterateRec(1, f, t, multiset{}, 0, depth);
      MappedShape(t, f, m, 0, depth);
      MappedContents(t, f);
      MappedValues(Contents(t), f);
      MappedInner(t, f);
      tree := Mapped(t, f);
    }

    method VisitPage(pid: nat, f: (int, int) -> int, ghost x: Node, ghost used: multiset<nat>)
      requires Allocated(used) && pid in used && pid < |pages| && Holds(mem[pid], m, x)
      modifies `mem, pages[pid]
      ensures Allocated(used) && mem == old(mem)[pid := mem[pid]]
      ensures Holds(mem[pid], m, x.(kvs := VisitedAll(f, x.kvs)))
    {
      var n := pages[pid];
      BTreeNode.VisitVals(n, m, f, x);
      AllocUpdate(mem, m, freePage, free, nextPage, used, pid, n[..]);
      mem := mem[pid := n[..]];
    }

    method IterateRec(pid: nat, f: (int, int) -> int, ghost t: Shape, ghost r: multiset<nat>, ghost lo: int,
                      ghost h: nat)
      requires Allocated(Foot(t) + r) && Rep(mem, m, t) && t.pid == pid < |pages| && Wf(t, m, lo, h) && lo >= 0
      modifies `mem, pages
      ensures Allocated(Foot(t) + r) && Rep(mem, m, Mapped(t, f))
      ensures SamePages(old(mem), mem, r)
      decreases h, 1
    {
      var leaf := HasLeafBit(pid, NodeOf(t), Foot(t) + r);
      if leaf {
        VisitLeaf(pid, f, t, r);
      } else {
        IterateInner(pid, f, t, r, lo, h);
      }
    }

    method VisitLeaf(pid: nat, f: (int, int) -> int, ghost t: Shape, ghost r: multiset<nat>)
      requires Allocated(Foot(t) + r) && Rep(mem, m, t) && t.Leaf? && t.pid == pid < |pages|
      modifies `mem, pages[pid]
      ensures Allocated(Foot(t) + r) && Rep(mem, m, Mapped(t, f))
      ensures SamePages(old(mem), mem, r)
    {
      hide Holds, FreeList, Unused;
      Apart(Foot(t), r, free, nextPage);
      VisitPage(pid, f, NodeOf(t), Foot(t) + r);
    }

    method IterateInner(pid: nat, f: (int, int) -> int, ghost t: Shape, ghost r: multiset<nat>, ghost lo: int,
                        ghost h: nat)
      requires Allocated(Foot(t) + r) && Rep(mem, m, t) && t.Inner? && t.pid == pid < |pages| && Wf(t, m, lo, h)
        && lo >= 0
      modifies `mem, pages
      ensures Allocated(Foot(t) + r) && Rep(mem, m, Mapped(t, f))
      ensures SamePages(old(mem), mem, r)
      decreases h, 0
    {
      hide Holds, WfKids, Wf, Rep, Foot, KidsFoot, AllocOk, Linked, LoopState, LoopFoot, MappedKids, Mapped, Entries;
      hide MaxOf;
      WfInner(t, m, lo, h);
      LoopStart(mem, m, t, r, MaxOf(t));
      NoEntries();
      ghost var rest, below, done: seq<Shape> := t.kids, lo, [];
      var i := 0;
      while i < m
        invariant i + |rest| == |t.kids| < m && pid < |pages|
        invariant Allocated(LoopFoot(pid, done, rest, r)) && LoopState(mem, m, pid, Entries(done), done, rest, MaxOf(t))
        invariant LoopFoot(pid, done, rest, r) == Foot(t) + r
        invariant WfKids(rest, m, below, h - 1) && below >= 0 && i == |Entries(done)|
        invariant MappedKids(t.kids, f) == done + MappedKids(rest, f)
        invariant SamePages(old(mem), mem, r)
        decreases m - i
      {
        var child := ChildAt(pid, i, Entries(done), done, rest, MaxOf(t), r, below, h - 1);
        if child == 0 {
          break;
        }
        ghost var was, c := mem, rest[0];
        LoopOpen(mem, m, pid, Entries(done), done, rest, MaxOf(t), r);
        LoopHas(pid, done, rest[1..], r);
        FirstKid(rest, m, below, h - 1);
        NextKid(rest, m, below, h - 1);
        IterateRec(child, f, c, LoopFoot(pid, done, rest[1..], r), below, h - 1);
        MappedShape(c, f, m, below, h - 1);
        LoopKeep(was, mem, m, pid, Entries(done), done, rest, MaxOf(t), Mapped(c, f), r);
        MappedStep(rest, done, f);
        EntriesAppend(done, Mapped(c, f));
        rest, below, done := rest[1..], MaxOf(c), done + [Mapped(c, f)];
        i := i + 1;
      }
      IterateEnd(mem, m, t, done, rest, f);
    }

    /** The child in slot `i`, or zero when the slot has no key. */
    method ChildAt(pid: nat, i: nat, ghost marked: seq<KV>, ghost done: seq<Shape>, ghost rest: seq<Shape>,
                   ghost mk: int,
                   ghost r: multiset<nat>, ghost lo: int, ghost h: nat) returns (child: nat)
      requires Allocated(LoopFoot(pid, done, rest, r)) && LoopState(mem, m, pid, marked, done, rest, mk)
      requires i == |marked| < m && i + |rest| < m && pid < |pages| && WfKids(rest, m, lo, h) && lo >= 0
      ensures if rest == [] then child == 0 else child == rest[0].pid >= 1 && child < |pages|
    {
      hide LoopState, LoopFoot, WfKids, Entries, MaxOf, AllocOk;
      ChildWords(pid, i, marked, done, rest, mk, r, lo, h);
      var n := pages[pid];
      assert n[..] == mem[pid];
      assert n[..][2 * i] == n[2 * i] && n[..][2 * i + 1] == n[2 * i + 1];
      if n[KeyOffset(i)] == 0 {
        return 0;
      }
      child := n[ValOffset(i)];
    }

    /** The words of slot `i`: the next child's largest key and its page, or zero for no child. */
    lemma ChildWords(pid: nat, i: nat, marked: seq<KV>, done: seq<Shape>, rest: seq<Shape>, mk: int,
                     r: multiset<nat>, lo: int, h: nat)
      requires Allocated(LoopFoot(pid, done, rest, r)) && LoopState(mem, m, pid, marked, done, rest, mk)
      requires i == |marked| < m && i + |rest| < m && pid < |pages| && WfKids(rest, m, lo, h) && lo >= 0
      ensures |mem[pid]| == 2 * m + 2 && (rest == [] ==> mem[pid][2 * i] == 0)
      ensures rest != [] ==> mem[pid][2 * i] != 0 && mem[pid][2 * i + 1] == rest[0].pid && 1 <= rest[0].pid < |pages|
    {
      hide WfKids, MaxOf, AllocOk, LoopFoot;
      if rest != [] {
        hide LoopState;
        assert LoopFoot(pid, done, rest, r) + multiset(free) == PageRange(nextPage) && nextPage <= |mem| by {
          UsedRange(LoopFoot(pid, done, rest, r));
        }
        LoopOpen(mem, m, pid, marked, done, rest, mk, r);
        RepHolds(mem, m, rest[0]);
        UsedPage(LoopFoot(pid, done, rest, r), free, nextPage, rest[0].pid);
        NextKid(rest, m, lo, h);
        var kv := KV(MaxOf(rest[0]), rest[0].pid);
        assert (marked + [kv] + Entries(rest[1..]))[i] == kv;
      }
    }

    // ---- Reloading ----

    /** Takes over stored pages, whose words are `words`; nothing else is known yet. */
    constructor Over(maxKeys: nat, stored: seq<array<int>>, ghost words: Mem, ghost t: Shape, ghost h: nat,
                     ghost fr: seq<nat>)
      requires GoodMax(maxKeys) && |words| == |stored|
      requires forall i, j :: 0 <= i < j < |stored| ==> stored[i] != stored[j]
      requires forall i :: 0 <= i < |stored| ==> stored[i].Length == 2 * maxKeys + 2 && stored[i][..] == words[i]
      ensures Linked() && m == maxKeys && pages == stored && mem == words && tree == t && depth == h && free == fr
      ensures nextPage == 1 && freePage == 0 && numLeafKeys == 0 && numPagesFree == 0
    {
      m := maxKeys;
      pages, mem := stored, words;
      nextPage, freePage, free, numLeafKeys, numPagesFree := 1, 0, fr, 0, 0;
      tree, depth := t, h;
    }

    /**
     * Opens stored data: whole pages and `part` words of one more. A tree is recovered, and pages
     * that never held one get a root. It panics, for which it returns nothing, if page 1 is not
     * whole, and if the page after the last one of the tree is the partial one.
     */
    static method Open(maxKeys: nat, stored: seq<array<int>>, part: nat, ghost words: Mem, ghost t: Shape,
                       ghost h: nat, ghost fr: seq<nat>, ghost next: nat) returns (r: Tree?)
      requires GoodMax(maxKeys) && |words| == |stored| && part < 2 * maxKeys + 2
      requires forall i, j :: 0 <= i < j < |stored| ==> stored[i] != stored[j]
      requires forall i :: 0 <= i < |stored| ==> stored[i].Length == 2 * maxKeys + 2 && stored[i][..] == words[i]
      requires Blank(words, maxKeys) || (Stored(words, maxKeys, t, h, fr, next) && MaxOf(t) == ABSOLUTE_MAX)
      modifies stored
      ensures r == null <==> |stored| < 2 || (!Blank(words, maxKeys) && part > 0 && next == |stored|)
      ensures r != null ==> fresh(r) && r.Valid() && r.m == maxKeys
      ensures r != null ==> forall i :: 0 <= i < |r.pages| ==> r.pages[i] in stored || fresh(r.pages[i])
      ensures r != null && Blank(words, maxKeys) ==> Contents(r.tree) == map[ABSOLUTE_MAX := 0]
      ensures r != null && !Blank(words, maxKeys) ==>
        && r.tree == t && r.depth == h && r.pages == stored && r.mem == words
        && r.nextPage == next && r.freePage == HeadOf(fr) && r.numPagesFree == |fr| && r.numLeafKeys == LeafKeys(t)
    {
      if |stored| < 2 {
        return null;
      }
      r := new Tree.Over(maxKeys, stored, words, t, h, fr);
      assert stored[1][2 * maxKeys] == words[1][2 * maxKeys];
      if PageID(stored[1], maxKeys) == 0 {
        if !Blank(words, maxKeys) {
          StoredNotBlank(words, maxKeys, t, h, fr, next);
          assert false;
        }
        r.free, r.tree, r.depth := [], Inner(1, []), 1;
        r.InitRootNode();
      } else {
        var ok := r.Reinit(part, next);
        if !ok {
          r := null;
        }
      }
    }

    /** What a live tree leaves behind when it is closed. */
    lemma ValidStored()
      requires Valid()
      ensures Stored(mem, m, tree, depth, free, nextPage) && freePage == HeadOf(free) && !Blank(mem, m)
      ensures numPagesFree == |free| && numLeafKeys == LeafKeys(tree)
    {
      hide Rep, Wf, Foot;
      StoredNotBlank(mem, m, tree, depth, free, nextPage);
    }

    /** Rebuilds the fields from the pages: the first page without a number bounds the pages in use; the
        free list starts at the page that is not in the tree and that no free page points to. It fails
        if it has to read the partial page to find that bound. */
    method Reinit(part: nat, ghost next: nat) returns (ok: bool)
      requires Linked() && Stored(mem, m, tree, depth, free, next)
      requires freePage == 0 && numLeafKeys == 0 && numPagesFree == 0
      modifies `nextPage, `freePage, `numLeafKeys, `numPagesFree
      ensures ok <==> !(part > 0 && next == |pages|)
      ensures ok ==> nextPage == next && freePage == HeadOf(free)
      ensures ok ==> numPagesFree == |free| && numLeafKeys == LeafKeys(tree)
    {
      hide Holds, Rep, Wf, Foot, FreeList, Unused;
      PageIds(mem, m, tree, depth, free, next);
      assert 1 <= next <= |mem| by { StoredNext(mem, m, tree, depth, free, next); }
      nextPage := 1;
      while nextPage < |pages| || (nextPage == |pages| && part > 0)
        modifies `nextPage
        invariant 1 <= nextPage <= next
        decreases |pages| - nextPage
      {
        if nextPage == |pages| {
          return false;
        }
        assert pages[nextPage][2 * m] == mem[nextPage][2 * m];
        if PageID(pages[nextPage], m) == 0 {
          break;
        }
        nextPage := nextPage + 1;
      }
      assert nextPage == next;
      var maxPageId := nextPage - 1;
      var tailPages := new bool[maxPageId](_ => false);
      MarkTree(tailPages, next);
      FindHead(tailPages, next);
      ok := true;
    }

    method MarkTree(tailPages: array<bool>, ghost next: nat)
      requires Linked() && Stored(mem, m, tree, depth, free, next) && tailPages.Length == next - 1
      requires forall i :: 0 <= i < tailPages.Length ==> !tailPages[i]
      requires numLeafKeys == 0
      modifies `numLeafKeys, tailPages
      ensures numLeafKeys == LeafKeys(tree)
      ensures forall i :: 0 <= i < tailPages.Length ==> (tailPages[i] <==> i + 1 in Foot(tree))
    {
      hide Holds, Rep, Wf, Foot, FreeList, Unused;
      RootInMem(mem, m, tree);
      forall p: nat | p in Foot(tree)
        ensures 1 <= p < next
      {
        UsedPage(Foot(tree), free, next, p);
      }
      MarkRec(1, tailPages, tree, 0, depth, next);
    }

    lemma MarkedKids(t: Shape, lo: int, h: nat, next: nat)
      requires t.Inner? && Wf(t, m, lo, h) && forall p: nat :: p in Foot(t) ==> 1 <= p < next
      ensures |t.kids| < m && h > 0 && LeafKeys(t) == KidsLeafKeys(t.kids)
      ensures forall j :: 0 <= j < |t.kids| ==> t.kids[j].pid > 0
      ensures forall p: nat :: p in Foot(t) <==> p == t.pid || p in KidsFoot(t.kids)
    {
      WfInner(t, m, lo, h);
      InnerFacts(t.pid, t.kids, m, lo, h);
      KidsFootParts(t);
      forall j | 0 <= j < |t.kids|
        ensures t.kids[j].pid > 0
      {
        KidsUpTo(t, j);
      }
    }

    method MarkRec(pid: nat, tailPages: array<bool>, ghost t: Shape, ghost lo: int, ghost h: nat, ghost next: nat)
      requires Linked() && Rep(mem, m, t) && t.pid == pid < |pages| && Wf(t, m, lo, h) && lo >= 0
      requires tailPages.Length == next - 1 && forall p: nat :: p in Foot(t) ==> 1 <= p < next
      modifies `numLeafKeys, tailPages
      ensures numLeafKeys == old(numLeafKeys) + LeafKeys(t)
      ensures forall i :: 0 <= i < tailPages.Length ==> tailPages[i] == (old(tailPages[i]) || i + 1 in Foot(t))
      decreases h
    {
      hide Holds, Linked, Wf, WfKids, WfTop, MaxOf, Foot, KidsFoot, KidsLeafKeys, LeafKeys;
      RepHolds(mem, m, t);
      var leaf, n := ReadMeta(pid, NodeOf(t));
      tailPages[pid - 1] := true;
      if leaf {
        LeafSize(t);
        numLeafKeys := numLeafKeys + n;
        return;
      }
      NothingBefore(t.kids);
      MarkedKids(t, lo, h, next);
      var i := 0;
      while i < m
        invariant 0 <= i <= |t.kids| < m
        invariant numLeafKeys == old(numLeafKeys) + KidsLeafKeys(t.kids[..i])
        invariant forall j :: 0 <= j < tailPages.Length ==>
          tailPages[j] == (old(tailPages[j]) || j + 1 == pid || j + 1 in KidsFoot(t.kids[..i]))
      {
        var child := KidAt(pid, i, t, lo, h);
        if child == 0 {
          break;
        }
        ghost var lo' := KidLo(mem, t, m, lo, h, i);
        KidsUpTo(t, i);
        MarkRec(child, tailPages, t.kids[i], lo', h - 1, next);
        i := i + 1;
      }
      assert t.kids[..|t.kids|] == t.kids;
    }

    method KidAt(pid: nat, i: nat, ghost t: Shape, ghost lo: int, ghost h: nat) returns (child: nat)
      requires Linked() && Rep(mem, m, t) && t.Inner? && t.pid == pid < |pages| && Wf(t, m, lo, h) && lo >= 0
        && i <= |t.kids|
      requires forall j :: 0 <= j < |t.kids| ==> t.kids[j].pid > 0
      ensures if i == |t.kids| then child == 0 else child == t.kids[i].pid > 0 && child < |pages|
    {
      hide WfKids, WfTop, MaxOf;
      WfInner(t, m, lo, h);
      EntriesSorted(t.kids, m, lo, h - 1);
      var n := pages[pid];
      assert n[..][2 * i] == if i == |t.kids| then 0 else Entries(t.kids)[i].key;
      if n[KeyOffset(i)] == 0 {
        return 0;
      }
      assert n[..][2 * i + 1] == Entries(t.kids)[i].val;
      child := n[ValOffset(i)];
      assert Rep(mem, m, t.kids[i]);
    }

    /** Counts the free pages and finds the one that none of them points to. */
    method FindHead(tailPages: array<bool>, ghost next: nat)
      requires Linked() && Stored(mem, m, tree, depth, free, next) && tailPages.Length == next - 1
      requires forall i :: 0 <= i < tailPages.Length ==> (tailPages[i] <==> i + 1 in Foot(tree))
      requires freePage == 0 && numPagesFree == 0
      modifies `freePage, `numPagesFree, tailPages
      ensures freePage == HeadOf(free) && numPagesFree == |free|
    {
      hide Holds, Rep, Wf, Foot, FreeList, Unused, PageRange;
      var pointed := CollectPointed(tailPages, next);
      MarkPointed(tailPages, pointed, next);
      forall i | 0 <= i < tailPages.Length
        ensures tailPages[i] <==> i + 1 != HeadOf(free)
      {
        var p := i + 1;
        InTreeOrFree(Foot(tree), free, next, p);
        if p in free {
          OnlyHead(mem, m, free, Foot(tree), next, p);
        } else if free != [] {
          FreeDistinct(Foot(tree), free, next);
        }
      }
      HeadInRange(Foot(tree), free, next);
      var i := 0;
      while i < tailPages.Length
        invariant 0 <= i <= tailPages.Length && freePage == 0
        invariant HeadOf(free) == 0 || i < HeadOf(free)
      {
        if !tailPages[i] {
          freePage := i + 1;
          break;
        }
        i := i + 1;
      }
    }

    method WordZero(pid: nat) returns (w: int)
      requires Linked() && pid < |pages|
      ensures w == mem[pid][0]
    {
      var n := pages[pid];
      assert n[..][0] == mem[pid][0];
      w := n[0];
    }

    /** Counts page `i + 1` and lists the page that it points to, if it is free. */
    method CollectPage(i: nat, inTree: bool, listed: seq<int>, ghost next: nat) returns (pointed: seq<int>)
      requires Linked() && Stored(mem, m, tree, depth, free, next) && i + 1 < next <= |mem|
      requires inTree <==> i + 1 in Foot(tree)
      requires numPagesFree == |FreeBelow(free, i + 1)| && Lists(mem, free, i + 1, listed)
      modifies `numPagesFree
      ensures numPagesFree == |FreeBelow(free, i + 2)| && Lists(mem, free, i + 2, pointed)
    {
      hide Rep, Wf, Foot, FreeList, Unused, PageRange, FreeBelow, Lists;
      InTreeOrFree(Foot(tree), free, next, i + 1);
      FreeBelowStep(free, i + 1);
      ListsStep(mem, free, i + 1, listed);
      pointed := listed;
      if !inTree {
        var nextPageId := WordZero(i + 1);
        pointed := if nextPageId != 0 then pointed + [nextPageId] else pointed;
        numPagesFree := numPagesFree + 1;
      }
    }

    /** Counts the pages outside the tree and lists the pages that they point to. */
    method CollectPointed(tailPages: array<bool>, ghost next: nat) returns (pointed: seq<int>)
      requires Linked() && Stored(mem, m, tree, depth, free, next) && tailPages.Length == next - 1
      requires forall i :: 0 <= i < tailPages.Length ==> (tailPages[i] <==> i + 1 in Foot(tree))
      requires numPagesFree == 0
      modifies `numPagesFree
      ensures numPagesFree == |free|
      ensures forall p :: p in pointed <==> p != 0 && Pointed(mem, free, p)
    {
      hide Holds, Rep, Wf, Foot, FreeList, Unused, PageRange;
      StoredNext(mem, m, tree, depth, free, next);
      FreeDistinct(Foot(tree), free, next);
      hide FreeBelow, Lists, Pointed, Stored, FreshPages;
      FreeBelowOne(free);
      ListsNothing(mem, free);
      pointed := [];
      var i := 0;
      while i < tailPages.Length
        modifies `numPagesFree
        invariant 0 <= i <= tailPages.Length && numPagesFree == |FreeBelow(free, i + 1)|
        invariant Lists(mem, free, i + 1, pointed)
      {
        pointed := CollectPage(i, tailPages[i], pointed, next);
        i := i + 1;
      }
      DistinctCount(free, next);
      ListsAll(mem, free, next, pointed);
    }

    /** Marks the pages that some free page points to. */
    method MarkPointed(tailPages: array<bool>, pointed: seq<int>, ghost next: nat)
      requires Linked() && Stored(mem, m, tree, depth, free, next) && tailPages.Length == next - 1
      requires forall i :: 0 <= i < tailPages.Length ==> (tailPages[i] <==> i + 1 in Foot(tree))
      requires forall p :: p in pointed <==> p != 0 && Pointed(mem, free, p)
      modifies tailPages
      ensures forall i :: 0 <= i < tailPages.Length ==>
        (tailPages[i] <==> i + 1 in Foot(tree) || Pointed(mem, free, i + 1))
    {
      hide Holds, Rep, Wf, Foot, FreeList, Unused, PageRange;
      PointedInRange(mem, m, free, Foot(tree), next);
      var j := 0;
      while j < |pointed|
        invariant 0 <= j <= |pointed|
        invariant forall i :: 0 <= i < tailPages.Length ==>
          (tailPages[i] <==> i + 1 in Foot(tree) || i + 1 in pointed[..j])
      {
        assert pointed[j] in pointed;
        assert pointed[..j + 1] == pointed[..j] + [pointed[j]];
        tailPages[pointed[j] - 1] := true;
        j := j + 1;
      }
      assert pointed[..j] == pointed;
    }
  }
}
