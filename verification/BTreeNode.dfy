/** One page of the B+ tree: an array of 64-bit words holding sorted key/value pairs, then the page's
    number, then a word with the leaf bit on top and the number of keys in its low half.  The
    operations work in place; `Holds` ties the words to the node they stand for. */
module BTreeNode {
  import Search

  const TWO32 := 0x1_0000_0000
  const TWO56 := 0x100_0000_0000_0000
  const BIT_LEAF := 0x8000_0000_0000_0000

  datatype KV = KV(key: int, val: int)

  datatype Node = Node(pid: nat, leaf: bool, kvs: seq<KV>)

  /** Sizes for which an index into a page fits the int16 that the search returns. */
  predicate GoodMax(m: int) {
    3 <= m < Search.TWO16 / 2
  }

  function KeyOffset(i: int): int { 2 * i }
  function ValOffset(i: int): int { 2 * i + 1 }

  function Meta(leaf: bool, numKeys: nat): int {
    (if leaf then BIT_LEAF else 0) + numKeys
  }

  /** The words `w` of a page of capacity `m` encode node `x`; everything unused is zero. */
  ghost predicate Holds(w: seq<int>, m: int, x: Node) {
    && |w| == 2 * m + 2
    && |x.kvs| <= m
    && w[2 * m] == x.pid
    && w[2 * m + 1] == Meta(x.leaf, |x.kvs|)
    && (forall i :: 0 <= i < |x.kvs| ==> w[2 * i] == x.kvs[i].key && w[2 * i + 1] == x.kvs[i].val)
    && (forall j :: 2 * |x.kvs| <= j < 2 * m ==> w[j] == 0)
  }

  // ---- Key/value sequences ----

  ghost predicate Sorted(kvs: seq<KV>) {
    forall i, j :: 0 <= i < j < |kvs| ==> kvs[i].key < kvs[j].key
  }

  ghost predicate Positive(kvs: seq<KV>) {
    forall i :: 0 <= i < |kvs| ==> kvs[i].key > 0
  }

  /** How many leading keys are below `k`. */
  ghost function Rank(kvs: seq<KV>, k: int): (r: nat)
    ensures r <= |kvs|
    ensures forall i :: 0 <= i < r ==> kvs[i].key < k
    ensures r < |kvs| ==> kvs[r].key >= k
  {
    if kvs == [] || kvs[0].key >= k then 0 else
      var r := Rank(kvs[1..], k);
      assert forall i :: 0 < i <= r ==> kvs[i] == kvs[1..][i - 1];
      1 + r
  }

  lemma {:induction false} RankIsFirst(kvs: seq<KV>, k: int, r: nat)
    requires r <= |kvs|
    requires forall i :: 0 <= i < r ==> kvs[i].key < k
    requires r < |kvs| ==> kvs[r].key >= k
    ensures r == Rank(kvs, k)
  {
    if kvs != [] && kvs[0].key < k {
      assert forall i :: 0 <= i < |kvs| - 1 ==> kvs[1..][i] == kvs[i + 1];
      RankIsFirst(kvs[1..], k, r - 1);
    }
  }

  ghost predicate HasKey(kvs: seq<KV>, k: int) {
    var r := Rank(kvs, k);
    r < |kvs| && kvs[r].key == k
  }

  /** The pairs after setting `k` to `v` in place or in order. */
  ghost function Put(kvs: seq<KV>, k: int, v: int): seq<KV> {
    var r := Rank(kvs, k);
    if HasKey(kvs, k) then kvs[r := KV(k, v)] else kvs[..r] + [KV(k, v)] + kvs[r..]
  }

  /** After a split the parent sets the lower half's maximum, a new key, and then redirects the old
      key, still the maximum of the upper half. */
  /** What `Put` does, once it is known where the key belongs. */
  lemma PutAt(kvs: seq<KV>, k: int, v: int, r: nat)
    requires Rank(kvs, k) == r
    ensures HasKey(kvs, k) <==> r < |kvs| && kvs[r].key == k
    ensures Put(kvs, k, v) == if HasKey(kvs, k) then kvs[r := KV(k, v)] else kvs[..r] + [KV(k, v)] + kvs[r..]
  {
  }

  /** The pairs that compaction keeps: those with a value of at least `lo`, and the maximum key. */
  ghost function Kept(kvs: seq<KV>, lo: int, mk: int): (r: seq<KV>)
    ensures |r| <= |kvs|
  {
    if kvs == [] then [] else
      var last := kvs[|kvs| - 1];
      var rest := Kept(kvs[..|kvs| - 1], lo, mk);
      if last.val < lo && last.key < mk then rest else rest + [last]
  }

  // ---- Reading a page ----

  function NumKeys(n: array<int>, m: int): int
    requires n.Length == 2 * m + 2 && m >= 0
    reads n
  {
    n[ValOffset(m)] % TWO32
  }

  function PageID(n: array<int>, m: int): int
    requires n.Length == 2 * m + 2 && m >= 0
    reads n
  {
    n[KeyOffset(m)]
  }

  function Bits(n: array<int>, m: int): int
    requires n.Length == 2 * m + 2 && m >= 0
    reads n
  {
    n[ValOffset(m)] / TWO56 * TWO56
  }

  function IsLeaf(n: array<int>, m: int): bool
    requires n.Length == 2 * m + 2 && m >= 0
    reads n
  {
    Bits(n, m) / BIT_LEAF % 2 > 0
  }

  function IsFull(n: array<int>, m: int): bool
    requires n.Length == 2 * m + 2 && m >= 0
    reads n
  {
    NumKeys(n, m) == m
  }

  lemma MetaReads(n: array<int>, m: int, x: Node)
    requires GoodMax(m) && n.Length == 2 * m + 2 && Holds(n[..], m, x)
    ensures NumKeys(n, m) == |x.kvs|
    ensures PageID(n, m) == x.pid
    ensures Bits(n, m) == Meta(x.leaf, 0)
    ensures IsLeaf(n, m) == x.leaf
  {
    assert n[..][2 * m + 1] == n[ValOffset(m)] == Meta(x.leaf, |x.kvs|);
    assert n[..][2 * m] == n[KeyOffset(m)];
  }

  // ---- In-place operations ----

  method ZeroOut(n: array<int>, lo: nat, hi: nat)
    requires lo <= hi <= n.Length
    modifies n
    ensures forall j :: 0 <= j < n.Length ==> n[j] == if lo <= j < hi then 0 else old(n[j])
  {
    for i := lo to hi
      invariant forall j :: 0 <= j < n.Length ==> n[j] == if lo <= j < i then 0 else old(n[j])
    {
      n[i] := 0;
    }
  }

  /** Replaces the low half of the meta word. */
  method SetNumKeys(n: array<int>, m: int, num: nat)
    requires n.Length == 2 * m + 2 && m >= 0 && num < TWO32
    modifies n
    ensures n[2 * m + 1] == old(n[2 * m + 1]) / TWO32 * TWO32 + num
    ensures forall j :: 0 <= j < 2 * m + 1 ==> n[j] == old(n[j])
  {
    var idx := ValOffset(m);
    var val := n[idx];
    n[idx] := val / TWO32 * TWO32 + num;
  }

  /** Replaces the high half of the meta word; `b` has no bits in the low half. */
  method SetBit(n: array<int>, m: int, b: nat)
    requires n.Length == 2 * m + 2 && m >= 0 && b % TWO32 == 0
    modifies n
    ensures n[2 * m + 1] == old(n[2 * m + 1]) % TWO32 + b
    ensures forall j :: 0 <= j < 2 * m + 1 ==> n[j] == old(n[j])
  {
    var vo := ValOffset(m);
    n[vo] := n[vo] % TWO32 + b;
  }

  /** Copies the words of `src[from..to]` to `at`; source and destination may overlap. */
  method CopyWithin(n: array<int>, at: nat, from: nat, to: nat)
    requires from <= to <= n.Length && at + (to - from) <= n.Length
    modifies n
    ensures forall j :: 0 <= j < n.Length ==>
      n[j] == if at <= j < at + (to - from) then old(n[from + (j - at)]) else old(n[j])
  {
    forall j | 0 <= j < to - from {
      n[at + j] := n[from + j];
    }
  }

  /** Shifts the pairs from `lo` on one slot to the right. */
  method MoveRight(n: array<int>, m: int, lo: nat)
    requires n.Length == 2 * m + 2 && m >= 0 && lo <= NumKeys(n, m) < m
    modifies n
    ensures forall j :: 0 <= j < n.Length ==>
      n[j] == if 2 * lo + 2 <= j < 2 * old(NumKeys(n, m)) + 2 then old(n[j - 2]) else old(n[j])
  {
    var hi := NumKeys(n, m);
    CopyWithin(n, KeyOffset(lo + 1), KeyOffset(lo), KeyOffset(hi));
  }

  /** The first slot with a key of at least `k`: a short linear scan, or the unrolled search. */
  method SearchKey(n: array<int>, m: int, k: int, ghost x: Node) returns (r: nat)
    requires GoodMax(m) && n.Length == 2 * m + 2 && Holds(n[..], m, x)
    ensures r == Rank(x.kvs, k)
  {
    MetaReads(n, m, x);
    var N := NumKeys(n, m);
    if N < 4 {
      var i := 0;
      while i < N
        invariant 0 <= i <= N
        invariant forall j :: 0 <= j < i ==> x.kvs[j].key < k
      {
        assert n[..][2 * i] == x.kvs[i].key;
        if n[KeyOffset(i)] >= k {
          RankIsFirst(x.kvs, k, i);
          return i;
        }
        i := i + 1;
      }
      RankIsFirst(x.kvs, k, N);
      return N;
    }
    r := SearchMany(n, m, k, x);
  }

  /** The unrolled search over the slots in use. */
  method SearchMany(n: array<int>, m: int, k: int, ghost x: Node) returns (r: nat)
    requires GoodMax(m) && n.Length == 2 * m + 2 && Holds(n[..], m, x)
    ensures r == Rank(x.kvs, k)
  {
    hide Holds, Search.SlotBelow, Search.ToInt16, Rank;
    MetaReads(n, m, x);
    AtMost(n[..], m, x);
    var N := NumKeys(n, m);
    var xs := n[..2 * N];
    KeySlots(n[..], m, x, xs);
    assert xs == n[..][..2 * N];
    var s := Search.Search(xs, k);
    ghost var slot: int :| Search.IsFirstAtLeast(xs, k, slot) && s == Search.ToInt16(slot);
    SlotIsRank(xs, k, x.kvs, slot);
    r := s;
  }

  lemma AtMost(w: seq<int>, m: int, x: Node)
    requires Holds(w, m, x)
    ensures |x.kvs| <= m
  {
  }

  /** The keys of a node are in the slots of the slice in use. */
  lemma KeySlots(w: seq<int>, m: int, x: Node, xs: seq<int>)
    requires GoodMax(m) && Holds(w, m, x) && xs == w[..2 * |x.kvs|]
    ensures |xs| == 2 * |x.kvs| && |x.kvs| < Search.TWO16 / 2
    ensures forall i :: 0 <= i < |x.kvs| ==> xs[2 * i] == x.kvs[i].key
  {
  }

  lemma SlotIsRank(xs: seq<int>, k: int, kvs: seq<KV>, slot: int)
    requires |xs| == 2 * |kvs| && |kvs| < Search.TWO16 / 2
    requires forall i :: 0 <= i < |kvs| ==> xs[2 * i] == kvs[i].key
    requires Search.IsFirstAtLeast(xs, k, slot)
    ensures 0 <= slot && slot == Rank(kvs, k) && Search.ToInt16(slot) == slot
  {
    hide Rank;
    forall j | 0 <= j < slot
      ensures kvs[j].key < k
    {
      assert Search.SlotBelow(xs, k, j);
      assert xs[2 * j] == kvs[j].key;
    }
    RankIsFirst(kvs, k, slot);
  }

  ghost function LastKey(kvs: seq<KV>): int {
    if kvs == [] then 0 else kvs[|kvs| - 1].key
  }

  /** The last key, or zero in an empty node. */
  method MaxKey(n: array<int>, m: int, ghost x: Node) returns (k: int)
    requires GoodMax(m) && n.Length == 2 * m + 2 && Holds(n[..], m, x)
    ensures k == LastKey(x.kvs)
  {
    MetaReads(n, m, x);
    var idx := NumKeys(n, m);
    if idx > 0 {
      idx := idx - 1;
      assert n[..][2 * idx] == x.kvs[idx].key;
    }
    k := n[KeyOffset(idx)];
  }

  method Get(n: array<int>, m: int, k: int, ghost x: Node) returns (v: int)
    requires GoodMax(m) && n.Length == 2 * m + 2 && Holds(n[..], m, x)
    ensures v == if HasKey(x.kvs, k) then x.kvs[Rank(x.kvs, k)].val else 0
  {
    MetaReads(n, m, x);
    var idx := SearchKey(n, m, k, x);
    if idx == NumKeys(n, m) {
      return 0;
    }
    assert n[..][2 * idx] == x.kvs[idx].key && n[..][2 * idx + 1] == x.kvs[idx].val;
    if n[KeyOffset(idx)] == k {
      return n[ValOffset(idx)];
    }
    v := 0;
  }

  /** Sets `k` to `v`.  A full node is accepted only for a key that it already has. */
  method Set(n: array<int>, m: int, k: int, v: int, ghost x: Node) returns (numAdded: nat)
    requires GoodMax(m) && n.Length == 2 * m + 2 && Holds(n[..], m, x)
    requires k > 0 && Positive(x.kvs)
    requires |x.kvs| < m || HasKey(x.kvs, k)
    modifies n
    ensures Holds(n[..], m, x.(kvs := Put(x.kvs, k, v)))
    ensures numAdded == if HasKey(x.kvs, k) then 0 else 1
  {
    hide Put, Holds, Positive;
    PutLength(x.kvs, k, v);
    ghost var w := n[..];
    var idx: nat;
    idx, numAdded := MakeRoom(n, m, k, x);
    n[KeyOffset(idx)] := k;
    n[ValOffset(idx)] := v;
    SetEncodes(w, n[..], m, k, v, x, idx);
  }

  /** The slot for `k`, after the pairs from there on moved to the right if `k` is new. */
  method MakeRoom(n: array<int>, m: int, k: int, ghost x: Node) returns (idx: nat, numAdded: nat)
    requires GoodMax(m) && n.Length == 2 * m + 2 && Holds(n[..], m, x)
    requires k > 0 && Positive(x.kvs)
    requires |x.kvs| < m || HasKey(x.kvs, k)
    modifies n
    ensures idx == Rank(x.kvs, k) < m && numAdded == if HasKey(x.kvs, k) then 0 else 1
    ensures n[2 * m] == old(n[2 * m]) && n[2 * m + 1] == Meta(x.leaf, |x.kvs| + numAdded)
    ensures forall j :: 0 <= j < 2 * idx ==> n[j] == old(n[j])
    ensures HasKey(x.kvs, k) ==> forall j :: 2 * idx + 2 <= j < 2 * m ==> n[j] == old(n[j])
    ensures !HasKey(x.kvs, k) ==> forall j :: 2 * idx + 2 <= j < 2 * |x.kvs| + 2 ==> n[j] == old(n[j - 2])
    ensures !HasKey(x.kvs, k) ==> forall j :: 2 * |x.kvs| + 2 <= j < 2 * m ==> n[j] == old(n[j])
  {
    MetaReads(n, m, x);
    idx := SearchKey(n, m, k, x);
    var ki := n[KeyOffset(idx)];
    assert idx < |x.kvs| ==> n[..][2 * idx] == x.kvs[idx].key;
    assert idx == |x.kvs| ==> n[..][2 * idx] == 0;
    numAdded := 0;
    if ki > k {
      MoveRight(n, m, idx);
      assert n[2 * m + 1] == old(n[2 * m + 1]);
    }
    if ki != k {
      SetNumKeys(n, m, NumKeys(n, m) + 1);
      numAdded := 1;
    }
  }

  lemma PutLength(kvs: seq<KV>, k: int, v: int)
    ensures |Put(kvs, k, v)| == |kvs| + if HasKey(kvs, k) then 0 else 1
  {
  }

  /** The words that `Set` leaves behind encode `Put`. */
  lemma PairWords(w: seq<int>, m: int, x: Node, i: nat)
    requires Holds(w, m, x) && i < |x.kvs|
    ensures |w| == 2 * m + 2 && i < m && w[2 * i] == x.kvs[i].key && w[2 * i + 1] == x.kvs[i].val
  {
  }

  lemma SetEncodesPair(w: seq<int>, w': seq<int>, m: int, k: int, v: int, x: Node, idx: nat, i: nat)
    requires GoodMax(m) && Holds(w, m, x)
    requires |x.kvs| < m || HasKey(x.kvs, k)
    requires |w'| == |w|
    requires idx == Rank(x.kvs, k)
    requires w'[2 * idx] == k && w'[2 * idx + 1] == v
    requires w'[2 * m] == w[2 * m]
    requires w'[2 * m + 1] == Meta(x.leaf, |Put(x.kvs, k, v)|)
    requires forall j :: 0 <= j < 2 * idx ==> w'[j] == w[j]
    requires HasKey(x.kvs, k) ==> forall j :: 2 * idx + 2 <= j < 2 * m ==> w'[j] == w[j]
    requires !HasKey(x.kvs, k) ==> forall j :: 2 * idx + 2 <= j < 2 * |x.kvs| + 2 ==> w'[j] == w[j - 2]
    requires !HasKey(x.kvs, k) ==> forall j :: 2 * |x.kvs| + 2 <= j < 2 * m ==> w'[j] == w[j]
    requires i < |Put(x.kvs, k, v)|
    ensures i < m && w'[2 * i] == Put(x.kvs, k, v)[i].key && w'[2 * i + 1] == Put(x.kvs, k, v)[i].val
  {
    hide Rank, HasKey, Put, Holds;
    PutAt(x.kvs, k, v, idx);
    AtMost(w, m, x);
    var s := if HasKey(x.kvs, k) || i < idx then i else i - 1;
    if i != idx {
      assert Put(x.kvs, k, v)[i] == x.kvs[s];
      PairWords(w, m, x, s);
    }
  }

  lemma SetEncodes(w: seq<int>, w': seq<int>, m: int, k: int, v: int, x: Node, idx: nat)
    requires GoodMax(m) && Holds(w, m, x)
    requires |x.kvs| < m || HasKey(x.kvs, k)
    requires |w'| == |w|
    requires idx == Rank(x.kvs, k)
    requires w'[2 * idx] == k && w'[2 * idx + 1] == v
    requires w'[2 * m] == w[2 * m]
    requires w'[2 * m + 1] == Meta(x.leaf, |Put(x.kvs, k, v)|)
    requires forall j :: 0 <= j < 2 * idx ==> w'[j] == w[j]
    requires HasKey(x.kvs, k) ==> forall j :: 2 * idx + 2 <= j < 2 * m ==> w'[j] == w[j]
    requires !HasKey(x.kvs, k) ==> forall j :: 2 * idx + 2 <= j < 2 * |x.kvs| + 2 ==> w'[j] == w[j - 2]
    requires !HasKey(x.kvs, k) ==> forall j :: 2 * |x.kvs| + 2 <= j < 2 * m ==> w'[j] == w[j]
    ensures Holds(w', m, x.(kvs := Put(x.kvs, k, v)))
  {
    hide Rank, HasKey, Put;
    PutAt(x.kvs, k, v, idx);
    var p := Put(x.kvs, k, v);
    forall j | 2 * |p| <= j < 2 * m
      ensures w'[j] == 0
    {
      assert w[j] == 0;
    }
    forall i | 0 <= i < |p|
      ensures w'[2 * i] == p[i].key && w'[2 * i + 1] == p[i].val
    {
      SetEncodesPair(w, w', m, k, v, x, idx, i);
    }
  }

  /** The words from slot `at` on start with `kvs`. */
  ghost predicate Pairs(w: seq<int>, at: nat, kvs: seq<KV>) {
    && 2 * (at + |kvs|) <= |w|
    && forall i :: 0 <= i < |kvs| ==> w[2 * (at + i)] == kvs[i].key && w[2 * (at + i) + 1] == kvs[i].val
  }

  lemma PairsEmpty(w: seq<int>)
    ensures Pairs(w, 0, []) && forall lo, mk :: Kept([], lo, mk) == []
  {
  }

  lemma PairsHead(w: seq<int>, at: nat, kvs: seq<KV>)
    requires Pairs(w, at, kvs) && kvs != []
    ensures 2 * at + 2 <= |w| && w[2 * at] == kvs[0].key && w[2 * at + 1] == kvs[0].val
  {
    assert w[2 * (at + 0)] == kvs[0].key;
  }

  lemma PairsTail(w: seq<int>, at: nat, kvs: seq<KV>)
    requires Pairs(w, at, kvs) && kvs != []
    ensures Pairs(w, at + 1, kvs[1..])
  {
    forall i | 0 <= i < |kvs| - 1
      ensures w[2 * (at + 1 + i)] == kvs[1..][i].key && w[2 * (at + 1 + i) + 1] == kvs[1..][i].val
    {
      assert w[2 * (at + (i + 1))] == kvs[i + 1].key;
    }
  }

  lemma PairsSame(w: seq<int>, w': seq<int>, at: nat, kvs: seq<KV>)
    requires Pairs(w, at, kvs) && |w'| == |w|
    requires forall j :: 2 * at <= j < 2 * (at + |kvs|) ==> w'[j] == w[j]
    ensures Pairs(w', at, kvs)
  {
  }

  lemma PairsAppend(w: seq<int>, kvs: seq<KV>, kv: KV)
    requires Pairs(w, 0, kvs) && 2 * |kvs| + 2 <= |w|
    requires w[2 * |kvs|] == kv.key && w[2 * |kvs| + 1] == kv.val
    ensures Pairs(w, 0, kvs + [kv])
  {
  }

  lemma KeptStep(kvs: seq<KV>, r: nat, lo: int, mk: int)
    requires r < |kvs|
    ensures Kept(kvs[..r + 1], lo, mk) ==
      Kept(kvs[..r], lo, mk) + if kvs[r].val < lo && kvs[r].key < mk then [] else [kvs[r]]
    ensures kvs[r..] == [kvs[r]] + kvs[r + 1..]
  {
    assert kvs[..r + 1][..r] == kvs[..r];
  }

  /** The words that `Compact` leaves behind encode the kept pairs. */
  lemma CompactEncodes(w: seq<int>, w': seq<int>, m: int, x: Node, kept: seq<KV>)
    requires GoodMax(m) && |w| == |w'| == 2 * m + 2 && |kept| <= |x.kvs| <= m
    requires Pairs(w, 0, kept) && w[2 * m] == x.pid
    requires forall j :: 2 * |x.kvs| <= j < 2 * m ==> w[j] == 0
    requires forall j :: 0 <= j < 2 * m + 1 ==> w'[j] == if 2 * |kept| <= j < 2 * |x.kvs| then 0 else w[j]
    requires w'[2 * m + 1] == Meta(x.leaf, |kept|)
    ensures Holds(w', m, x.(kvs := kept))
  {
    forall i | 0 <= i < |kept|
      ensures w'[2 * i] == kept[i].key && w'[2 * i + 1] == kept[i].val
    {
      assert w[2 * (0 + i)] == kept[i].key;
    }
  }

  lemma MovedPair(w: seq<int>, w': seq<int>, kvs: seq<KV>, kept: seq<KV>, right: nat)
    requires right < |kvs| && |kept| <= right
    requires Pairs(w, 0, kept) && Pairs(w, right, kvs[right..])
    requires w' == w[2 * |kept| := kvs[right].key][2 * |kept| + 1 := kvs[right].val]
    ensures Pairs(w', 0, kept + [kvs[right]]) && Pairs(w', right + 1, kvs[right + 1..])
  {
    PairsTail(w, right, kvs[right..]);
    assert kvs[right..][1..] == kvs[right + 1..];
    PairsSame(w, w', right + 1, kvs[right + 1..]);
    PairsSame(w, w', 0, kept);
    PairsAppend(w', kept, kvs[right]);
  }

  /** The loop of `Compact`: moves the kept pairs to the front and returns how many there are. */
  method MoveKept(n: array<int>, N: nat, lo: int, mk: int, ghost kvs: seq<KV>) returns (left: nat)
    requires Pairs(n[..], 0, kvs) && N == |kvs|
    modifies n
    ensures left == |Kept(kvs, lo, mk)| && Pairs(n[..], 0, Kept(kvs, lo, mk))
    ensures forall j :: 2 * N <= j < n.Length ==> n[j] == old(n[j])
  {
    hide Kept, Pairs;
    left := 0;
    var right := 0;
    PairsEmpty(n[..]);
    ghost var kept: seq<KV>, w := [], n[..];
    assert kvs[0..] == kvs;
    while right < N
      invariant 0 <= left == |kept| <= right <= N
      invariant kept == Kept(kvs[..right], lo, mk)
      invariant w == n[..] && Pairs(w, 0, kept) && Pairs(w, right, kvs[right..])
      invariant forall j :: 2 * N <= j < n.Length ==> n[j] == old(n[j])
    {
      KeptStep(kvs, right, lo, mk);
      PairsHead(w, right, kvs[right..]);
      PairsTail(w, right, kvs[right..]);
      if n[ValOffset(right)] < lo && n[KeyOffset(right)] < mk {
        right := right + 1;
        continue;
      }
      if left != right {
        n[KeyOffset(left)], n[ValOffset(left)] := n[KeyOffset(right)], n[ValOffset(right)];
      }
      MovedPair(w, n[..], kvs, kept, right);
      left, right, kept, w := left + 1, right + 1, kept + [kvs[right]], n[..];
    }
    assert kvs[..N] == kvs;
  }

  /** Drops, in place, the pairs whose value is below `lo`, except the maximum key.  A result of zero
      says that only the maximum key is left and that its value is below `lo` too. */
  method Compact(n: array<int>, m: int, lo: int, ghost x: Node) returns (rem: nat)
    requires GoodMax(m) && n.Length == 2 * m + 2 && Holds(n[..], m, x)
    modifies n
    ensures var mk := LastKey(x.kvs);
      var kept := Kept(x.kvs, lo, mk);
      && Holds(n[..], m, x.(kvs := kept))
      && rem == if |kept| == 1 && kept[0].key == mk && kept[0].val < lo then 0 else |kept|
  {
    MetaReads(n, m, x);
    var N := NumKeys(n, m);
    var mk := MaxKey(n, m, x);
    ghost var kept := Kept(x.kvs, lo, mk);
    assert Pairs(n[..], 0, x.kvs);
    var left := MoveKept(n, N, lo, mk, x.kvs);
    ghost var w := n[..];
    ZeroOut(n, KeyOffset(left), KeyOffset(N));
    SetNumKeys(n, m, left);
    CompactEncodes(w, n[..], m, x, kept);
    if left == 1 && n[KeyOffset(0)] == mk && n[ValOffset(0)] < lo {
      return 0;
    }
    rem := left;
  }

  // ---- Moving pairs between pages ----

  /** Copies `src[from..to]` to the front of `dst`, another page. */
  method CopyTo(dst: array<int>, src: array<int>, from: nat, to: nat)
    requires dst != src && from <= to <= src.Length && to - from <= dst.Length
    modifies dst
    ensures forall j :: 0 <= j < dst.Length ==> dst[j] == if j < to - from then src[from + j] else old(dst[j])
  {
    forall j | 0 <= j < to - from {
      dst[j] := src[from + j];
    }
  }

  /** Moves the upper half of a full page `n` to the empty page `nn`. */
  method MoveUpper(n: array<int>, nn: array<int>, m: int, ghost x: Node, ghost y: Node)
    requires GoodMax(m) && n != nn && n.Length == nn.Length == 2 * m + 2
    requires Holds(n[..], m, x) && |x.kvs| == m
    requires Holds(nn[..], m, y) && y.kvs == []
    modifies n, nn
    ensures Holds(n[..], m, x.(kvs := x.kvs[..m / 2]))
    ensures Holds(nn[..], m, y.(kvs := x.kvs[m / 2..]))
  {
    ghost var w, u := n[..], nn[..];
    CopyTo(nn, n, KeyOffset(m / 2), KeyOffset(m));
    SetNumKeys(nn, m, m - m / 2);
    ZeroOut(n, KeyOffset(m / 2), KeyOffset(m));
    SetNumKeys(n, m, m / 2);
    LowerEncodes(w, n[..], m, x, m / 2);
    UpperEncodes(w, u, nn[..], m, x, y, m / 2);
  }

  /** Moves every pair of `n` to the empty page `nn`. */
  method MoveAll(n: array<int>, nn: array<int>, m: int, ghost x: Node, ghost y: Node)
    requires GoodMax(m) && n != nn && n.Length == nn.Length == 2 * m + 2
    requires Holds(n[..], m, x)
    requires Holds(nn[..], m, y) && y.kvs == []
    modifies n, nn
    ensures Holds(n[..], m, x.(kvs := []))
    ensures Holds(nn[..], m, y.(kvs := x.kvs))
  {
    MetaReads(n, m, x);
    ghost var w, u := n[..], nn[..];
    CopyTo(nn, n, 0, KeyOffset(m));
    SetNumKeys(nn, m, NumKeys(n, m));
    ZeroOut(n, 0, KeyOffset(m));
    SetNumKeys(n, m, 0);
    LowerEncodes(w, n[..], m, x, 0);
    UpperEncodes(w, u, nn[..], m, x, y, 0);
    assert x.kvs[..0] == [] && x.kvs[0..] == x.kvs;
  }

  lemma LowerEncodes(w: seq<int>, w': seq<int>, m: int, x: Node, at: nat)
    requires GoodMax(m) && Holds(w, m, x) && |w'| == |w| && at <= |x.kvs|
    requires forall j :: 0 <= j < 2 * m + 1 ==> w'[j] == if 2 * at <= j < 2 * m then 0 else w[j]
    requires w'[2 * m + 1] == Meta(x.leaf, at)
    ensures Holds(w', m, x.(kvs := x.kvs[..at]))
  {
    forall i | 0 <= i < at
      ensures w'[2 * i] == x.kvs[..at][i].key && w'[2 * i + 1] == x.kvs[..at][i].val
    {
      assert w[2 * i] == x.kvs[i].key;
    }
  }

  lemma UpperEncodes(w: seq<int>, u: seq<int>, u': seq<int>, m: int, x: Node, y: Node, at: nat)
    requires GoodMax(m) && Holds(w, m, x) && Holds(u, m, y) && |u'| == |u| && at <= |x.kvs|
    requires forall j :: 0 <= j < 2 * m - 2 * at ==> u'[j] == w[2 * at + j]
    requires forall j :: 2 * m - 2 * at <= j < 2 * m ==> u'[j] == 0
    requires u'[2 * m] == u[2 * m] && u'[2 * m + 1] == Meta(y.leaf, |x.kvs| - at)
    ensures Holds(u', m, y.(kvs := x.kvs[at..]))
  {
    forall i | 0 <= i < |x.kvs| - at
      ensures u'[2 * i] == x.kvs[at..][i].key && u'[2 * i + 1] == x.kvs[at..][i].val
    {
      assert w[2 * (at + i)] == x.kvs[at + i].key;
      assert u'[2 * i] == w[2 * at + 2 * i] && u'[2 * i + 1] == w[2 * at + (2 * i + 1)];
    }
  }

  // ---- Writing single words ----

  /** Clears a page and writes its kind and its number. */
  method Init(n: array<int>, m: int, bit: int, pid: nat)
    requires GoodMax(m) && n.Length == 2 * m + 2 && bit in {0, BIT_LEAF}
    modifies n
    ensures Holds(n[..], m, Node(pid, bit == BIT_LEAF, []))
  {
    ZeroOut(n, 0, n.Length);
    SetBit(n, m, bit);
    n[KeyOffset(m)] := pid;
  }

  /** Adds a key without a value at the end. */
  method AddKey(n: array<int>, m: int, idx: nat, k: int, ghost x: Node)
    requires GoodMax(m) && n.Length == 2 * m + 2 && Holds(n[..], m, x) && idx == |x.kvs| < m
    modifies n
    ensures Holds(n[..], m, x.(kvs := x.kvs + [KV(k, 0)]))
  {
    MetaReads(n, m, x);
    ghost var w := n[..];
    n[KeyOffset(idx)] := k;
    SetNumKeys(n, m, NumKeys(n, m) + 1);
    AddKeyEncodes(w, n[..], m, k, x);
  }

  lemma AddKeyEncodes(w: seq<int>, w': seq<int>, m: int, k: int, x: Node)
    requires GoodMax(m) && Holds(w, m, x) && |x.kvs| < m && |w'| == |w|
    requires forall j :: 0 <= j < 2 * m + 1 ==> w'[j] == if j == 2 * |x.kvs| then k else w[j]
    requires w'[2 * m + 1] == Meta(x.leaf, |x.kvs| + 1)
    ensures Holds(w', m, x.(kvs := x.kvs + [KV(k, 0)]))
  {
    var p := x.kvs + [KV(k, 0)];
    forall i | 0 <= i < |p|
      ensures w'[2 * i] == p[i].key && w'[2 * i + 1] == p[i].val
    {
      assert i < |x.kvs| ==> w[2 * i] == x.kvs[i].key && w[2 * i + 1] == x.kvs[i].val;
    }
  }

  /** Replaces the value in slot `idx`. */
  method SetVal(n: array<int>, m: int, idx: nat, v: int, ghost x: Node)
    requires GoodMax(m) && n.Length == 2 * m + 2 && Holds(n[..], m, x) && idx < |x.kvs|
    modifies n
    ensures Holds(n[..], m, x.(kvs := x.kvs[idx := KV(x.kvs[idx].key, v)]))
  {
    ghost var w := n[..];
    n[ValOffset(idx)] := v;
    assert forall i :: 0 <= i < |x.kvs| ==> n[..][2 * i] == w[2 * i] && (i != idx ==> n[..][2 * i + 1] == w[2 * i + 1]);
  }

  // ---- Rewriting values ----

  /** The value after a visit by `f`: unchanged if it is zero or if `f` returns zero. */
  ghost function Visited(f: (int, int) -> int, kv: KV): KV {
    if kv.val == 0 || f(kv.key, kv.val) == 0 then kv else KV(kv.key, f(kv.key, kv.val))
  }

  ghost function VisitedAll(f: (int, int) -> int, kvs: seq<KV>): seq<KV> {
    seq(|kvs|, i requires 0 <= i < |kvs| => Visited(f, kvs[i]))
  }

  /** Offers every pair with a value to `f` and stores what it returns, if that is not zero. */
  method VisitVals(n: array<int>, m: int, f: (int, int) -> int, ghost x: Node)
    requires GoodMax(m) && n.Length == 2 * m + 2 && Holds(n[..], m, x)
    modifies n
    ensures Holds(n[..], m, x.(kvs := VisitedAll(f, x.kvs)))
    ensures forall i :: 0 <= i < |x.kvs| ==> n[2 * i] == x.kvs[i].key
    ensures forall i :: 0 <= i < |x.kvs| ==> var k, v := x.kvs[i].key, x.kvs[i].val;
      n[2 * i + 1] == if v != 0 && f(k, v) != 0 then f(k, v) else v
    ensures forall j :: 2 * |x.kvs| <= j < n.Length ==> n[j] == old(n[j])
  {
    MetaReads(n, m, x);
    ghost var w := n[..];
    var N := NumKeys(n, m);
    var i := 0;
    while i < N
      invariant 0 <= i <= N == |x.kvs|
      invariant forall j :: 0 <= j < i ==> n[2 * j] == x.kvs[j].key && n[2 * j + 1] == Visited(f, x.kvs[j]).val
      invariant forall j :: 2 * i <= j < n.Length ==> n[j] == w[j]
    {
      assert w[2 * i] == x.kvs[i].key && w[2 * i + 1] == x.kvs[i].val;
      var key, val := n[KeyOffset(i)], n[ValOffset(i)];
      if val != 0 {
        var newVal := f(key, val);
        if newVal != 0 {
          n[ValOffset(i)] := newVal;
        }
      }
      i := i + 1;
    }
    assert n[..][2 * m] == w[2 * m] && n[..][2 * m + 1] == w[2 * m + 1];
  }
}
