/** Sorting the records of a buffer in place, as z/buffer.go does: small chunks first, then merges. */
module BufferSort {
  import opened Powers
  import opened Records
  import Buffer

  // ---- Lists of records ----

  lemma {:induction false} RemoveAt(rs: seq<Payload>, i: nat)
    requires i < |rs|
    ensures multiset(rs[..i] + rs[i + 1..]) == multiset(rs) - multiset{rs[i]}
    ensures |Encode(rs[..i] + rs[i + 1..])| == |Encode(rs)| - 8 - |rs[i]|
  {
    assert rs == rs[..i] + [rs[i]] + rs[i + 1..];
    EncodeConcat(rs[..i], rs[i + 1..]);
    EncodeConcat(rs[..i] + [rs[i]], rs[i + 1..]);
    EncodeConcat(rs[..i], [rs[i]]);
    EncodeOne(rs[i]);
  }

  /** Lists with the same records take the same number of bytes. */
  lemma {:induction false} SameSize(rs: seq<Payload>, qs: seq<Payload>)
    requires multiset(rs) == multiset(qs)
    ensures |Encode(rs)| == |Encode(qs)| && |rs| == |qs|
    decreases |rs|
  {
    hide Encode;
    assert |multiset(rs)| == |rs| && |multiset(qs)| == |qs|;
    if rs == [] {
      assert rs == qs;
    } else {
      var i := Find(qs, rs[0]);
      RemoveAt(rs, 0);
      RemoveAt(qs, i);
      SameSize(rs[..0] + rs[1..], qs[..i] + qs[i + 1..]);
    }
  }

  lemma Find(qs: seq<Payload>, p: Payload) returns (i: nat)
    requires p in multiset(qs)
    ensures i < |qs| && qs[i] == p
  {
    assert p in qs;
    i :| 0 <= i < |qs| && qs[i] == p;
  }

  lemma SameSmall(rs: seq<Payload>, qs: seq<Payload>)
    requires multiset(rs) == multiset(qs) && Small(rs)
    ensures Small(qs)
  {
    forall j | 0 <= j < |qs|
      ensures |qs[j]| < WORD
    {
      assert qs[j] in multiset(qs);
      assert qs[j] in rs;
    }
  }

  /** With `x` put in at place `j`. */
  function Inserted<T>(s: seq<T>, j: nat, x: T): (r: seq<T>)
    requires j <= |s|
    ensures |r| == |s| + 1
  {
    s[..j] + [x] + s[j..]
  }

  lemma InsertedPermutes(s: seq<Payload>, j: nat, x: Payload)
    requires j <= |s|
    ensures multiset(Inserted(s, j, x)) == multiset(s) + multiset{x}
  {
    assert s == s[..j] + s[j..];
  }

  lemma NoBytes()
    ensures Encode([]) == []
  {
  }

  lemma NothingSorted(less: Less)
    ensures Sorted([], less)
  {
  }

  lemma PrefixPermutes(rs: seq<Payload>, i: nat)
    requires i < |rs|
    ensures multiset(rs[..i + 1]) == multiset(rs[..i]) + multiset{rs[i]}
  {
    assert rs[..i + 1] == rs[..i] + [rs[i]];
  }

  lemma PrefixEncode(rs: seq<Payload>, i: nat)
    requires i < |rs|
    ensures Encode(rs[..i + 1]) == Encode(rs[..i]) + Record(rs[i])
  {
    EncodeConcat(rs[..i], [rs[i]]);
    EncodeOne(rs[i]);
    assert rs[..i + 1] == rs[..i] + [rs[i]];
  }

  /** What insertion sort keeps: the new element goes behind the last one that it is not below. */
  lemma InsertedSorted(s: seq<Payload>, j: nat, x: Payload, less: Less)
    requires StrictWeak(less) && Sorted(s, less) && j <= |s|
    requires forall k | j <= k < |s| :: less(x, s[k])
    requires j > 0 ==> !less(x, s[j - 1])
    ensures Sorted(Inserted(s, j, x), less)
  {
    var r := Inserted(s, j, x);
    forall a, c | 0 <= a < c < |r|
      ensures !less(r[c], r[a])
    {
      if c == j {
        assert r[a] == s[a] && r[c] == x;
        if a < j - 1 {
          assert !less(s[j - 1], s[a]);
        }
      } else if a == j {
        assert r[c] == s[c - 1] && r[a] == x;
        assert less(x, s[c - 1]);
      } else {
        assert r[a] == s[if a < j then a else a - 1] && r[c] == s[if c < j then c else c - 1];
      }
    }
  }

  /** Two states of the bytes differ inside [start, end) only. */
  ghost predicate SameOutside(x: seq<byte>, y: seq<byte>, start: nat, end: nat) {
    |x| == |y| && start <= end <= |x| && x[..start] == y[..start] && x[end..] == y[end..]
  }

  lemma SameOutsideTwice(x: seq<byte>, y: seq<byte>, z: seq<byte>, a: nat, i: nat, j: nat, c: nat)
    requires SameOutside(x, y, i, j) && SameOutside(y, z, a, c) && a <= i <= j <= c
    ensures SameOutside(x, z, a, c)
  {
    assert x[..a] == x[..i][..a];
    assert y[..a] == y[..i][..a];
    assert x[c..] == x[j..][c - j..];
    assert y[c..] == y[j..][c - j..];
  }

  lemma SameOutsideWiden(x: seq<byte>, y: seq<byte>, i: nat, j: nat, a: nat, c: nat)
    requires SameOutside(x, y, i, j) && a <= i <= j <= c <= |x|
    ensures SameOutside(x, y, a, c)
  {
    assert SameOutside(y, y, a, c);
    SameOutsideTwice(x, y, y, a, i, j, c);
  }

  lemma OutsideRegion(x: seq<byte>, y: seq<byte>, start: nat, end: nat, i: nat, j: nat)
    requires SameOutside(x, y, start, end) && i <= j <= |x| && (j <= start || end <= i)
    ensures x[i..j] == y[i..j]
  {
    if j <= start {
      forall k | i <= k < j
        ensures x[k] == y[k]
      {
        assert x[k] == x[..start][k] && y[k] == y[..start][k];
      }
    } else {
      forall k | i <= k < j
        ensures x[k] == y[k]
      {
        assert x[k] == x[end..][k - end] && y[k] == y[end..][k - end];
      }
    }
  }

  class SortHelper {
    const b: Buffer.Buffer
    const tmp: Buffer.Buffer
    const less: Less
    var offsets: seq<nat>
    var small: seq<nat>

    ghost predicate Valid()
      reads this, b, tmp
    {
      b.Valid() && tmp.Valid() && tmp.maxSz == 0 && b != tmp && b.buf != tmp.buf
    }

    constructor (buffer: Buffer.Buffer, scratch: Buffer.Buffer, order: Less)
      requires buffer.Valid() && scratch.Valid() && scratch.maxSz == 0 && buffer != scratch && buffer.buf != scratch.buf
      ensures Valid() && b == buffer && tmp == scratch && less == order
    {
      b, tmp, less, offsets, small := buffer, scratch, order, [], [];
    }

    /** The offsets are those of these records. */
    ghost predicate AllAt(offs: seq<nat>, rs: seq<Payload>)
      requires b.Valid()
      reads b, b.buf
    {
      |offs| == |rs| && forall i | 0 <= i < |rs| :: b.RecordAt(offs[i], rs[i])
    }

    /** Notes where every record of the region starts. */
    method Collect(start: nat, end: nat, ghost rs: seq<Payload>)
      requires Valid() && b.Region(start, end, rs)
      modifies `small
      ensures AllAt(small, rs)
    {
      hide Encode, Small;
      small := [];
      var next := start as int;
      ghost var rest := rs;
      while 0 <= next < end
        invariant next >= 0 ==> next <= end && b.Region(next, end, rest)
        invariant next < 0 ==> rest == []
        invariant |small| + |rest| == |rs| && rest == rs[|small|..] && AllAt(small, rs[..|small|])
        decreases |rest|
      {
        b.FirstAt(next, end, rest);
        small := small + [next];
        var slice;
        slice, next := b.Slice(next, rest[0]);
        rest := rest[1..];
      }
      if next >= 0 {
        b.NothingLeft(end, rest);
      }
      assert rs[..|small|] == rs;
    }

    /** Puts the offsets in the order of their records, as sort.Slice may: by insertion. */
    method SortOffsets(ghost rs: seq<Payload>) returns (ghost qs: seq<Payload>)
      requires Valid() && AllAt(small, rs)
      modifies `small
      ensures AllAt(small, qs) && multiset(qs) == multiset(rs)
      ensures StrictWeak(less) ==> Sorted(qs, less)
    {
      hide Inserted, Sorted, StrictWeak, Buffer.Buffer.RecordAt;
      var out: seq<nat> := [];
      qs := [];
      assert Sorted(qs, less) by { NothingSorted(less); }
      for i := 0 to |small|
        invariant small == old(small) && AllAt(out, qs) && multiset(qs) == multiset(rs[..i])
        invariant StrictWeak(less) ==> Sorted(qs, less)
      {
        ghost var x := rs[i];
        var j := Place(small[i], x, out, qs);
        InsertedPermutes(qs, j, x);
        PrefixPermutes(rs, i);
        if StrictWeak(less) {
          InsertedSorted(qs, j, x, less);
        }
        InsertedAt(out, qs, j, small[i], x);
        out := Inserted(out, j, small[i]);
        qs := Inserted(qs, j, x);
      }
      assert rs[..|small|] == rs;
      small := out;
    }

    lemma InsertedAt(offs: seq<nat>, rs: seq<Payload>, j: nat, off: nat, x: Payload)
      requires b.Valid() && AllAt(offs, rs) && j <= |rs| && b.RecordAt(off, x)
      ensures AllAt(Inserted(offs, j, off), Inserted(rs, j, x))
    {
      hide Buffer.Buffer.RecordAt;
    }

    /** The place behind the last record that `x` is not below. */
    method Place(off: nat, ghost x: Payload, out: seq<nat>, ghost qs: seq<Payload>) returns (j: nat)
      requires b.Valid() && AllAt(out, qs) && b.RecordAt(off, x)
      ensures j <= |out|
      ensures forall k | j <= k < |qs| :: less(x, qs[k])
      ensures j > 0 ==> !less(x, qs[j - 1])
    {
      var left, _ := b.Slice(off, x);
      j := |out|;
      while j > 0
        invariant j <= |out|
        invariant forall k | j <= k < |qs| :: less(x, qs[k])
      {
        var right, _ := b.Slice(out[j - 1], qs[j - 1]);
        if !less(left, right) {
          return;
        }
        j := j - 1;
      }
    }

    /** Appends one record, as it is in the buffer, to the scratch buffer. */
    method CopyRecord(off: nat, ghost p: Payload)
      requires Valid() && b.RecordAt(off, p)
      modifies tmp, tmp.buf
      ensures Valid() && tmp.Data() == old(tmp.Data()) + Record(p)
      ensures tmp.buf == old(tmp.buf) || fresh(tmp.buf)
    {
      b.RecordBytes(off, p);
      var sz := Get64(b.buf[off..]);
      var _ := tmp.Write(b.buf[off..off + 8 + sz]);
    }

    /** Copies the records out in the order of the offsets. */
    method CopyOut(ghost qs: seq<Payload>)
      requires Valid() && AllAt(small, qs)
      modifies tmp, tmp.buf
      ensures Valid() && tmp.Data() == Encode(qs)
      ensures tmp.buf == old(tmp.buf) || fresh(tmp.buf)
    {
      hide Encode, Record, Buffer.Buffer.RecordAt;
      tmp.Reset();
      assert Encode(qs[..0]) == [] by { NoBytes(); }
      for i := 0 to |small|
        invariant Valid() && tmp.Data() == Encode(qs[..i]) && AllAt(small, qs)
        invariant tmp.buf == old(tmp.buf) || fresh(tmp.buf)
      {
        CopyRecord(small[i], qs[i]);
        PrefixEncode(qs, i);
      }
      assert qs[..|small|] == qs;
    }

    /** Sorts the records of a small region. */
    method SortSmall(start: nat, end: nat, ghost rs: seq<Payload>) returns (ghost qs: seq<Payload>)
      requires Valid() && b.Region(start, end, rs)
      modifies `small, b.buf, tmp, tmp.buf
      ensures Valid() && b.Region(start, end, qs) && multiset(qs) == multiset(rs)
      ensures StrictWeak(less) ==> Sorted(qs, less)
      ensures b.buf == old(b.buf) && SameOutside(old(b.buf[..]), b.buf[..], start, end)
        && (tmp.buf == old(tmp.buf) || fresh(tmp.buf))
    {
      hide Encode, Sorted, StrictWeak, Small;
      Collect(start, end, rs);
      qs := SortOffsets(rs);
      CopyOut(qs);
      SameSize(rs, qs);
      SameSmall(rs, qs);
      b.CopyAt(start, tmp.buf[8..tmp.offset]);
    }

    // ---- Merging ----

    /**
     * A merge under way: `left` on are the records still to come from the scratch buffer, `right`
     * on those still to come from the right run, and up to `start` what has been merged. The gap
     * before the right run is always as long as what is left in the scratch buffer.
     */
    ghost predicate Merging(lo: nat, hi: nat, start: nat, left: nat, leftEnd: nat, right: nat,
                            out: seq<Payload>, l: seq<Payload>, r: seq<Payload>)
      requires Valid()
      reads this, b, b.buf, tmp, tmp.buf
    {
      && b.Region(lo, start, out) && tmp.Region(left, leftEnd, l) && b.Region(right, hi, r)
      && start + (leftEnd - left) == right
    }

    /** Puts the next record of the right run, or of the scratch buffer, behind what has been merged. */
    method Append(lo: nat, hi: nat, start: nat, ghost out: seq<Payload>, p: Payload, bytes: seq<byte>,
                  right: nat, ghost r: seq<Payload>)
      requires Valid() && b.Region(lo, start, out) && b.Region(right, hi, r)
      requires bytes == Record(p) && |p| < WORD && start + |bytes| <= right
      modifies b.buf
      ensures Valid() && b.Region(lo, start + |bytes|, out + [p]) && b.Region(right, hi, r)
      ensures b.buf[..lo] == old(b.buf[..lo]) && b.buf[hi..] == old(b.buf[hi..])
    {
      hide Encode, Record, Small;
      ghost var was := b.buf[..];
      b.CopyAt(start, bytes);
      assert b.buf[right..hi] == was[right..hi];
      assert b.buf[lo..start] == was[lo..start];
      assert b.buf[..lo] == was[..lo] && b.buf[hi..] == was[hi..];
      assert b.buf[lo..start + |bytes|] == b.buf[lo..start] + bytes;
      AppendedRegion(out, p);
    }

    lemma AppendedRegion(out: seq<Payload>, p: Payload)
      requires Small(out) && |p| < WORD
      ensures Encode(out + [p]) == Encode(out) + Record(p) && Small(out + [p])
    {
      EncodeConcat(out, [p]);
      EncodeOne(p);
    }

    /** One record of the scratch buffer goes in. */
    method CopyLeft(lo: nat, hi: nat, start: nat, left: nat, leftEnd: nat, right: nat,
                    ghost out: seq<Payload>, ghost l: seq<Payload>, ghost r: seq<Payload>) returns (n: nat)
      requires Valid() && Merging(lo, hi, start, left, leftEnd, right, out, l, r) && left < leftEnd
      modifies b.buf
      ensures Valid() && l != [] && n == 8 + |l[0]|
      ensures Merging(lo, hi, start + n, left + n, leftEnd, right, out + [l[0]], l[1..], r)
      ensures b.buf[..lo] == old(b.buf[..lo]) && b.buf[hi..] == old(b.buf[hi..])
    {
      hide Encode, Record, Small;
      tmp.FirstAt(left, leftEnd, l);
      tmp.RecordBytes(left, l[0]);
      n := 8 + Get64(tmp.buf[left..]);
      var bytes := tmp.buf[left..left + n];
      Append(lo, hi, start, out, bytes[8..], bytes, right, r);
    }

    /** One record of the right run moves down to where the merge is. */
    method CopyRight(lo: nat, hi: nat, start: nat, left: nat, leftEnd: nat, right: nat,
                     ghost out: seq<Payload>, ghost l: seq<Payload>, ghost r: seq<Payload>) returns (n: nat)
      requires Valid() && Merging(lo, hi, start, left, leftEnd, right, out, l, r) && right < hi
      modifies b.buf
      ensures Valid() && r != [] && n == 8 + |r[0]|
      ensures Merging(lo, hi, start + n, left, leftEnd, right + n, out + [r[0]], l, r[1..])
      ensures b.buf[..lo] == old(b.buf[..lo]) && b.buf[hi..] == old(b.buf[hi..])
    {
      hide Encode, Record, Small;
      b.FirstAt(right, hi, r);
      b.RecordBytes(right, r[0]);
      n := 8 + Get64(b.buf[right..]);
      var bytes := b.buf[right..right + n];
      Append(lo, hi, start, out, bytes[8..], bytes, right + n, r[1..]);
    }

    /** Reads the two records that come next. */
    method NextTwo(lo: nat, hi: nat, start: nat, left: nat, leftEnd: nat, right: nat,
                   ghost out: seq<Payload>, ghost l: seq<Payload>, ghost r: seq<Payload>)
      returns (lp: Payload, rp: Payload)
      requires Valid() && Merging(lo, hi, start, left, leftEnd, right, out, l, r) && left < leftEnd && right < hi
      ensures l != [] && r != [] && lp == l[0] && rp == r[0]
    {
      hide Encode, Record, Small;
      tmp.FirstAt(left, leftEnd, l);
      b.FirstAt(right, hi, r);
      tmp.RecordBytes(left, l[0]);
      b.RecordBytes(right, r[0]);
      lp := tmp.buf[left + 8..left + 8 + Get64(tmp.buf[left..])];
      rp := b.buf[right + 8..right + 8 + Get64(b.buf[right..])];
    }

    /** Whichever of the two records comes first goes in; of equal ones the right. */
    method MergeOne(lo: nat, hi: nat, start: nat, left: nat, leftEnd: nat, right: nat,
                    ghost out: seq<Payload>, ghost l: seq<Payload>, ghost r: seq<Payload>)
      returns (start': nat, left': nat, right': nat, ghost out': seq<Payload>, ghost l': seq<Payload>,
        ghost r': seq<Payload>)
      requires lo <= hi <= b.buf.Length
      requires Valid() && Merging(lo, hi, start, left, leftEnd, right, out, l, r) && left < leftEnd && right < hi
      modifies b.buf
      ensures Valid() && Merging(lo, hi, start', left', leftEnd, right', out', l', r') && start < start'
      ensures out' + Merged(l', r', less) == out + Merged(l, r, less)
      ensures b.buf[..lo] == old(b.buf[..lo]) && b.buf[hi..] == old(b.buf[hi..])
    {
      hide Merged, SortHelper.Merging;
      var lp, rp := NextTwo(lo, hi, start, left, leftEnd, right, out, l, r);
      MergedStep(out, l, r, less);
      if less(lp, rp) {
        var n := CopyLeft(lo, hi, start, left, leftEnd, right, out, l, r);
        start', left', right' := start + n, left + n, right;
        out', l', r' := out + [l[0]], l[1..], r;
      } else {
        var n := CopyRight(lo, hi, start, left, leftEnd, right, out, l, r);
        start', left', right' := start + n, left, right + n;
        out', l', r' := out + [r[0]], l, r[1..];
      }
    }

    /** One run is used up: what is left of the other goes behind what has been merged. */
    method Finish(lo: nat, hi: nat, start: nat, left: nat, leftEnd: nat, right: nat,
                  ghost out: seq<Payload>, ghost l: seq<Payload>, ghost r: seq<Payload>)
      requires Valid() && Merging(lo, hi, start, left, leftEnd, right, out, l, r) && (left == leftEnd || right == hi)
      modifies b.buf
      ensures Valid() && b.Region(lo, hi, out + Merged(l, r, less))
      ensures b.buf[..lo] == old(b.buf[..lo]) && b.buf[hi..] == old(b.buf[hi..])
    {
      hide Encode, Small;
      ghost var was, last := b.buf[..], if left == leftEnd then r else l;
      if left == leftEnd {
        tmp.NothingLeft(left, l);
        b.CopyAt(start, b.buf[right..hi]);
      } else {
        b.NothingLeft(hi, r);
        b.CopyAt(start, tmp.buf[left..leftEnd]);
      }
      assert b.buf[lo..start] == was[lo..start];
      assert b.buf[..lo] == was[..lo] && b.buf[hi..] == was[hi..];
      assert b.buf[lo..hi] == b.buf[lo..start] + b.buf[start..hi];
      BothRegions(out, last);
    }

    lemma BothRegions(x: seq<Payload>, y: seq<Payload>)
      requires Small(x) && Small(y)
      ensures Encode(x + y) == Encode(x) + Encode(y) && Small(x + y)
    {
      EncodeConcat(x, y);
    }

    /** Merges two neighbouring runs in place, with the left one moved to the scratch buffer. */
    method Merge(lo: nat, mid: nat, hi: nat, ghost ls: seq<Payload>, ghost rs: seq<Payload>)
      requires Valid() && b.Region(lo, mid, ls) && b.Region(mid, hi, rs)
      modifies b.buf, tmp, tmp.buf
      ensures Valid() && b.Region(lo, hi, Merged(ls, rs, less))
      ensures b.buf == old(b.buf) && SameOutside(old(b.buf[..]), b.buf[..], lo, hi)
        && (tmp.buf == old(tmp.buf) || fresh(tmp.buf))
    {
      hide Encode, Small, Merged, SortHelper.Merging;
      if lo == mid || mid == hi {
        EmptyRun(lo, mid, hi, ls, rs);
        return;
      }
      var leftEnd := MoveOut(lo, mid, hi, ls, rs);
      var start, left, right := lo, Buffer.PADDING, mid;
      ghost var out: seq<Payload>, l, r := [], ls, rs;
      while start < hi
        invariant Valid() && (tmp.buf == old(tmp.buf) || fresh(tmp.buf))
        invariant Merging(lo, hi, start, left, leftEnd, right, out, l, r)
        invariant out + Merged(l, r, less) == Merged(ls, rs, less)
        invariant b.buf[..lo] == old(b.buf[..lo]) && b.buf[hi..] == old(b.buf[hi..])
      {
        MergingBounds(lo, hi, start, left, leftEnd, right, out, l, r);
        if left == leftEnd || right == hi {
          Finish(lo, hi, start, left, leftEnd, right, out, l, r);
          return;
        }
        start, left, right, out, l, r := MergeOne(lo, hi, start, left, leftEnd, right, out, l, r);
      }
      AllMerged(lo, hi, start, left, leftEnd, right, out, l, r);
    }

    lemma MergingBounds(lo: nat, hi: nat, start: nat, left: nat, leftEnd: nat, right: nat,
                        out: seq<Payload>, l: seq<Payload>, r: seq<Payload>)
      requires Valid() && Merging(lo, hi, start, left, leftEnd, right, out, l, r)
      ensures left <= leftEnd && right <= hi
    {
    }

    lemma AllMerged(lo: nat, hi: nat, start: nat, left: nat, leftEnd: nat, right: nat,
                    out: seq<Payload>, l: seq<Payload>, r: seq<Payload>)
      requires Valid() && Merging(lo, hi, start, left, leftEnd, right, out, l, r) && start >= hi
      ensures b.Region(lo, hi, out + Merged(l, r, less))
    {
      hide Encode, Small;
      tmp.NothingLeft(left, l);
      b.NothingLeft(hi, r);
      assert out + [] == out;
    }

    lemma EmptyRun(lo: nat, mid: nat, hi: nat, ls: seq<Payload>, rs: seq<Payload>)
      requires Valid() && b.Region(lo, mid, ls) && b.Region(mid, hi, rs) && (lo == mid || mid == hi)
      ensures b.Region(lo, hi, Merged(ls, rs, less))
    {
      hide Encode, Small;
      if lo == mid {
        b.NothingLeft(lo, ls);
      } else {
        b.NothingLeft(hi, rs);
      }
    }

    /** Copies the left run to the scratch buffer. */
    method MoveOut(lo: nat, mid: nat, hi: nat, ghost ls: seq<Payload>, ghost rs: seq<Payload>) returns (leftEnd: nat)
      requires Valid() && b.Region(lo, mid, ls) && b.Region(mid, hi, rs)
      modifies tmp, tmp.buf
      ensures Valid() && Merging(lo, hi, lo, Buffer.PADDING, leftEnd, mid, [], ls, rs)
      ensures tmp.buf == old(tmp.buf) || fresh(tmp.buf)
    {
      tmp.Reset();
      var _ := tmp.Write(b.buf[lo..mid]);
      leftEnd := tmp.offset;
      assert tmp.Data() == Encode(ls);
    }

    // ---- The recursive sort ----

    ghost predicate Chunked(lo: nat, hi: nat, chunks: seq<seq<Payload>>)
      requires b.Valid()
      reads this, b, b.buf
    {
      ChunkedIn(b.buf[..], b.offset, offsets, chunks, lo, hi)
    }

    /** Sorts the halves of a range of chunks, then merges them. */
    method Sort(lo: nat, hi: nat, ghost chunks: seq<seq<Payload>>)
      requires Valid() && |offsets| == |chunks| + 1 && lo <= hi <= |chunks| && Chunked(lo, hi, chunks)
      modifies b.buf, tmp, tmp.buf
      ensures Valid() && b.Region(offsets[lo], offsets[hi], MergedChunks(chunks, lo, hi, less))
      ensures b.buf == old(b.buf) && (tmp.buf == old(tmp.buf) || fresh(tmp.buf))
      ensures SameOutside(old(b.buf[..]), b.buf[..], offsets[lo], offsets[hi])
      decreases hi - lo
    {
      hide MergedChunks, RegionIn, ChunkedIn, SameOutside, Encode, Small, Merged;
      var mid := lo + (hi - lo) / 2;
      MergedChunksStep(chunks, lo, hi, less);
      ghost var s0, used := b.buf[..], b.offset;
      if lo == mid {
        OneChunk(s0, used, offsets, chunks, lo, hi, less);
        RegionBytes(b, offsets[lo], offsets[hi], MergedChunks(chunks, lo, hi, less));
        return;
      }
      ChunkedPart(s0, used, offsets, chunks, lo, hi, lo, mid);
      ChunkedPart(s0, used, offsets, chunks, lo, hi, mid, hi);
      Sort(lo, mid, chunks);
      ghost var s1 := b.buf[..];
      ChunkedKept(s0, s1, used, offsets, chunks, mid, hi, offsets[lo], offsets[mid]);
      RegionBytes(b, offsets[lo], offsets[mid], MergedChunks(chunks, lo, mid, less));
      Sort(mid, hi, chunks);
      ghost var s2 := b.buf[..];
      RegionKept(s1, s2, used, offsets[lo], offsets[mid], MergedChunks(chunks, lo, mid, less), offsets[mid],
        offsets[hi]);
      RegionBytes(b, offsets[lo], offsets[mid], MergedChunks(chunks, lo, mid, less));
      Merge(offsets[lo], offsets[mid], offsets[hi], MergedChunks(chunks, lo, mid, less),
        MergedChunks(chunks, mid, hi, less));
      BothHalves(s0, s1, s2, b.buf[..], offsets[lo], offsets[mid], offsets[hi]);
    }
  }

  lemma BothHalves(s0: seq<byte>, s1: seq<byte>, s2: seq<byte>, s3: seq<byte>, lo: nat, mid: nat, hi: nat)
    requires SameOutside(s0, s1, lo, mid) && SameOutside(s1, s2, mid, hi) && SameOutside(s2, s3, lo, hi)
    ensures SameOutside(s0, s3, lo, hi)
  {
    SameOutsideTwice(s1, s2, s3, lo, mid, hi, hi);
    SameOutsideTwice(s0, s1, s3, lo, lo, mid, hi);
  }

  lemma MergedChunksStep(chunks: seq<seq<Payload>>, lo: nat, hi: nat, less: Less)
    requires lo <= hi <= |chunks|
    ensures var mid := lo + (hi - lo) / 2;
      lo < mid ==> MergedChunks(chunks, lo, hi, less) ==
                   Merged(MergedChunks(chunks, lo, mid, less), MergedChunks(chunks, mid, hi, less), less)
  {
  }

  /** At most one chunk: it is sorted already. */
  lemma OneChunk(bytes: seq<byte>, used: nat, offsets: seq<nat>, chunks: seq<seq<Payload>>, lo: nat, hi: nat,
                 less: Less)
    requires ChunkedIn(bytes, used, offsets, chunks, lo, hi) && hi <= lo + 1
    ensures RegionIn(bytes, used, offsets[lo], offsets[hi], MergedChunks(chunks, lo, hi, less))
    ensures SameOutside(bytes, bytes, offsets[lo], offsets[hi])
  {
    OffsetsUp(bytes, used, offsets, chunks, lo, hi, lo, hi);
  }

  /** `b.Region` on the bytes alone. */
  ghost predicate RegionIn(bytes: seq<byte>, used: nat, at: nat, end: nat, rs: seq<Payload>) {
    at <= end <= used <= |bytes| && bytes[at..end] == Encode(rs) && Small(rs)
  }

  lemma RegionBytes(b: Buffer.Buffer, at: nat, end: nat, rs: seq<Payload>)
    requires b.Valid()
    ensures b.Region(at, end, rs) <==> RegionIn(b.buf[..], b.offset, at, end, rs)
  {
    if at <= end <= b.offset {
      assert b.buf[at..end] == b.buf[..][at..end];
    }
  }

  /** Chunk `i` lies between offsets `i` and `i + 1`. */
  ghost predicate ChunkedIn(bytes: seq<byte>, used: nat, offsets: seq<nat>, chunks: seq<seq<Payload>>, lo: nat,
                            hi: nat) {
    && |offsets| == |chunks| + 1 && lo <= hi <= |chunks| && offsets[lo] <= used <= |bytes|
    && forall i | lo <= i < hi :: RegionIn(bytes, used, offsets[i], offsets[i + 1], chunks[i])
  }

  lemma {:induction false} OffsetsUp(bytes: seq<byte>, used: nat, offsets: seq<nat>, chunks: seq<seq<Payload>>,
                                     lo: nat, hi: nat, i: nat, j: nat)
    requires ChunkedIn(bytes, used, offsets, chunks, lo, hi) && lo <= i <= j <= hi
    ensures offsets[lo] <= offsets[i] <= offsets[j] <= used
    decreases j
  {
    hide RegionIn;
    if j > lo {
      OffsetsUp(bytes, used, offsets, chunks, lo, hi, if i < j then i else lo, j - 1);
      RegionOrder(bytes, used, offsets[j - 1], offsets[j], chunks[j - 1]);
    }
  }

  lemma RegionOrder(bytes: seq<byte>, used: nat, at: nat, end: nat, rs: seq<Payload>)
    requires RegionIn(bytes, used, at, end, rs)
    ensures at <= end <= used
  {
  }

  lemma ChunkedPart(bytes: seq<byte>, used: nat, offsets: seq<nat>, chunks: seq<seq<Payload>>,
                    lo: nat, hi: nat, i: nat, j: nat)
    requires ChunkedIn(bytes, used, offsets, chunks, lo, hi) && lo <= i <= j <= hi
    ensures ChunkedIn(bytes, used, offsets, chunks, i, j)
    ensures offsets[lo] <= offsets[i] <= offsets[j] <= offsets[hi] <= used
  {
    hide RegionIn;
    OffsetsUp(bytes, used, offsets, chunks, lo, hi, i, j);
    OffsetsUp(bytes, used, offsets, chunks, lo, hi, j, hi);
  }

  lemma RegionKept(x: seq<byte>, y: seq<byte>, used: nat, at: nat, to: nat, rs: seq<Payload>, start: nat, end: nat)
    requires SameOutside(x, y, start, end) && RegionIn(x, used, at, to, rs) && (to <= start || end <= at)
    ensures RegionIn(y, used, at, to, rs)
  {
    OutsideRegion(x, y, start, end, at, to);
  }

  /** Changes elsewhere leave the chunks alone. */
  lemma ChunkedKept(x: seq<byte>, y: seq<byte>, used: nat, offsets: seq<nat>, chunks: seq<seq<Payload>>,
                    lo: nat, hi: nat, start: nat, end: nat)
    requires ChunkedIn(x, used, offsets, chunks, lo, hi) && SameOutside(x, y, start, end)
    requires offsets[hi] <= start || end <= offsets[lo]
    ensures ChunkedIn(y, used, offsets, chunks, lo, hi)
  {
    hide RegionIn, SameOutside;
    assert |x| == |y| by { SameLength(x, y, start, end); }
    forall i | lo <= i < hi
      ensures RegionIn(y, used, offsets[i], offsets[i + 1], chunks[i])
    {
      ChunkedPart(x, used, offsets, chunks, lo, hi, i, i + 1);
      RegionKept(x, y, used, offsets[i], offsets[i + 1], chunks[i], start, end);
    }
  }

  lemma SameLength(x: seq<byte>, y: seq<byte>, start: nat, end: nat)
    requires SameOutside(x, y, start, end)
    ensures |x| == |y|
  {
  }

  /** What sorting a range of chunks leaves: halves merged with halves. */
  function MergedChunks(chunks: seq<seq<Payload>>, lo: nat, hi: nat, less: Less): seq<Payload>
    requires lo <= hi <= |chunks|
    decreases hi - lo
  {
    var mid := lo + (hi - lo) / 2;
    if lo == hi then []
    else if lo == mid then chunks[lo]
    else Merged(MergedChunks(chunks, lo, mid, less), MergedChunks(chunks, mid, hi, less), less)
  }

  /** All records of all chunks. */
  function Flat(chunks: seq<seq<Payload>>): seq<Payload> {
    if chunks == [] then [] else Flat(chunks[..|chunks| - 1]) + chunks[|chunks| - 1]
  }

  /** Merging chunks keeps all their records. */
  lemma {:induction false} MergedChunksPermute(chunks: seq<seq<Payload>>, lo: nat, hi: nat, less: Less)
    requires lo <= hi <= |chunks|
    ensures multiset(MergedChunks(chunks, lo, hi, less)) == multiset(Flat(chunks[lo..hi]))
    decreases hi - lo
  {
    hide Flat, Merged, MergedChunks;
    var mid := lo + (hi - lo) / 2;
    MergedChunksStep(chunks, lo, hi, less);
    if lo == mid {
      FlatFew(chunks, lo, hi, less);
    } else {
      MergedChunksPermute(chunks, lo, mid, less);
      MergedChunksPermute(chunks, mid, hi, less);
      MergedPermutes(MergedChunks(chunks, lo, mid, less), MergedChunks(chunks, mid, hi, less), less);
      FlatSplit(chunks, lo, mid, hi);
    }
  }

  lemma FlatFew(chunks: seq<seq<Payload>>, lo: nat, hi: nat, less: Less)
    requires lo <= hi <= |chunks| && hi <= lo + 1
    ensures MergedChunks(chunks, lo, hi, less) == Flat(chunks[lo..hi])
  {
    if lo == hi {
      FlatNone();
    } else {
      assert chunks[lo..hi] == [chunks[lo]];
      FlatOne(chunks[lo]);
    }
  }

  lemma FlatSplit(chunks: seq<seq<Payload>>, lo: nat, mid: nat, hi: nat)
    requires lo <= mid <= hi <= |chunks|
    ensures multiset(Flat(chunks[lo..hi])) == multiset(Flat(chunks[lo..mid])) + multiset(Flat(chunks[mid..hi]))
  {
    assert chunks[lo..hi] == chunks[lo..mid] + chunks[mid..hi];
    FlatConcat(chunks[lo..mid], chunks[mid..hi]);
  }

  lemma FlatNone()
    ensures Flat([]) == []
  {
  }

  lemma FlatOne(c: seq<Payload>)
    ensures Flat([c]) == c
  {
    assert [c][..0] == [];
  }

  lemma {:induction false} FlatConcat(a: seq<seq<Payload>>, b: seq<seq<Payload>>)
    ensures Flat(a + b) == Flat(a) + Flat(b)
  {
    if b == [] {
      assert a + b == a;
    } else {
      FlatConcat(a, b[..|b| - 1]);
      assert (a + b)[..|a + b| - 1] == a + b[..|b| - 1];
    }
  }

  /** Chunks that are sorted merge into a sorted list. */
  lemma {:induction false} MergedChunksSorted(chunks: seq<seq<Payload>>, lo: nat, hi: nat, less: Less)
    requires lo <= hi <= |chunks| && StrictWeak(less)
    requires forall i | lo <= i < hi :: Sorted(chunks[i], less)
    ensures Sorted(MergedChunks(chunks, lo, hi, less), less)
    decreases hi - lo
  {
    hide Sorted, Merged, StrictWeak;
    var mid := lo + (hi - lo) / 2;
    if lo == hi {
      NothingSorted(less);
    } else if lo < mid {
      MergedChunksSorted(chunks, lo, mid, less);
      MergedChunksSorted(chunks, mid, hi, less);
      MergedSorted(MergedChunks(chunks, lo, mid, less), MergedChunks(chunks, mid, hi, less), less);
    }
  }

  /** Replacing a chunk by a permutation of it changes no multiset of records. */
  lemma {:induction false} FlatReplaced(chunks: seq<seq<Payload>>, i: nat, c: seq<Payload>)
    requires i < |chunks| && multiset(c) == multiset(chunks[i])
    ensures multiset(Flat(chunks[i := c])) == multiset(Flat(chunks))
  {
    var n := |chunks| - 1;
    var more := chunks[i := c];
    if i < n {
      FlatReplaced(chunks[..n], i, c);
      assert more[..n] == chunks[..n][i := c];
    } else {
      assert more[..n] == chunks[..n];
    }
  }

  lemma MergedStep(out: seq<Payload>, l: seq<Payload>, r: seq<Payload>, less: Less)
    requires l != [] && r != []
    ensures less(l[0], r[0]) ==> (out + [l[0]]) + Merged(l[1..], r, less) == out + Merged(l, r, less)
    ensures !less(l[0], r[0]) ==> (out + [r[0]]) + Merged(l, r[1..], less) == out + Merged(l, r, less)
  {
    MergedFront(l, r, less);
    hide Merged;
    if less(l[0], r[0]) {
      Reassociate(out, [l[0]], Merged(l[1..], r, less));
    } else {
      Reassociate(out, [r[0]], Merged(l, r[1..], less));
    }
  }

  lemma Reassociate(a: seq<Payload>, b: seq<Payload>, c: seq<Payload>)
    ensures (a + b) + c == a + (b + c)
  {
  }

  // ---- Sorting a stretch of a buffer ----

  const CHUNK: nat := 1024

  /** A new chunk, still empty, starts where the last one ended. */
  lemma NewChunk(bytes: seq<byte>, used: nat, offsets: seq<nat>, pos: nat, chunks: seq<seq<Payload>>)
    requires ChunkedIn(bytes, used, offsets + [pos], chunks, 0, |chunks|)
    ensures ChunkedIn(bytes, used, offsets + [pos] + [pos], chunks + [[]], 0, |chunks| + 1)
    ensures Flat(chunks + [[]]) == Flat(chunks)
  {
    hide Flat;
    OffsetsUp(bytes, used, offsets + [pos], chunks, 0, |chunks|, 0, |chunks|);
    FlatConcat(chunks, [[]]);
    FlatOne([]);
    var o, c := offsets + [pos] + [pos], chunks + [[]];
    forall i | 0 <= i < |c|
      ensures RegionIn(bytes, used, o[i], o[i + 1], c[i])
    {
      if i < |chunks| {
        assert RegionIn(bytes, used, (offsets + [pos])[i], (offsets + [pos])[i + 1], chunks[i]);
      }
    }
  }

  /** One more record for the last chunk. */
  lemma LongerChunk(bytes: seq<byte>, used: nat, offsets: seq<nat>, pos: nat, chunks: seq<seq<Payload>>, p: Payload)
    requires |chunks| > 0 && ChunkedIn(bytes, used, offsets + [pos], chunks, 0, |chunks|)
    requires RegionIn(bytes, used, pos, pos + 8 + |p|, [p])
    ensures var c := chunks[|chunks| - 1 := chunks[|chunks| - 1] + [p]];
      && ChunkedIn(bytes, used, offsets + [pos + 8 + |p|], c, 0, |chunks|)
      && Flat(c) == Flat(chunks) + [p]
  {
    var n := |chunks| - 1;
    var c := chunks[n := chunks[n] + [p]];
    var o := offsets + [pos + 8 + |p|];
    assert c[..n] == chunks[..n];
    assert Flat(c) == Flat(chunks[..n]) + (chunks[n] + [p]);
    assert RegionIn(bytes, used, (offsets + [pos])[n], (offsets + [pos])[n + 1], chunks[n]);
    RegionJoin(bytes, used, offsets[n], pos, pos + 8 + |p|, chunks[n], [p]);
    forall i | 0 <= i < |c|
      ensures RegionIn(bytes, used, o[i], o[i + 1], c[i])
    {
      if i < n {
        assert RegionIn(bytes, used, (offsets + [pos])[i], (offsets + [pos])[i + 1], chunks[i]);
      }
    }
  }

  lemma RegionJoin(bytes: seq<byte>, used: nat, a: nat, m: nat, c: nat, x: seq<Payload>, y: seq<Payload>)
    requires RegionIn(bytes, used, a, m, x) && RegionIn(bytes, used, m, c, y)
    ensures RegionIn(bytes, used, a, c, x + y)
  {
    EncodeConcat(x, y);
    assert bytes[a..c] == bytes[a..m] + bytes[m..c];
  }

  /** The record at the front of a region, as a region of its own. */
  lemma FrontRegion(b: Buffer.Buffer, at: nat, end: nat, rest: seq<Payload>)
    requires b.Valid() && at < end && b.Region(at, end, rest)
    ensures rest != [] && RegionIn(b.buf[..], b.offset, at, at + 8 + |rest[0]|, [rest[0]])
  {
    b.FirstAt(at, end, rest);
    EncodeOne(rest[0]);
    assert b.buf[at..at + 8 + |rest[0]|] == b.buf[..][at..at + 8 + |rest[0]|];
  }

  lemma NoChunks(bytes: seq<byte>, used: nat, start: nat)
    requires start <= used <= |bytes|
    ensures ChunkedIn(bytes, used, [start], [], 0, 0)
  {
  }

  lemma RegionWithin(b: Buffer.Buffer, at: nat, end: nat, rs: seq<Payload>)
    requires b.Valid() && b.Region(at, end, rs)
    ensures at <= end <= b.offset <= b.buf.Length
  {
  }

  /** Notes where every 1024th record starts, and the end. */
  method Chunk(b: Buffer.Buffer, start: nat, end: nat, ghost rs: seq<Payload>)
    returns (offsets: seq<nat>, ghost chunks: seq<seq<Payload>>)
    requires b.Valid() && start < end && b.Region(start, end, rs)
    ensures |chunks| > 0 && ChunkedIn(b.buf[..], b.offset, offsets, chunks, 0, |chunks|)
    ensures offsets[0] == start && offsets[|chunks|] == end && Flat(chunks) == rs
  {
    hide RegionIn, Flat, Encode, Small, ChunkedIn, Buffer.Buffer.Region, Buffer.Buffer.RecordAt;
    RegionWithin(b, start, end, rs);
    offsets, chunks := [], [];
    NoChunks(b.buf[..], b.offset, start);
    var next, count := start as int, 0;
    ghost var rest, pos: nat := rs, start;
    FlatNone();
    assert offsets + [pos] == [start];
    while 0 <= next < end
      invariant |offsets| == |chunks|
      invariant b.Region(pos, end, rest) && (next >= 0 ==> next == pos) && (next < 0 ==> rest == [])
      invariant ChunkedIn(b.buf[..], b.offset, offsets + [pos], chunks, 0, |chunks|)
      invariant Flat(chunks) + rest == rs
      invariant |chunks| > 0 ==> offsets[0] == start && offsets[|offsets| - 1] < end
      invariant |chunks| == 0 ==> count == 0 && next == start
      decreases |rest|
    {
      FrontRegion(b, pos, end, rest);
      if count % CHUNK == 0 {
        NewChunk(b.buf[..], b.offset, offsets, pos, chunks);
        offsets := offsets + [next];
        chunks := chunks + [[]];
      }
      b.FirstAt(pos, end, rest);
      RegionWithin(b, pos + 8 + |rest[0]|, end, rest[1..]);
      LongerChunk(b.buf[..], b.offset, offsets, pos, chunks, rest[0]);
      var slice;
      slice, next := b.Slice(next, rest[0]);
      chunks := chunks[|chunks| - 1 := chunks[|chunks| - 1] + [rest[0]]];
      pos := pos + 8 + |rest[0]|;
      assert Flat(chunks) + rest[1..] == rs;
      rest := rest[1..];
      count := count + 1;
    }
    RegionWithin(b, pos, end, rest);
    b.EmptyRegion(pos, end, rest);
    assert Flat(chunks) + [] == rs;
    if offsets[|offsets| - 1] != end {
      offsets := offsets + [end];
    }
  }

  /** The chunks of a stretch, part of them sorted already. */
  ghost predicate Chunks(s: SortHelper, chunks: seq<seq<Payload>>, done: nat, rs: seq<Payload>)
    requires s.b.Valid()
    reads s, s.b, s.b.buf
  {
    && |chunks| > 0 && s.Chunked(0, |chunks|, chunks) && done <= |chunks|
    && multiset(Flat(chunks)) == multiset(rs)
    && (StrictWeak(s.less) ==> forall i | 0 <= i < done :: Sorted(chunks[i], s.less))
  }

  /** Sorting one chunk keeps the others. */
  /** Replacing one chunk inside its own stretch keeps the others where they are. */
  lemma OneChunkReplaced(was: seq<byte>, now: seq<byte>, used: nat, offsets: seq<nat>, chunks: seq<seq<Payload>>,
                         done: nat, qs: seq<Payload>)
    requires done < |chunks| && ChunkedIn(was, used, offsets, chunks, 0, |chunks|)
    requires SameOutside(was, now, offsets[done], offsets[done + 1])
    requires RegionIn(now, used, offsets[done], offsets[done + 1], qs)
    ensures ChunkedIn(now, used, offsets, chunks[done := qs], 0, |chunks|)
  {
    hide RegionIn, SameOutside;
    var n, c := |chunks|, chunks[done := qs];
    SameLength(was, now, offsets[done], offsets[done + 1]);
    forall i | 0 <= i < n
      ensures RegionIn(now, used, offsets[i], offsets[i + 1], c[i])
    {
      if i < done {
        ChunkedPart(was, used, offsets, chunks, 0, n, i + 1, done);
        RegionKept(was, now, used, offsets[i], offsets[i + 1], chunks[i], offsets[done], offsets[done + 1]);
      } else if i > done {
        ChunkedPart(was, used, offsets, chunks, 0, n, done + 1, i);
        RegionKept(was, now, used, offsets[i], offsets[i + 1], chunks[i], offsets[done], offsets[done + 1]);
      }
    }
  }

  lemma ChunkSorted(s: SortHelper, was: seq<byte>, chunks: seq<seq<Payload>>, done: nat, rs: seq<Payload>,
                    qs: seq<Payload>)
    requires s.b.Valid() && done < |chunks| && ChunkedIn(was, s.b.offset, s.offsets, chunks, 0, |chunks|)
    requires multiset(Flat(chunks)) == multiset(rs) && multiset(qs) == multiset(chunks[done])
    requires SameOutside(was, s.b.buf[..], s.offsets[done], s.offsets[done + 1])
    requires RegionIn(s.b.buf[..], s.b.offset, s.offsets[done], s.offsets[done + 1], qs)
    requires StrictWeak(s.less) ==> Sorted(qs, s.less) && forall i | 0 <= i < done :: Sorted(chunks[i], s.less)
    ensures Chunks(s, chunks[done := qs], done + 1, rs)
  {
    hide RegionIn, SameOutside, Flat, Sorted, StrictWeak, ChunkedIn;
    FlatReplaced(chunks, done, qs);
    OneChunkReplaced(was, s.b.buf[..], s.b.offset, s.offsets, chunks, done, qs);
  }

  /** Sorts every chunk by itself. */
  method SortChunks(s: SortHelper, start: nat, end: nat, ghost chunks: seq<seq<Payload>>, ghost rs: seq<Payload>)
    returns (ghost sorted: seq<seq<Payload>>)
    requires s.Valid() && Chunks(s, chunks, 0, rs)
    requires s.offsets[0] == start && s.offsets[|chunks|] == end
    modifies s`small, s.b.buf, s.tmp, s.tmp.buf
    ensures s.Valid() && |sorted| == |chunks| && Chunks(s, sorted, |sorted|, rs)
    ensures s.b.buf == old(s.b.buf) && (s.tmp.buf == old(s.tmp.buf) || fresh(s.tmp.buf))
    ensures SameOutside(old(s.b.buf[..]), s.b.buf[..], start, end)
  {
    hide Flat, Sorted, StrictWeak, RegionIn, SameOutside;
    sorted := chunks;
    var left, i := s.offsets[0], 1;
    ChunkedPart(s.b.buf[..], s.b.offset, s.offsets, chunks, 0, |chunks|, 0, |chunks|);
    NothingChanged(s.b.buf[..], start, end);
    while i < |s.offsets|
      invariant 1 <= i <= |s.offsets| == |chunks| + 1 && left == s.offsets[i - 1] && |sorted| == |chunks|
      invariant s.Valid() && s.b.buf == old(s.b.buf) && (s.tmp.buf == old(s.tmp.buf) || fresh(s.tmp.buf))
      invariant Chunks(s, sorted, i - 1, rs)
      invariant SameOutside(old(s.b.buf[..]), s.b.buf[..], start, end)
    {
      sorted := SortChunk(s, i - 1, sorted, rs, old(s.b.buf[..]), start, end);
      left := s.offsets[i];
      i := i + 1;
    }
  }

  lemma NothingChanged(bytes: seq<byte>, start: nat, end: nat)
    requires start <= end <= |bytes|
    ensures SameOutside(bytes, bytes, start, end)
  {
  }

  method SortChunk(s: SortHelper, i: nat, ghost chunks: seq<seq<Payload>>, ghost rs: seq<Payload>,
                   ghost before: seq<byte>, ghost start: nat, ghost end: nat)
    returns (ghost sorted: seq<seq<Payload>>)
    requires s.Valid() && i < |chunks| && Chunks(s, chunks, i, rs)
    requires s.offsets[0] == start && s.offsets[|chunks|] == end && SameOutside(before, s.b.buf[..], start, end)
    modifies s`small, s.b.buf, s.tmp, s.tmp.buf
    ensures s.Valid() && |sorted| == |chunks| && Chunks(s, sorted, i + 1, rs)
    ensures s.b.buf == old(s.b.buf) && (s.tmp.buf == old(s.tmp.buf) || fresh(s.tmp.buf))
    ensures SameOutside(before, s.b.buf[..], start, end)
  {
    hide Flat, Sorted, StrictWeak, RegionIn, SameOutside, Encode, Small;
    ghost var was := s.b.buf[..];
    ChunkedPart(was, s.b.offset, s.offsets, chunks, 0, |chunks|, i, i + 1);
    RegionBytes(s.b, s.offsets[i], s.offsets[i + 1], chunks[i]);
    ghost var qs := s.SortSmall(s.offsets[i], s.offsets[i + 1], chunks[i]);
    RegionBytes(s.b, s.offsets[i], s.offsets[i + 1], qs);
    ChunkSorted(s, was, chunks, i, rs, qs);
    sorted := chunks[i := qs];
    WidenInside(before, was, s.b.buf[..], s.offsets[i], s.offsets[i + 1], start, end);
  }

  lemma WidenInside(x: seq<byte>, y: seq<byte>, z: seq<byte>, i: nat, j: nat, a: nat, c: nat)
    requires SameOutside(x, y, a, c) && SameOutside(y, z, i, j) && a <= i <= j <= c
    ensures SameOutside(x, z, a, c)
  {
    SameOutsideWiden(y, z, i, j, a, c);
    SameOutsideTwice(x, y, z, a, a, c, c);
  }

  /**
   * Sorts the records between two offsets. Whatever the comparison, the same records come out
   * and no byte outside changes; if it is a strict weak order, they are sorted.
   */
  method SortSliceBetween(b: Buffer.Buffer, start: nat, end: nat, less: Less, ghost rs: seq<Payload>)
    returns (ok: bool, ghost qs: seq<Payload>)
    requires b.Valid() && (0 < start < end ==> b.Region(start, end, rs))
    modifies b.buf
    ensures b.Valid() && ok == (start >= end || start > 0)
    ensures start == 0 || start >= end ==> b.buf[..] == old(b.buf[..])
    ensures 0 < start < end ==>
      && b.Region(start, end, qs) && multiset(qs) == multiset(rs)
      && SameOutside(old(b.buf[..]), b.buf[..], start, end)
      && (StrictWeak(less) ==> Sorted(qs, less))
  {
    hide Flat, Sorted, StrictWeak, RegionIn, SameOutside, Encode, Small, MergedChunks;
    qs := rs;
    if start >= end {
      return true, rs;
    }
    if start == 0 {
      return false, rs;
    }
    var offsets;
    ghost var chunks;
    offsets, chunks := Chunk(b, start, end, rs);
    var tmp := new Buffer.Buffer((end - start) / 2);
    var s := new SortHelper(b, tmp, less);
    s.offsets := offsets;
    ghost var before := b.buf[..];
    ghost var sorted := SortChunks(s, start, end, chunks, rs);
    ghost var between := b.buf[..];
    s.Sort(0, |offsets| - 1, sorted);
    qs := MergedChunks(sorted, 0, |sorted|, less);
    MergedChunksPermute(sorted, 0, |sorted|, less);
    assert sorted[0..|sorted|] == sorted;
    if StrictWeak(less) {
      MergedChunksSorted(sorted, 0, |sorted|, less);
    }
    WidenInside(before, between, b.buf[..], start, end, start, end);
    ok := true;
  }
}
