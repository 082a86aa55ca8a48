/** The growable buffer of z/buffer.go, in plain memory. */
module Buffer {
  import opened Powers
  import opened Records

  const DEFAULT_CAPACITY: nat := 64
  const PADDING: nat := 8
  const GIGABYTE: nat := 0x4000_0000

  /** The slices that iterating visits, empty ones left out, up to the first the callback fails on. */
  function VisitedSlices(rs: seq<Payload>, fails: Payload -> bool): (seq<Payload>, bool) {
    if rs == [] then ([], false)
    else if rs[0] == [] then VisitedSlices(rs[1..], fails)
    else if fails(rs[0]) then ([rs[0]], true)
    else
      var (v, e) := VisitedSlices(rs[1..], fails);
      ([rs[0]] + v, e)
  }

  function NonEmpty(rs: seq<Payload>): seq<Payload> {
    if rs == [] then []
    else if rs[0] == [] then NonEmpty(rs[1..])
    else [rs[0]] + NonEmpty(rs[1..])
  }

  /** `NonEmpty` leaves out exactly the empty slices and keeps the order of the others. */
  lemma {:induction false} NonEmptyIs(a: seq<Payload>, b: seq<Payload>)
    ensures NonEmpty(a + b) == NonEmpty(a) + NonEmpty(b)
    ensures forall p: Payload :: NonEmpty([p]) == if p == [] then [] else [p]
    ensures NonEmpty([]) == []
  {
    NonEmptyOne();
    hide NonEmpty;
    if a == [] {
      assert a + b == b;
    } else {
      NonEmptyIs(a[1..], b);
      assert (a + b)[1..] == a[1..] + b && (a + b)[0] == a[0];
      NonEmptyFront(a);
      NonEmptyFront(a + b);
      if a[0] != [] {
        FrontKept(a[0], NonEmpty(a[1..]), NonEmpty(b));
      }
    }
  }

  lemma NonEmptyOne()
    ensures forall p: Payload :: NonEmpty([p]) == if p == [] then [] else [p]
    ensures NonEmpty([]) == []
  {
  }

  lemma NonEmptyFront(rs: seq<Payload>)
    requires rs != []
    ensures NonEmpty(rs) == if rs[0] == [] then NonEmpty(rs[1..]) else [rs[0]] + NonEmpty(rs[1..])
  {
  }

  lemma FrontKept(p: Payload, x: seq<Payload>, y: seq<Payload>)
    ensures [p] + (x + y) == ([p] + x) + y
  {
  }

  /** Record `i` is the first one, empty ones left out, that the callback fails on. */
  predicate FirstFailure(rs: seq<Payload>, fails: Payload -> bool, i: nat) {
    i < |rs| && rs[i] != [] && fails(rs[i]) && forall j | 0 <= j < i :: rs[j] == [] || !fails(rs[j])
  }

  predicate FailsNowhere(rs: seq<Payload>, fails: Payload -> bool) {
    forall i | 0 <= i < |rs| :: rs[i] == [] || !fails(rs[i])
  }

  /** Iterating stops behind the first failure, or goes through all. */
  lemma {:induction false} VisitedUpTo(rs: seq<Payload>, fails: Payload -> bool) returns (i: nat)
    ensures var (v, failed) := VisitedSlices(rs, fails);
      if failed then FirstFailure(rs, fails, i) && v == NonEmpty(rs[..i + 1])
      else FailsNowhere(rs, fails) && v == NonEmpty(rs)
  {
    i := 0;
    if rs != [] {
      if rs[0] != [] && fails(rs[0]) {
        assert rs[..1] == [rs[0]];
      } else {
        i := VisitedUpTo(rs[1..], fails);
        assert forall j | 0 < j < |rs| :: rs[j] == rs[1..][j - 1];
        if VisitedSlices(rs, fails).1 {
          assert rs[..i + 2][1..] == rs[1..][..i + 1];
          i := i + 1;
        }
      }
    }
  }

  lemma FailedIff(rs: seq<Payload>, fails: Payload -> bool, i: nat)
    requires FirstFailure(rs, fails, i) || FailsNowhere(rs, fails)
    ensures FirstFailure(rs, fails, i) ==> exists j | 0 <= j < |rs| :: rs[j] != [] && fails(rs[j])
    ensures FailsNowhere(rs, fails) <==> !exists j | 0 <= j < |rs| :: rs[j] != [] && fails(rs[j])
  {
  }

  /** What was visited before, and then the rest. */
  function Behind(visited: seq<Payload>, rest: (seq<Payload>, bool)): (seq<Payload>, bool) {
    (visited + rest.0, rest.1)
  }

  lemma VisitedNothing(fails: Payload -> bool, rs: seq<Payload>)
    ensures VisitedSlices([], fails) == ([], false)
    ensures VisitedSlices(rs, fails) == Behind([], VisitedSlices(rs, fails))
    ensures forall v: seq<Payload> :: Behind(v, ([], false)) == (v, false)
  {
    var all := VisitedSlices(rs, fails).0;
    assert [] + all == all;
    forall v: seq<Payload>
      ensures Behind(v, ([], false)) == (v, false)
    {
      assert v + [] == v;
    }
  }

  lemma VisitedStep(v: seq<Payload>, rest: seq<Payload>, fails: Payload -> bool)
    requires rest != []
    ensures var all, more := Behind(v, VisitedSlices(rest, fails)), VisitedSlices(rest[1..], fails);
      if rest[0] == [] then all == Behind(v, more)
      else if fails(rest[0]) then all == (v + [rest[0]], true)
      else all == Behind(v + [rest[0]], more)
  {
    FrontBehind(v, rest[0], VisitedSlices(rest[1..], fails).0);
  }

  lemma FrontBehind(v: seq<Payload>, p: Payload, more: seq<Payload>)
    ensures v + ([p] + more) == (v + [p]) + more
  {
  }

  /** A callback that never fails sees exactly the slices that are not empty, in order. */
  lemma {:induction false} VisitsAll(rs: seq<Payload>, fails: Payload -> bool)
    requires forall i | 0 <= i < |rs| :: !fails(rs[i])
    ensures VisitedSlices(rs, fails) == (NonEmpty(rs), false)
  {
    if rs != [] {
      VisitsAll(rs[1..], fails);
    }
  }

  /** Where each record starts, the first one at `at`. */
  function Starts(rs: seq<Payload>, at: int): (s: seq<int>)
    ensures |s| == |rs|
  {
    if rs == [] then [] else [at] + Starts(rs[1..], at + 8 + |rs[0]|)
  }

  /** Each record starts right behind the one before. */
  lemma {:induction false} StartsAt(rs: seq<Payload>, at: int)
    ensures rs != [] ==> Starts(rs, at)[0] == at
    ensures forall i | 0 <= i < |rs| - 1 :: Starts(rs, at)[i + 1] == Starts(rs, at)[i] + 8 + |rs[i]|
  {
    if rs != [] {
      var more := at + 8 + |rs[0]|;
      StartsAt(rs[1..], more);
      forall i | 0 <= i < |rs| - 1
        ensures Starts(rs, at)[i + 1] == Starts(rs, at)[i] + 8 + |rs[i]|
      {
        assert Starts(rs, at)[i + 1] == Starts(rs[1..], more)[i];
        if i > 0 {
          assert Starts(rs, at)[i] == Starts(rs[1..], more)[i - 1] && rs[i] == rs[1..][i - 1];
        }
      }
    }
  }

  lemma StartsStep(all: seq<int>, done: seq<int>, rest: seq<Payload>, at: int)
    requires rest != [] && all == done + Starts(rest, at)
    ensures all == (done + [at]) + Starts(rest[1..], at + 8 + |rest[0]|)
    ensures rest[1..] == [] ==> all == done + [at]
  {
    var tail := Starts(rest[1..], at + 8 + |rest[0]|);
    assert Starts(rest, at) == [at] + tail;
    hide Starts;
    assert done + ([at] + tail) == (done + [at]) + tail;
    if rest[1..] == [] {
      assert (done + [at]) + [] == done + [at];
    }
  }

  class Buffer {
    var offset: nat
    var buf: array<byte>
    var curSz: nat
    var maxSz: nat

    ghost predicate Valid()
      reads this
    {
      buf.Length == curSz && PADDING <= offset <= curSz
    }

    /** All bytes that are in use, padding included. */
    ghost function Used(): seq<byte>
      requires Valid()
      reads this, buf
    {
      buf[..offset]
    }

    ghost function Data(): seq<byte>
      requires Valid()
      reads this, buf
    {
      buf[PADDING..offset]
    }

    constructor (capacity: nat)
      ensures Valid() && fresh(buf) && Data() == [] && maxSz == 0
    {
      var c := if capacity < DEFAULT_CAPACITY then DEFAULT_CAPACITY else capacity;
      buf := new byte[c](i => 0);
      curSz, offset, maxSz := c, PADDING, 0;
    }

    /** Would adding `n` bytes stay below the size limit. */
    ghost predicate Allows(n: nat)
      reads this
    {
      maxSz == 0 || offset + n <= maxSz
    }

    /** Makes room for `n` more bytes and moves those in use, or panics if that exceeds the limit. */
    method Grow(n: nat) returns (ok: bool)
      requires Valid()
      modifies this
      ensures Valid() && offset == old(offset) && maxSz == old(maxSz)
      ensures ok == old(Allows(n)) == (maxSz == 0 || offset + n <= maxSz)
      ensures ok ==> offset + n <= curSz && old(curSz) <= curSz
      ensures !ok || offset + n < old(curSz) ==> curSz == old(curSz) && buf == old(buf)
      ensures ok && offset + n >= old(curSz) ==>
        var more := if old(curSz) + n > 0x4000_0000 then 0x4000_0000 else old(curSz) + n;
        curSz == old(curSz) + if n > more then n else more
      ensures Used() == old(Used()) && (buf == old(buf) || fresh(buf))
    {
      if maxSz > 0 && offset + n > maxSz {
        return false;
      }
      if offset + n < curSz {
        return true;
      }
      var growBy := curSz + n;
      if growBy > GIGABYTE {
        growBy := GIGABYTE;
      }
      if n > growBy {
        growBy := n;
      }
      curSz := curSz + growBy;
      var newBuf := new byte[curSz](i => 0);
      forall i | 0 <= i < offset {
        newBuf[i] := buf[i];
      }
      buf := newBuf;
      return true;
    }

    /** Hands out the next `n` bytes and says where they are. */
    method Allocate(n: nat) returns (ok: bool, off: nat)
      requires Valid()
      modifies this
      ensures Valid() && maxSz == old(maxSz) && off == old(offset) && offset == old(offset) + (if ok then n else 0)
      ensures ok == old(Allows(n)) && buf[..off] == old(Used()) && (buf == old(buf) || fresh(buf))
    {
      off := offset;
      ok := Grow(n);
      if ok {
        offset := offset + n;
      }
    }

    /** Writes bytes over others that are in use. */
    method CopyAt(at: nat, p: seq<byte>)
      requires Valid() && at + |p| <= buf.Length
      modifies buf
      ensures buf[..at] == old(buf[..at]) && buf[at..at + |p|] == p && buf[at + |p|..] == old(buf[at + |p|..])
      ensures forall i | 0 <= i < buf.Length && !(at <= i < at + |p|) :: buf[i] == old(buf[i])
    {
      forall i | 0 <= i < |p| {
        buf[at + i] := p[i];
      }
    }

    method Write(p: seq<byte>) returns (ok: bool)
      requires Valid()
      modifies this, buf
      ensures Valid() && maxSz == old(maxSz) && ok == old(Allows(|p|)) && (buf == old(buf) || fresh(buf))
      ensures Used() == old(Used()) + (if ok then p else [])
      ensures Data() == old(Data()) + (if ok then p else [])
    {
      ok := Grow(|p|);
      if ok {
        CopyAt(offset, p);
        offset := offset + |p|;
        assert buf[..offset] == old(Used()) + p;
        assert Data() == Used()[PADDING..];
      } else {
        assert Data() == Used()[PADDING..];
      }
    }

    method WriteLen(sz: nat) returns (ok: bool)
      requires Valid()
      modifies this, buf
      ensures Valid() && maxSz == old(maxSz) && ok == old(Allows(8)) && (buf == old(buf) || fresh(buf))
      ensures Used() == old(Used()) + (if ok then Put64(sz) else [])
    {
      hide Put64;
      var off;
      ok, off := Allocate(8);
      if ok {
        CopyAt(off, Put64(sz));
        assert buf[..off] == old(Used());
        assert buf[..offset] == buf[..off] + buf[off..off + 8];
      }
    }

    /** A length and then room for as many bytes. */
    method SliceAllocate(sz: nat) returns (ok: bool, off: nat)
      requires Valid()
      modifies this, buf
      ensures Valid() && maxSz == old(maxSz) && ok == old(Allows(8 + sz)) && (buf == old(buf) || fresh(buf))
      ensures ok ==> off == old(offset) + 8 && offset == off + sz && buf[..off] == old(Used()) + Put64(sz)
      ensures !ok ==> Used() == old(Used())
    {
      ok := Grow(8 + sz);
      if !ok {
        return false, offset;
      }
      ok := WriteLen(sz);
      ok, off := Allocate(sz);
    }

    static lemma RecordAppended(was: seq<byte>, length: seq<byte>, p: Payload, now: seq<byte>)
      requires |was| >= PADDING && length == Put64(|p|) && now == was + length + p
      ensures now[PADDING..] == was[PADDING..] + Record(p)
    {
      hide Put64;
    }

    /** Appends one record. */
    method WriteSlice(p: Payload) returns (ok: bool)
      requires Valid()
      modifies this, buf
      ensures Valid() && maxSz == old(maxSz) && ok == old(Allows(8 + |p|)) && (buf == old(buf) || fresh(buf))
      ensures Data() == old(Data()) + (if ok then Record(p) else [])
    {
      var off;
      ok, off := SliceAllocate(|p|);
      hide Put64;
      if ok {
        CopyAt(off, p);
        assert buf[..offset] == buf[..off] + buf[off..off + |p|];
        assert buf[..off] == old(Used()) + Put64(|p|);
        RecordAppended(old(Used()), Put64(|p|), p, Used());
      }
      assert Data() == Used()[PADDING..] && old(Data()) == old(Used())[PADDING..];
    }

    /** What was written as records is read back as records. */
    lemma Appended(was: seq<byte>, rs: seq<Payload>, p: Payload)
      requires Valid() && was == Encode(rs) && Small(rs) && |p| < WORD && Data() == was + Record(p)
      ensures Region(PADDING, offset, rs + [p])
    {
      EncodeConcat(rs, [p]);
      EncodeOne(p);
    }

    method Reset()
      requires Valid()
      modifies `offset
      ensures Valid() && Data() == []
    {
      offset := PADDING;
    }

    /** From `at` to `end`, the bytes are these records. */
    ghost predicate Region(at: nat, end: nat, rs: seq<Payload>)
      requires Valid()
      reads this, buf
    {
      at <= end <= offset && buf[at..end] == Encode(rs) && Small(rs)
    }

    /** At an offset there is this record. */
    ghost predicate RecordAt(off: nat, p: Payload)
      requires Valid()
      reads this, buf
    {
      off + 8 + |p| <= offset && buf[off..off + 8 + |p|] == Record(p) && |p| < WORD
    }

    /** The record at an offset, and where the next one starts, or -1 if it is the last. */
    method Slice(off: nat, ghost p: Payload) returns (res: Payload, next: int)
      requires Valid() && (off < offset ==> RecordAt(off, p))
      ensures off >= offset ==> res == [] && next == -1
      ensures off < offset ==> res == p && next == if off + 8 + |p| >= offset then -1 else off + 8 + |p|
    {
      if off >= offset {
        return [], -1;
      }
      RecordBytes(off, p);
      var sz := Get64(buf[off..]);
      var start := off + 8;
      next := start + sz;
      res := buf[start..next];
      if next >= offset {
        next := -1;
      }
    }

    lemma RecordBytes(off: nat, p: Payload)
      requires Valid() && RecordAt(off, p)
      ensures Get64(buf[off..]) == |p| && buf[off + 8..off + 8 + |p|] == p
    {
      GetPut(|p|, p);
      var s := buf[off..off + 8 + |p|];
      assert buf[off..][..8] == s[..8] == Put64(|p|);
      assert buf[off + 8..off + 8 + |p|] == s[8..];
    }

    /** A region that is not empty starts with its first record and goes on with the others. */
    lemma FirstAt(off: nat, end: nat, rs: seq<Payload>)
      requires Valid() && off < end && Region(off, end, rs)
      ensures rs != [] && RecordAt(off, rs[0]) && Region(off + 8 + |rs[0]|, end, rs[1..])
      ensures off + 8 + |rs[0]| == end <==> rs[1..] == []
    {
      var s := buf[off..end];
      FirstOf(s, rs);
      hide Encode, Record;
      var n := |rs[0]|;
      assert s[..8 + n] == buf[off..off + 8 + n];
      assert s[8 + n..] == buf[off + 8 + n..end];
    }

    static lemma FirstOf(s: seq<byte>, rs: seq<Payload>)
      requires s == Encode(rs) && Small(rs) && s != []
      ensures rs != [] && 8 + |rs[0]| <= |s| && |rs[0]| < WORD && Small(rs[1..])
      ensures s[..8 + |rs[0]|] == Record(rs[0]) && s[8 + |rs[0]|..] == Encode(rs[1..])
      ensures |s| == 8 + |rs[0]| <==> rs[1..] == []
    {
      FirstRecord(rs);
      if rs[1..] != [] {
        FirstRecord(rs[1..]);
      }
    }

    lemma EmptyRegion(at: nat, end: nat, rs: seq<Payload>)
      requires Valid() && Region(at, end, rs)
      ensures at == end <==> rs == []
    {
      if rs != [] {
        FirstRecord(rs);
      }
    }

    lemma NothingLeft(end: nat, rs: seq<Payload>)
      requires Valid() && Region(end, end, rs)
      ensures rs == []
    {
      EmptyEncoding(rs);
    }

    /** Calls back with every record that is not empty, in order, until one fails. */
    method SliceIterate(fails: Payload -> bool, ghost rs: seq<Payload>) returns (visited: seq<Payload>, failed: bool)
      requires Valid() && Region(PADDING, offset, rs)
      ensures (visited, failed) == VisitedSlices(rs, fails)
      ensures failed <==> exists i | 0 <= i < |rs| :: rs[i] != [] && fails(rs[i])
      ensures failed ==> exists i: nat :: FirstFailure(rs, fails, i) && visited == NonEmpty(rs[..i + 1])
      ensures !failed ==> visited == NonEmpty(rs)
    {
      hide VisitedSlices, NonEmpty, FirstFailure, Encode, Record;
      ghost var at := VisitedUpTo(rs, fails);
      FailedIff(rs, fails, at);
      visited, failed := [], false;
      VisitedNothing(fails, rs);
      if offset == PADDING {
        EmptyEncoding(rs);
        return;
      }
      var next := PADDING as int;
      ghost var rest := rs;
      while next >= 0
        invariant next >= 0 ==> next < offset && Region(next, offset, rest)
        invariant next < 0 ==> rest == []
        invariant !failed && VisitedSlices(rs, fails) == Behind(visited, VisitedSlices(rest, fails))
        decreases |rest|, next
      {
        FirstAt(next, offset, rest);
        VisitedStep(visited, rest, fails);
        var slice;
        slice, next := Slice(next, rest[0]);
        rest := rest[1..];
        if |slice| == 0 {
          continue;
        }
        visited := visited + [slice];
        if fails(slice) {
          return visited, true;
        }
      }
    }

    lemma FirstOffset(rs: seq<Payload>)
      requires Valid() && Region(PADDING, offset, rs)
      ensures rs == [] <==> offset == PADDING
      ensures rs == [] ==> Starts(rs, PADDING) == []
    {
      if rs != [] {
        FirstRecord(rs);
      }
    }

    /** The start of every record; the padding's end once more if there is none. */
    method SliceOffsets(ghost rs: seq<Payload>) returns (offsets: seq<int>)
      requires Valid() && Region(PADDING, offset, rs)
      ensures offsets == if rs == [] then [PADDING] else Starts(rs, PADDING)
      ensures |offsets| == (if rs == [] then 1 else |rs|) && offsets[0] == PADDING
      ensures forall i | 0 <= i < |rs| - 1 :: offsets[i + 1] == offsets[i] + 8 + |rs[i]|
    {
      StartsAt(rs, PADDING);
      hide Starts, Encode, Small;
      offsets := [];
      var next := PADDING as int;
      ghost var rest := rs;
      FirstOffset(rs);
      while next >= 0
        invariant next >= 0 && rs != [] ==> next < offset && Region(next, offset, rest)
        invariant next >= 0 && rs == [] ==> next == PADDING == offset && offsets == [] && rest == []
        invariant next < 0 ==> rest == []
        invariant rs != [] && next >= 0 ==> Starts(rs, PADDING) == offsets + Starts(rest, next)
        invariant rs != [] && next < 0 ==> Starts(rs, PADDING) == offsets
        invariant rs == [] && next < 0 ==> offsets == [PADDING]
        decreases |rest|, next
      {
        if rest != [] {
          StartsStep(Starts(rs, PADDING), offsets, rest, next);
        }
        offsets := offsets + [next];
        if next < offset {
          FirstAt(next, offset, rest);
        }
        var slice;
        slice, next := Slice(next, if rest != [] then rest[0] else []);
        if rest != [] {
          rest := rest[1..];
        }
      }
    }
  }

  lemma EmptyEncoding(rs: seq<Payload>)
    requires Encode(rs) == []
    ensures rs == []
  {
  }

  /** After any sequence of writes, through any growth, iterating yields exactly the non-empty slices in order. */
  method WriteAndIterate(b: Buffer, ps: seq<Payload>) returns (ok: bool, visited: seq<Payload>)
    requires b.Valid() && b.Data() == [] && Small(ps)
    modifies b, b.buf
    ensures b.maxSz == 0 ==> ok
    ensures ok ==> visited == NonEmpty(ps)
  {
    for i := 0 to |ps|
      invariant b.Valid() && b.Region(PADDING, b.offset, ps[..i])
      invariant b.maxSz == old(b.maxSz) && (b.buf == old(b.buf) || fresh(b.buf))
    {
      ghost var was := b.Data();
      ok := b.WriteSlice(ps[i]);
      if !ok {
        return false, [];
      }
      b.Appended(was, ps[..i], ps[i]);
      assert ps[..i + 1] == ps[..i] + [ps[i]];
    }
    assert ps[..|ps|] == ps;
    VisitsAll(ps, _ => false);
    var failed;
    visited, failed := b.SliceIterate(_ => false, ps);
    ok := true;
  }
}
