/** Length-prefixed records, as z/buffer.go lays them out in bytes. */
module Records {
  import opened Powers

  type byte = b: int | 0 <= b < 256

  type Payload = seq<byte>

  // ---- Big-endian 64-bit numbers ----

  /** The low `k` bytes of a number, the highest first. */
  function Digits(n: nat, k: nat): (s: seq<byte>)
    ensures |s| == k
  {
    if k == 0 then [] else Digits(n / 256, k - 1) + [n % 256]
  }

  function Number(s: seq<byte>): nat {
    if s == [] then 0 else Number(s[..|s| - 1]) * 256 + s[|s| - 1]
  }

  function Power(k: nat): (p: nat)
    ensures p > 0
  {
    if k == 0 then 1 else 256 * Power(k - 1)
  }

  lemma {:induction false} NumberOfDigits(n: nat, k: nat)
    requires n < Power(k)
    ensures Number(Digits(n, k)) == n
  {
    if k > 0 {
      NumberOfDigits(n / 256, k - 1);
      assert Digits(n, k)[..k - 1] == Digits(n / 256, k - 1);
    }
  }

  function Put64(n: nat): (s: seq<byte>)
    ensures |s| == 8
  {
    Digits(n, 8)
  }

  function Get64(s: seq<byte>): nat
    requires |s| >= 8
  {
    Number(s[..8])
  }

  lemma Power8()
    ensures Power(8) == WORD
  {
    assert Power(4) == 0x1_0000_0000;
    assert Power(8) == 256 * (256 * (256 * (256 * Power(4))));
  }

  lemma GetPut(n: nat, rest: seq<byte>)
    requires n < WORD
    ensures Get64(Put64(n) + rest) == n
  {
    Power8();
    NumberOfDigits(n, 8);
    assert (Put64(n) + rest)[..8] == Put64(n);
  }

  /** The bytes of a length, the most significant first. */
  lemma {:induction false} DigitAt(n: nat, k: nat, i: nat)
    requires i < k
    ensures Digits(n, k)[i] == n / Power(k - 1 - i) % 256
    decreases k
  {
    if i < k - 1 {
      DigitAt(n / 256, k - 1, i);
      QuotientTwice(n, Power(k - 2 - i));
    }
  }

  lemma QuotientTwice(n: nat, p: nat)
    requires p > 0
    ensures n / 256 / p == n / (256 * p)
  {
    var q, r, d := n / 256 / p, n / 256 % p, 256 * p;
    assert n / 256 == q * p + r;
    assert n == d * q + (256 * r + n % 256);
    RemainderIs(n, d, q, 256 * r + n % 256);
    assert d * (q - n / d) == 0;
    NoMultiple(d, q - n / d);
  }

  lemma PutBytes(n: nat)
    ensures forall i | 0 <= i < 8 :: Put64(n)[i] == n / Pow2(8 * (7 - i)) % 256
  {
    forall i | 0 <= i < 8
      ensures Put64(n)[i] == n / Pow2(8 * (7 - i)) % 256
    {
      DigitAt(n, 8, i);
      PowerIs(7 - i);
    }
  }

  lemma {:induction false} PowerIs(k: nat)
    ensures Power(k) == Pow2(8 * k)
  {
    hide Pow2;
    Pow2Small();
    if k == 0 {
      Pow2Adds(8, 0);
    } else {
      PowerIs(k - 1);
      Pow2Adds(8, 8 * (k - 1));
    }
  }

  // ---- Records ----

  function Record(p: Payload): (s: seq<byte>)
    ensures |s| == 8 + |p|
  {
    Put64(|p|) + p
  }

  function Encode(rs: seq<Payload>): seq<byte> {
    if rs == [] then [] else Record(rs[0]) + Encode(rs[1..])
  }

  /** Go's lengths fit in a word. */
  ghost predicate Small(rs: seq<Payload>) {
    forall i | 0 <= i < |rs| :: |rs[i]| < WORD
  }

  lemma EncodeFront(rs: seq<Payload>)
    requires rs != []
    ensures Encode(rs) == Record(rs[0]) + Encode(rs[1..])
  {
  }

  lemma Regroup(a: seq<byte>, b: seq<byte>, c: seq<byte>)
    ensures (a + b) + c == a + (b + c)
  {
  }

  lemma {:induction false} EncodeConcat(rs: seq<Payload>, qs: seq<Payload>)
    ensures Encode(rs + qs) == Encode(rs) + Encode(qs)
  {
    hide Record;
    if rs == [] {
      assert rs + qs == qs;
    } else {
      EncodeConcat(rs[1..], qs);
      EncodeFront(rs + qs);
      EncodeFront(rs);
      assert (rs + qs)[1..] == rs[1..] + qs;
      Regroup(Record(rs[0]), Encode(rs[1..]), Encode(qs));
    }
  }

  lemma EncodeOne(p: Payload)
    ensures Encode([p]) == Record(p)
  {
    assert [p][1..] == [];
  }

  /** The record at the front of an encoding. */
  lemma FirstRecord(rs: seq<Payload>)
    requires rs != [] && |rs[0]| < WORD
    ensures var s := Encode(rs);
      && |s| >= 8 && Get64(s) == |rs[0]| && 8 + |rs[0]| <= |s|
      && s[8..8 + |rs[0]|] == rs[0] && s[..8 + |rs[0]|] == Record(rs[0]) && s[8 + |rs[0]|..] == Encode(rs[1..])
  {
    var p := rs[0];
    GetPut(|p|, p + Encode(rs[1..]));
    assert Encode(rs) == Put64(|p|) + (p + Encode(rs[1..]));
  }

  /** Reading records off the front gives back exactly what was encoded. */
  function Decode(s: seq<byte>): seq<Payload>
  {
    if |s| < 8 || |s| < 8 + Get64(s) then []
    else [s[8..8 + Get64(s)]] + Decode(s[8 + Get64(s)..])
  }

  lemma {:induction false} DecodeEncode(rs: seq<Payload>)
    requires Small(rs)
    ensures Decode(Encode(rs)) == rs
  {
    if rs != [] {
      FirstRecord(rs);
      DecodeEncode(rs[1..]);
    }
  }

  /** So an encoding determines its records. */
  lemma EncodeInjective(rs: seq<Payload>, qs: seq<Payload>)
    requires Small(rs) && Small(qs) && Encode(rs) == Encode(qs)
    ensures rs == qs
  {
    DecodeEncode(rs);
    DecodeEncode(qs);
  }

  // ---- Orders ----

  type Less = (Payload, Payload) -> bool

  /** A strict weak order: not being less is transitive, and nothing is less both ways. */
  ghost predicate StrictWeak(less: Less) {
    && (forall a, b :: less(a, b) ==> !less(b, a))
    && (forall a, b, c :: !less(a, b) && !less(b, c) ==> !less(a, c))
  }

  ghost predicate Sorted(rs: seq<Payload>, less: Less) {
    forall i, j | 0 <= i < j < |rs| :: !less(rs[j], rs[i])
  }

  /** Merging two lists; of equal elements the right one goes first. */
  function Merged(l: seq<Payload>, r: seq<Payload>, less: Less): seq<Payload>
    decreases |l| + |r|
  {
    if l == [] then r
    else if r == [] then l
    else if less(l[0], r[0]) then [l[0]] + Merged(l[1..], r, less)
    else [r[0]] + Merged(l, r[1..], less)
  }

  lemma {:induction false} MergedPermutes(l: seq<Payload>, r: seq<Payload>, less: Less)
    ensures multiset(Merged(l, r, less)) == multiset(l) + multiset(r)
    decreases |l| + |r|
  {
    if l != [] && r != [] {
      var left := less(l[0], r[0]);
      var l', r' := if left then l[1..] else l, if left then r else r[1..];
      var x := if left then l[0] else r[0];
      MergedPermutes(l', r', less);
      MergedFront(l, r, less);
      hide Merged;
      FrontOf(x, l', Merged(l', r', less));
      FrontOf(x, r', []);
      assert if left then l == [x] + l' else r == [x] + r';
    }
  }

  lemma MergedFront(l: seq<Payload>, r: seq<Payload>, less: Less)
    requires l != [] && r != []
    ensures Merged(l, r, less) ==
      if less(l[0], r[0]) then [l[0]] + Merged(l[1..], r, less) else [r[0]] + Merged(l, r[1..], less)
  {
  }

  lemma FrontOf(x: Payload, a: seq<Payload>, b: seq<Payload>)
    ensures multiset([x] + a) == multiset{x} + multiset(a) && multiset([x] + b) == multiset{x} + multiset(b)
  {
  }

  /** Nothing in the list is below `x`. */
  ghost predicate AboveAll(x: Payload, rs: seq<Payload>, less: Less) {
    forall i | 0 <= i < |rs| :: !less(rs[i], x)
  }

  lemma {:induction false} MergedAbove(x: Payload, l: seq<Payload>, r: seq<Payload>, less: Less)
    requires AboveAll(x, l, less) && AboveAll(x, r, less)
    ensures AboveAll(x, Merged(l, r, less), less)
    decreases |l| + |r|
  {
    if l != [] && r != [] {
      if less(l[0], r[0]) {
        MergedAbove(x, l[1..], r, less);
      } else {
        MergedAbove(x, l, r[1..], less);
      }
    }
  }

  lemma SortedCons(x: Payload, rs: seq<Payload>, less: Less)
    requires Sorted(rs, less) && AboveAll(x, rs, less)
    ensures Sorted([x] + rs, less)
  {
  }

  lemma {:induction false} MergedSorted(l: seq<Payload>, r: seq<Payload>, less: Less)
    requires StrictWeak(less) && Sorted(l, less) && Sorted(r, less)
    ensures Sorted(Merged(l, r, less), less)
    decreases |l| + |r|
  {
    if l != [] && r != [] {
      if less(l[0], r[0]) {
        MergedSorted(l[1..], r, less);
        assert AboveAll(l[0], r, less) by { HeadsBelow(l[0], r, less); }
        MergedAbove(l[0], l[1..], r, less);
        SortedCons(l[0], Merged(l[1..], r, less), less);
      } else {
        MergedSorted(l, r[1..], less);
        assert AboveAll(r[0], l, less) by { HeadsBelow(r[0], l, less); }
        MergedAbove(r[0], l, r[1..], less);
        SortedCons(r[0], Merged(l, r[1..], less), less);
      }
    }
  }

  lemma HeadsBelow(x: Payload, rs: seq<Payload>, less: Less)
    requires StrictWeak(less) && rs != [] && Sorted(rs, less) && !less(rs[0], x)
    ensures AboveAll(x, rs, less)
  {
    forall i | 0 <= i < |rs|
      ensures !less(rs[i], x)
    {
      if i > 0 {
        assert !less(rs[i], rs[0]);
      }
    }
  }
}
