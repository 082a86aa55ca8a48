/** The expiration index of ttl.go: keys by the five-second bucket they expire in. */
module Ttl {

  // A time is in nanoseconds since the Unix epoch; ZERO_TIME is Go's zero time, the start of the year 1.
  type Time = int

  const SECOND := 1_000_000_000
  const ZERO_TIME: Time := -62_135_596_800 * SECOND
  const BUCKET_SECONDS := 5

  function Unix(t: Time): int { t / SECOND }

  /** Go's division, which rounds toward zero. */
  function Quotient(a: int, b: int): int
    requires b > 0
  {
    if a >= 0 then a / b else -(-a / b)
  }

  function StorageBucket(t: Time): int {
    Quotient(Unix(t), BUCKET_SECONDS) + 1
  }

  /** One behind the storage bucket, so that nothing in it can still be valid. */
  function CleanupBucket(t: Time): int {
    StorageBucket(t) - 1
  }

  /** What is in a bucket that may be cleaned has expired strictly before now. */
  lemma CleanedIsExpired(e: Time, now: Time)
    requires StorageBucket(e) <= CleanupBucket(now)
    ensures e < now
  {
  }

  /** What expires now or later is in no bucket that may be cleaned. */
  lemma NotYetCleaned(e: Time, now: Time)
    requires e >= now
    ensures StorageBucket(e) > CleanupBucket(now)
  {
  }

  /** What expired ten seconds ago, two bucket widths, is in a bucket that may be cleaned. */
  lemma LongExpired(e: Time, now: Time)
    requires e + 10 * SECOND <= now
    ensures StorageBucket(e) <= CleanupBucket(now)
  {
    assert Unix(e) + 10 <= Unix(now);
  }

  type Bucket = map<int, int>
  type Buckets = map<int, Bucket>

  /** The buckets that a key is in, with the conflict hash recorded there. */
  ghost function Places(bs: Buckets, key: int): map<int, int> {
    map b | b in bs && key in bs[b] :: bs[b][key]
  }

  function BucketOr(bs: Buckets, b: int): Bucket {
    if b in bs then bs[b] else map[]
  }

  /** With the key put into bucket `b`. */
  ghost function With(bs: Buckets, b: int, key: int, conflict: int): Buckets {
    bs[b := BucketOr(bs, b)[key := conflict]]
  }

  /** With the key taken out of bucket `b`. */
  ghost function Without(bs: Buckets, b: int, key: int): Buckets {
    if b in bs then bs[b := bs[b] - {key}] else bs
  }

  lemma PlacesWith(bs: Buckets, b: int, key: int, conflict: int)
    ensures Places(With(bs, b, key, conflict), key) == Places(bs, key)[b := conflict]
    ensures forall k | k != key :: Places(With(bs, b, key, conflict), k) == Places(bs, k)
  {
  }

  lemma PlacesWithout(bs: Buckets, b: int, key: int)
    ensures Places(Without(bs, b, key), key) == Places(bs, key) - {b}
    ensures forall k | k != key :: Places(Without(bs, b, key), k) == Places(bs, k)
  {
  }

  class ExpirationMap {
    var buckets: Buckets
    var lastCleaned: int

    constructor (now: Time)
      ensures buckets == map[] && lastCleaned == CleanupBucket(now)
    {
      buckets, lastCleaned := map[], CleanupBucket(now);
    }

    method Add(key: int, conflict: int, expiration: Time)
      modifies `buckets
      ensures buckets ==
        if expiration == ZERO_TIME then old(buckets) else With(old(buckets), StorageBucket(expiration), key, conflict)
    {
      if expiration == ZERO_TIME {
        return;
      }
      var bucketNum := StorageBucket(expiration);
      if bucketNum !in buckets {
        buckets := buckets[bucketNum := map[]];
      }
      buckets := buckets[bucketNum := buckets[bucketNum][key := conflict]];
    }

    method Update(key: int, conflict: int, oldExpiration: Time, newExpiration: Time)
      modifies `buckets
      ensures var bs := Without(old(buckets), StorageBucket(oldExpiration), key);
        buckets == if newExpiration == ZERO_TIME then bs else With(bs, StorageBucket(newExpiration), key, conflict)
    {
      var oldBucketNum := StorageBucket(oldExpiration);
      if oldBucketNum in buckets {
        buckets := buckets[oldBucketNum := buckets[oldBucketNum] - {key}];
      }
      if newExpiration == ZERO_TIME {
        return;
      }
      var newBucketNum := StorageBucket(newExpiration);
      if newBucketNum !in buckets {
        buckets := buckets[newBucketNum := map[]];
      }
      buckets := buckets[newBucketNum := buckets[newBucketNum][key := conflict]];
    }

    method Del(key: int, expiration: Time)
      modifies `buckets
      ensures buckets == Without(old(buckets), StorageBucket(expiration), key)
    {
      var bucketNum := StorageBucket(expiration);
      if bucketNum !in buckets {
        return;
      }
      buckets := buckets[bucketNum := buckets[bucketNum] - {key}];
    }

    /** Takes all buckets after the last cleaned one, up to the one that is over now. */
    method TakeBuckets(now: Time) returns (todo: seq<Bucket>, ghost nums: seq<int>)
      modifies this
      ensures lastCleaned == CleanupBucket(now)
      ensures buckets == map b | b in old(buckets) && !(old(lastCleaned) < b <= CleanupBucket(now)) :: old(buckets)[b]
      ensures |nums| == |todo|
      ensures forall i | 0 <= i < |nums| ::
        old(lastCleaned) < nums[i] <= CleanupBucket(now) && nums[i] in old(buckets) && todo[i] == old(buckets)[nums[i]]
      ensures forall b | b in old(buckets) && old(lastCleaned) < b <= CleanupBucket(now) :: b in nums
      ensures forall i, j | 0 <= i < j < |nums| :: nums[i] != nums[j]
    {
      hide CleanupBucket;
      var current := CleanupBucket(now);
      todo, nums := [], [];
      var bucketNum := lastCleaned + 1;
      while bucketNum <= current
        invariant lastCleaned == old(lastCleaned) < bucketNum
        invariant bucketNum <= current + 1 || bucketNum == lastCleaned + 1
        invariant buckets == map b | b in old(buckets) && !(lastCleaned < b < bucketNum) :: old(buckets)[b]
        invariant |nums| == |todo|
        invariant forall i | 0 <= i < |nums| ::
          lastCleaned < nums[i] < bucketNum && nums[i] in old(buckets) && todo[i] == old(buckets)[nums[i]]
        invariant forall b | b in old(buckets) && lastCleaned < b < bucketNum :: b in nums
        invariant forall i, j | 0 <= i < j < |nums| :: nums[i] != nums[j]
        modifies `buckets
        decreases current - bucketNum
      {
        if bucketNum in buckets {
          todo := todo + [buckets[bucketNum]];
          nums := nums + [bucketNum];
        }
        buckets := buckets - {bucketNum};
        bucketNum := bucketNum + 1;
      }
      lastCleaned := current;
    }

    method Clear(now: Time)
      modifies this
      ensures buckets == map[] && lastCleaned == CleanupBucket(now)
    {
      buckets, lastCleaned := map[], CleanupBucket(now);
    }
  }
}
