/** Sharding engine: the arithmetic of range shards, and whether a routed key finds its shard. */
module ShardingModel {
  import opened Arithmetic
  import opened SetFacts

  datatype Result = Shard(index: int) | KeyOutOfRange | DivisionByZero

  /** The range rule: inclusive bounds, a shard size rounded down, and no upper clamp. */
  function RangeShard(num: int, first: int, last: int, shardCount: nat): Result {
    if !(first <= num <= last) then KeyOutOfRange
    else if shardCount == 0 then Shard(0)
    else
      var shardRange := (last - first + 1) / shardCount;
      if shardRange == 0 then DivisionByZero else Shard((num - first) / shardRange)
  }

  function Size(first: int, last: int, shardCount: nat): int
    requires shardCount > 0
  {
    (last - first + 1) / shardCount
  }

  lemma MulDiv(a: int, b: int, q: int)
    requires b > 0 && b * q <= a < b * (q + 1)
    ensures a / b == q
  {
    assert b * (q + 1) == b * q + b;
    DivisionIsUnique(a, b, q, a - b * q);
  }

  /** The rule divides by zero exactly for an in-range key when there are more shards than keys. */
  lemma DividesByZeroExactly(num: int, first: int, last: int, shardCount: nat)
    ensures RangeShard(num, first, last, shardCount) == DivisionByZero
            <==> first <= num <= last && last - first + 1 < shardCount
  {
  }

  /** MAIN RESULT. The keys of a shard are one block of consecutive keys, blocks follow one another
      in order, and each is a shard size long (clipped to the range). */
  lemma ShardIsABlock(num: int, first: int, last: int, shardCount: nat, i: int)
    requires 1 <= shardCount <= last - first + 1 && first <= num <= last
    ensures var size := Size(first, last, shardCount);
            size >= 1 &&
            (RangeShard(num, first, last, shardCount) == Shard(i) <==> first + size * i <= num < first + size * (i + 1))
  {
    var size := Size(first, last, shardCount);
    DivBounds(last - first + 1, shardCount);
    MulOrder(shardCount, size);
    DivBounds(num - first, size);
    if first + size * i <= num < first + size * (i + 1) {
      MulDiv(num - first, size, i);
    }
  }

  /** A later key never goes to an earlier shard. */
  lemma RangeIsMonotone(a: int, b: int, first: int, last: int, shardCount: nat)
    requires 1 <= shardCount <= last - first + 1 && first <= a <= b <= last
    ensures var x, y := RangeShard(a, first, last, shardCount), RangeShard(b, first, last, shardCount);
            x.Shard? && y.Shard? && 0 <= x.index <= y.index
  {
    var size := Size(first, last, shardCount);
    DividesByZeroExactly(a, first, last, shardCount);
    var x, y := (a - first) / size, (b - first) / size;
    DivBounds(a - first, size);
    DivBounds(b - first, size);
    assert size * (x - y) < size;
    MulOrder(size, x - y);
    MulOrder(size, x);
  }

  /** The keys the rule sends to a shard. */
  function KeysOf(first: int, last: int, shardCount: nat, i: int): set<int> {
    set num | num in Interval(first, last + 1) && RangeShard(num, first, last, shardCount) == Shard(i)
  }

  lemma SizesFit(first: int, last: int, shardCount: nat, i: int)
    requires 1 <= shardCount <= last - first + 1 && 0 <= i < shardCount
    ensures var size := Size(first, last, shardCount);
            0 <= size * i && size * i + size <= size * shardCount <= last - first + 1
  {
    var size := Size(first, last, shardCount);
    DivBounds(last - first + 1, shardCount);
    assert shardCount * size == size * shardCount;
    MulOrder(shardCount, size);
    assert size * (shardCount - (i + 1)) == size * shardCount - (size * i + size);
    if i + 1 < shardCount {
      MulOrder(size, shardCount - (i + 1));
    }
    MulOrder(size, i);
  }

  lemma KeyIsInBlock(num: int, first: int, last: int, shardCount: nat, i: int)
    requires 1 <= shardCount <= last - first + 1 && 0 <= i < shardCount
    ensures var size := Size(first, last, shardCount); var lo := first + size * i;
            num in KeysOf(first, last, shardCount, i) <==> lo <= num < lo + size
  {
    var size := Size(first, last, shardCount);
    SizesFit(first, last, shardCount, i);
    assert size * (i + 1) == size * i + size;
    if first <= num <= last {
      ShardIsABlock(num, first, last, shardCount, i);
    }
  }

  lemma KeysAreABlock(first: int, last: int, shardCount: nat, i: int, size: int) returns (lo: int)
    requires 1 <= shardCount <= last - first + 1 && 0 <= i < shardCount && size == Size(first, last, shardCount)
    ensures KeysOf(first, last, shardCount, i) == Interval(lo, lo + size)
  {
    lo := first + size * i;
    forall num ensures num in KeysOf(first, last, shardCount, i) <==> num in Interval(lo, lo + size) {
      KeyIsInBlock(num, first, last, shardCount, i);
    }
  }

  lemma BlockSize(keys: set<int>, lo: int, size: int)
    requires keys == Interval(lo, lo + size) && size >= 0
    ensures |keys| == size
  {
    IntervalSize(lo, lo + size);
  }

  /** MAIN RESULT. Every proper shard gets exactly a shard size of keys. */
  lemma EveryShardGetsItsSize(first: int, last: int, shardCount: nat, i: int)
    requires 1 <= shardCount <= last - first + 1 && 0 <= i < shardCount
    ensures |KeysOf(first, last, shardCount, i)| == Size(first, last, shardCount)
  {
    var size := Size(first, last, shardCount);
    var lo := KeysAreABlock(first, last, shardCount, i, size);
    BlockSize(KeysOf(first, last, shardCount, i), lo, size);
  }

  /** The keys sent past the last shard. */
  function StrayKeys(first: int, last: int, shardCount: nat): set<int> {
    set num | num in Interval(first, last + 1) &&
              var r := RangeShard(num, first, last, shardCount); r.Shard? && r.index >= shardCount
  }

  lemma StrayExactly(num: int, first: int, last: int, shardCount: nat)
    requires 1 <= shardCount <= last - first + 1
    ensures num in StrayKeys(first, last, shardCount) <==>
              first + shardCount * Size(first, last, shardCount) <= num <= last
  {
    var size := Size(first, last, shardCount);
    if first <= num <= last {
      DividesByZeroExactly(num, first, last, shardCount);
      var i := (num - first) / size;
      DivBounds(num - first, size);
      DivBounds(last - first + 1, shardCount);
      MulOrder(shardCount, size);
      assert size * (i - shardCount) == size * i - shardCount * size;
      assert size * (i + 1 - shardCount) == size * (i + 1) - shardCount * size;
      MulOrder(size, i - shardCount);
      MulOrder(size, i + 1 - shardCount);
    }
  }

  /** MAIN RESULT. Over all inputs, a key gets the index of a proper shard exactly when there are
      shards, no more of them than keys, and the key is in the part of the range that the rounded-down
      shards cover. */
  lemma KeyFindsShardExactly(num: int, first: int, last: int, shardCount: nat)
    ensures (exists i :: 0 <= i < shardCount && RangeShard(num, first, last, shardCount) == Shard(i))
            <==> && 1 <= shardCount <= last - first + 1
                 && first <= num < first + shardCount * Size(first, last, shardCount)
  {
    if 1 <= shardCount <= last - first + 1 {
      var size := Size(first, last, shardCount);
      DivBounds(last - first + 1, shardCount);
      if first <= num <= last {
        StrayExactly(num, first, last, shardCount);
        RangeIsMonotone(num, num, first, last, shardCount);
        assert RangeShard(num, first, last, shardCount) == Shard((num - first) / size);
      }
    } else {
      DividesByZeroExactly(num, first, last, shardCount);
    }
  }

  lemma StraysAreTheTail(first: int, last: int, shardCount: nat) returns (lo: int)
    requires 1 <= shardCount <= last - first + 1
    ensures lo == first + shardCount * Size(first, last, shardCount) <= last + 1
    ensures StrayKeys(first, last, shardCount) == Interval(lo, last + 1)
  {
    DivBounds(last - first + 1, shardCount);
    lo := first + shardCount * Size(first, last, shardCount);
    forall num ensures num in StrayKeys(first, last, shardCount) <==> num in Interval(lo, last + 1) {
      StrayExactly(num, first, last, shardCount);
    }
  }

  lemma StrayCount(first: int, last: int, shardCount: nat)
    requires 1 <= shardCount <= last - first + 1
    ensures |StrayKeys(first, last, shardCount)| == last - first + 1 - shardCount * Size(first, last, shardCount)
  {
    var lo := StraysAreTheTail(first, last, shardCount);
    IntervalSize(lo, last + 1);
  }

  /** MAIN RESULT. The remainder of the division is what goes past the last shard; so all keys have
      a proper shard exactly when the shard count divides the number of keys. */
  lemma StraysAreTheRemainder(first: int, last: int, shardCount: nat)
    requires 1 <= shardCount <= last - first + 1
    ensures |StrayKeys(first, last, shardCount)| == (last - first + 1) % shardCount
    ensures StrayKeys(first, last, shardCount) == {} <==> (last - first + 1) % shardCount == 0
  {
    StrayCount(first, last, shardCount);
    DivBounds(last - first + 1, shardCount);
  }

  /** A shard index never exceeds twice the shard count minus two ... */
  lemma IndexIsBounded(num: int, first: int, last: int, shardCount: nat)
    requires 1 <= shardCount <= last - first + 1 && first <= num <= last
    ensures RangeShard(num, first, last, shardCount).Shard?
    ensures RangeShard(num, first, last, shardCount).index <= 2 * shardCount - 2
  {
    var keys, size := last - first + 1, Size(first, last, shardCount);
    DividesByZeroExactly(num, first, last, shardCount);
    DivBounds(keys, shardCount);
    MulOrder(shardCount, size);
    var i := (num - first) / size;
    DivBounds(num - first, size);
    assert size * i <= keys - 1;
    assert shardCount * (size + 1) == size * shardCount + shardCount;
    assert size * (i - shardCount) == size * i - size * shardCount;
    assert size * (i - shardCount) <= shardCount - 2 + (if shardCount == 1 then 1 else 0);
    MulOrder(size, i - shardCount);
  }

  /** ... and reaches it when there is one key fewer than two per shard. */
  lemma IndexBoundIsReached(shardCount: nat)
    requires shardCount >= 1
    ensures RangeShard(2 * shardCount - 2, 0, 2 * shardCount - 2, shardCount) == Shard(2 * shardCount - 2)
  {
    MulDiv(2 * shardCount - 1, shardCount, 1);
  }

  // ---- finding the shard

  /** The hash is an unsigned 32-bit number, so its conversion to int is not negative. */
  const HASHES: int := 0x1_0000_0000

  function HashShard(hash: nat, shardCount: nat): (i: int)
    ensures 0 <= i && (shardCount == 0 ==> i == 0) && (shardCount > 0 ==> i < shardCount)
  {
    if shardCount == 0 then 0 else hash % shardCount
  }

  function Proper(shardCount: nat): set<int> {
    Interval(0, shardCount)
  }

  ghost predicate AllHashesFind(ids: set<int>) {
    forall h: nat :: h < HASHES ==> HashShard(h, |ids|) in ids
  }

  lemma SmallHashIsItself(ids: set<int>, i: nat)
    requires i < |ids| <= HASHES && AllHashesFind(ids)
    ensures i in ids
  {
    DivisionIsUnique(i, |ids|, 0, i);
    assert HashShard(i, |ids|) in ids;
  }

  /** MAIN RESULT. Every hash finds a registered shard exactly when the registered identifiers are
      0, 1, 2, ... without a gap. */
  lemma HashFindsShardExactly(ids: set<int>)
    requires 0 < |ids| <= HASHES
    ensures AllHashesFind(ids) <==> ids == Proper(|ids|)
  {
    var n := |ids|;
    if AllHashesFind(ids) {
      forall i | i in Proper(n) ensures i in ids {
        SmallHashIsItself(ids, i);
      }
      IntervalSize(0, n);
      FullSubset(Proper(n), ids);
    }
    if ids == Proper(n) {
      forall h: nat | h < HASHES ensures HashShard(h, n) in ids {
      }
    }
  }

  /** Every key of the range is given the identifier of a registered shard. */
  ghost predicate AllKeysFind(ids: set<int>, first: int, last: int) {
    forall num :: first <= num <= last ==> KeyFinds(ids, num, first, last)
  }

  predicate KeyFinds(ids: set<int>, num: int, first: int, last: int) {
    var r := RangeShard(num, first, last, |ids|);
    r.Shard? && r.index in ids
  }

  lemma BlockStart(first: int, last: int, shardCount: nat, i: nat)
    requires 1 <= shardCount <= last - first + 1 && i < shardCount
    ensures var num := first + Size(first, last, shardCount) * i;
            first <= num <= last && RangeShard(num, first, last, shardCount) == Shard(i)
  {
    var size := Size(first, last, shardCount);
    SizesFit(first, last, shardCount, i);
    KeyIsInBlock(first + size * i, first, last, shardCount, i);
  }

  lemma FindingNeedsShards(ids: set<int>, first: int, last: int)
    requires first <= last && AllKeysFind(ids, first, last)
    ensures 1 <= |ids| <= last - first + 1
  {
    assert KeyFinds(ids, first, first, last);
    DividesByZeroExactly(first, first, last, |ids|);
  }

  lemma FindingFillsIds(ids: set<int>, first: int, last: int)
    requires first <= last && AllKeysFind(ids, first, last)
    ensures ids == Proper(|ids|)
  {
    FindingNeedsShards(ids, first, last);
    forall i | i in Proper(|ids|) ensures i in ids {
      BlockStart(first, last, |ids|, i);
      assert KeyFinds(ids, first + Size(first, last, |ids|) * i, first, last);
    }
    IntervalSize(0, |ids|);
    FullSubset(Proper(|ids|), ids);
  }

  /** MAIN RESULT. Every key of a range rule finds a registered shard exactly when there are no keys,
      or the identifiers are 0, 1, 2, ... without a gap and their number divides that of the keys. */
  lemma RangeFindsShardExactly(ids: set<int>, first: int, last: int)
    ensures AllKeysFind(ids, first, last)
            <==> last < first || (|ids| > 0 && ids == Proper(|ids|) && (last - first + 1) % |ids| == 0)
  {
    var n := |ids|;
    if first <= last && AllKeysFind(ids, first, last) {
      FindingNeedsShards(ids, first, last);
      FindingFillsIds(ids, first, last);
      StraysAreTheRemainder(first, last, n);
      forall num | first <= num <= last ensures num !in StrayKeys(first, last, n) {
        assert KeyFinds(ids, num, first, last);
      }
    }
    if first <= last && n > 0 && ids == Proper(n) && (last - first + 1) % n == 0 {
      DividedCount(last - first + 1, n);
      StraysAreTheRemainder(first, last, n);
      forall num | first <= num <= last ensures KeyFinds(ids, num, first, last) {
        RangeIsMonotone(num, num, first, last, n);
        assert num !in StrayKeys(first, last, n);
      }
    }
  }

  lemma DividedCount(a: int, n: int)
    requires a > 0 && n > 0 && a % n == 0
    ensures n <= a
  {
  }

  /** Removing a shard keeps that property exactly when it is the last one (or was not there). */
  lemma RemoveKeepsProperExactly(ids: set<int>, id: int)
    requires ids == Proper(|ids|)
    ensures ids - {id} == Proper(|ids - {id}|) <==> id !in ids || id == |ids| - 1
  {
  }
}
