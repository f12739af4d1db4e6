/**
 The arithmetic of paged queries: how a page's offset and size are split over shards.
 */
module Paging {
  import opened Arithmetic

  const PAGE_UNIT: nat := 1000  // the engine's own page size, which decides how many shards are read
  const DEFAULT_SIZE: nat := 100

  function EffectiveSize(pageSize: int): (size: nat)
    ensures 1 <= size <= 1000
    ensures size == if 1 <= pageSize <= 1000 then pageSize else 100
  {
    if pageSize <= 0 || pageSize > 1000 then DEFAULT_SIZE else pageSize
  }

  function PageOffset(page: int, size: nat): (offset: nat)
  {
    var offset := (page - 1) * size;
    if offset < 0 then 0 else offset
  }

  function ShardsNeeded(offset: nat, size: nat, unit: nat, shardCount: nat): (needed: nat)
    requires unit > 0
    ensures needed <= shardCount
  {
    var needed := (offset + size + unit - 1) / unit;
    if needed > shardCount then shardCount else needed
  }

  function ShardOffset(offset: nat, shardCount: nat, shard: nat): nat
    requires shardCount > 0
  {
    offset / shardCount + if offset % shardCount > shard then 1 else 0
  }

  function ShardLimit(size: nat, shardCount: nat): nat
    requires shardCount > 0
  {
    size / shardCount + 1
  }

  // The page number that is reported
  lemma PageNumber(page: int, size: nat)
    requires size > 0
    ensures PageOffset(page, size) / size + 1 == if page < 1 then 1 else page
  {
    assert page < 1 ==> (page - 1) * size <= 0;
    DivisionUnique(PageOffset(page, size), size, if page < 1 then 0 else page - 1, 0);
  }

  // ---------- The offset is dealt out to the shards in turn ----------

  // How many of the first k rows fall to one shard when rows are dealt out in turn
  function Dealt(k: nat, shardCount: nat, shard: nat): nat
    requires shardCount > 0
  {
    if k == 0 then 0 else Dealt(k - 1, shardCount, shard) + if (k - 1) % shardCount == shard then 1 else 0
  }

  /** A shard skips exactly the rows that would have been dealt to it. */
  lemma {:induction false} OffsetIsDealt(offset: nat, shardCount: nat, shard: nat)
    requires shard < shardCount
    ensures ShardOffset(offset, shardCount, shard) == Dealt(offset, shardCount, shard)
    decreases offset
  {
    if offset > 0 {
      OffsetIsDealt(offset - 1, shardCount, shard);
      NextDivision(offset - 1, shardCount);
    } else {
      DivisionUnique(0, shardCount, 0, 0);
    }
  }

  function SumOffsets(offset: nat, shardCount: nat, shards: nat): nat
    requires shardCount > 0
  {
    if shards == 0 then 0 else SumOffsets(offset, shardCount, shards - 1) + ShardOffset(offset, shardCount, shards - 1)
  }

  lemma {:induction false} OneMoreDealt(k: nat, shardCount: nat, shards: nat)
    requires shards <= shardCount && shardCount > 0
    ensures SumOffsets(k + 1, shardCount, shards)
         == SumOffsets(k, shardCount, shards) + if k % shardCount < shards then 1 else 0
    decreases shards
  {
    if shards > 0 {
      OneMoreDealt(k, shardCount, shards - 1);
      OffsetIsDealt(k, shardCount, shards - 1);
      OffsetIsDealt(k + 1, shardCount, shards - 1);
    }
  }

  lemma {:induction false} NoOffset(shardCount: nat, shards: nat)
    requires shardCount > 0
    ensures SumOffsets(0, shardCount, shards) == 0
    decreases shards
  {
    DivisionUnique(0, shardCount, 0, 0);
    if shards > 0 {
      NoOffset(shardCount, shards - 1);
    }
  }

  /** Over all shards the skipped rows add up to the offset. */
  lemma {:induction false} OffsetSplitIsExact(offset: nat, shardCount: nat)
    requires shardCount > 0
    ensures SumOffsets(offset, shardCount, shardCount) == offset
    decreases offset
  {
    if offset == 0 {
      NoOffset(shardCount, shardCount);
    } else {
      OffsetSplitIsExact(offset - 1, shardCount);
      OneMoreDealt(offset - 1, shardCount, shardCount);
    }
  }

  /** Over all shards the limits allow for more than a page. */
  lemma LimitsCoverPage(size: nat, shardCount: nat)
    requires shardCount > 0
    ensures shardCount * ShardLimit(size, shardCount) > size
  {
    assert shardCount * (size / shardCount + 1) == shardCount * (size / shardCount) + shardCount;
  }

  // ---------- Successive pages ----------

  lemma OffsetGrows(k: nat, d: nat, n: nat, s: nat)
    requires d < n && s < n
    ensures ShardOffset(k, n, s) <= ShardOffset(k + d, n, s) <= ShardOffset(k, n, s) + 1
  {
    var q, r := k / n, k % n;
    if r + d < n {
      DivisionUnique(k + d, n, q, r + d);
    } else {
      assert k + d == n * (q + 1) + (r + d - n) by {
        assert n * (q + 1) == n * q + n;
      }
      DivisionUnique(k + d, n, q + 1, r + d - n);
    }
  }

  lemma OffsetShifts(k: nat, m: nat, n: nat, s: nat)
    requires n > 0
    ensures ShardOffset(k + n * m, n, s) == ShardOffset(k, n, s) + m
  {
    var q, r := k / n, k % n;
    assert n * (q + m) == n * q + n * m;
    DivisionUnique(k + n * m, n, q + m, r);
  }

  lemma NextPageOffset(page: int, size: nat)
    ensures PageOffset(page + 1, size) == PageOffset(page, size) || PageOffset(page + 1, size) == PageOffset(page, size) + size
  {
    assert (page + 1 - 1) * size == (page - 1) * size + size;
    assert page <= 0 ==> page * size <= 0;
    assert page >= 1 ==> (page - 1) * size >= 0;
  }

  /** From one page to the next a shard's window moves on, but never past its own end. */
  lemma WindowsLeaveNoHole(page: int, size: nat, shardCount: nat, shard: nat)
    requires shard < shardCount
    ensures var start := ShardOffset(PageOffset(page, size), shardCount, shard);
      start <= ShardOffset(PageOffset(page + 1, size), shardCount, shard) <= start + ShardLimit(size, shardCount)
  {
    NextPageOffset(page, size);
    OffsetAfter(PageOffset(page, size), size, shardCount, shard);
  }

  lemma OffsetAfter(k: nat, size: nat, shardCount: nat, shard: nat)
    requires shard < shardCount
    ensures var start := ShardOffset(k, shardCount, shard);
      start <= ShardOffset(k + size, shardCount, shard) <= start + ShardLimit(size, shardCount)
  {
    QuotientNatural(size, shardCount);
    var m: nat, d: nat := size / shardCount, size % shardCount;
    OffsetGrows(k, d, shardCount, shard);
    OffsetShifts(k + d, m, shardCount, shard);
    assert size == shardCount * m + d;
  }

  /** A shard read for one page is read for the next one too. */
  lemma ShardsNeverShrink(page: int, size: nat, unit: nat, shardCount: nat)
    requires unit > 0
    ensures ShardsNeeded(PageOffset(page, size), size, unit, shardCount)
         <= ShardsNeeded(PageOffset(page + 1, size), size, unit, shardCount)
  {
    NextPageOffset(page, size);
    var k, k' := PageOffset(page, size), PageOffset(page + 1, size);
    DivMonotone(k + size + unit - 1, k' + size + unit - 1, unit);
  }

  // ---------- All pages of one size ----------

  // The first row a page asks of a shard
  function Start(page: int, size: nat, shardCount: nat, shard: nat): nat
    requires shardCount > 0
  {
    ShardOffset(PageOffset(page, size), shardCount, shard)
  }

  /** The page asks the shard for its row of the given rank. */
  predicate Fetches(page: int, size: nat, unit: nat, shardCount: nat, shard: nat, rank: nat)
    requires unit > 0 && shardCount > 0
  {
    && shard < ShardsNeeded(PageOffset(page, size), size, unit, shardCount)
    && Start(page, size, shardCount, shard) <= rank < Start(page, size, shardCount, shard) + ShardLimit(size, shardCount)
  }

  // The first page for which a shard is read
  function FirstReader(size: nat, unit: nat, shard: nat): int
    requires size > 0
  {
    unit * shard / size + 1
  }

  lemma QuotientBelow(x: nat, m: nat, q: int)
    requires m > 0
    ensures x / m < q <==> x < m * q
  {
    var d := q - x / m;
    assert m * q == m * (x / m) + m * d;
    assert d >= 1 ==> m * d >= m;
    assert d <= 0 ==> m * d <= 0;
  }

  lemma ReadsShard(k: nat, size: nat, unit: nat, shardCount: nat, shard: nat)
    requires unit > 0 && shard < shardCount
    ensures shard < ShardsNeeded(k, size, unit, shardCount) <==> unit * shard < k + size
  {
    QuotientBelow(k + size + unit - 1, unit, shard + 1);
    assert unit * (shard + 1) == unit * shard + unit;
  }

  lemma OffsetOfPage(page: int, size: nat)
    ensures var p := if page < 1 then 1 else page; PageOffset(page, size) + size == size * p
  {
    assert page < 1 ==> (page - 1) * size <= 0;
    assert (page - 1) * size == size * page - size;
  }

  /** A shard is read from a certain page on, pages before the first counting as the first. */
  lemma ReadFromFirstReader(page: int, size: nat, unit: nat, shardCount: nat, shard: nat)
    requires size > 0 && unit > 0 && shard < shardCount
    ensures shard < ShardsNeeded(PageOffset(page, size), size, unit, shardCount)
       <==> (if page < 1 then 1 else page) >= FirstReader(size, unit, shard)
  {
    ReadsShard(PageOffset(page, size), size, unit, shardCount, shard);
    OffsetOfPage(page, size);
    QuotientBelow(unit * shard, size, if page < 1 then 1 else page);
  }

  lemma {:induction false} StartGrows(page: int, later: int, size: nat, shardCount: nat, shard: nat)
    requires page <= later && shard < shardCount
    ensures Start(page, size, shardCount, shard) <= Start(later, size, shardCount, shard)
    decreases later - page
  {
    if page < later {
      StartGrows(page, later - 1, size, shardCount, shard);
      WindowsLeaveNoHole(later - 1, size, shardCount, shard);
    }
  }

  lemma StartIsUnbounded(rank: nat, size: nat, shardCount: nat, shard: nat)
    requires size > 0 && shard < shardCount
    ensures Start(shardCount * (rank + 1) + 1, size, shardCount, shard) > rank
  {
    OffsetOfMultiple(shardCount, rank + 1, size);
    DivisionUnique(shardCount * ((rank + 1) * size), shardCount, (rank + 1) * size, 0);
    assert (rank + 1) * size >= rank + 1;
  }

  lemma OffsetOfMultiple(n: nat, m: nat, size: nat)
    ensures PageOffset(n * m + 1, size) == n * (m * size)
  {
    assert n * m * size == n * (m * size);
    assert n * (m * size) >= 0;
  }

  // Going on from a page whose window starts early enough
  lemma {:induction false} SomeWindowHas(rank: nat, page: int, end: int, size: nat, shardCount: nat, shard: nat)
    returns (found: int)
    requires page <= end && shard < shardCount
    requires Start(page, size, shardCount, shard) <= rank < Start(end, size, shardCount, shard)
    ensures found >= page && Start(found, size, shardCount, shard) <= rank
    ensures rank < Start(found, size, shardCount, shard) + ShardLimit(size, shardCount)
    decreases end - page
  {
    if rank < Start(page, size, shardCount, shard) + ShardLimit(size, shardCount) {
      found := page;
    } else {
      WindowsLeaveNoHole(page, size, shardCount, shard);
      found := SomeWindowHas(rank, page + 1, end, size, shardCount, shard);
    }
  }

  /** Paging through all pages of one size asks a shard for exactly the rows from the start of
      the first page that reads it; the newer rows of that shard are asked for by no page. */
  lemma RanksFetchedExactly(size: nat, unit: nat, shardCount: nat, shard: nat, rank: nat)
    requires size > 0 && unit > 0 && shard < shardCount
    ensures (exists page: int :: Fetches(page, size, unit, shardCount, shard, rank))
       <==> rank >= Start(FirstReader(size, unit, shard), size, shardCount, shard)
  {
    var first := FirstReader(size, unit, shard);
    assert first >= 1 by {
      QuotientNatural(unit * shard, size);
    }
    if page: int :| Fetches(page, size, unit, shardCount, shard, rank) {
      ReadFromFirstReader(page, size, unit, shardCount, shard);
      OffsetOfPage(page, size);
      OffsetOfPage(1, size);
      StartGrows(first, if page < 1 then 1 else page, size, shardCount, shard);
    }
    if rank >= Start(first, size, shardCount, shard) {
      var end := first + (shardCount * (rank + 1) + 1);
      StartIsUnbounded(rank, size, shardCount, shard);
      StartGrows(shardCount * (rank + 1) + 1, end, size, shardCount, shard);
      var page := SomeWindowHas(rank, first, end, size, shardCount, shard);
      ReadFromFirstReader(page, size, unit, shardCount, shard);
      assert Fetches(page, size, unit, shardCount, shard, rank);
    }
  }

  // From a page on, a shard's window moves by the shard's part of a page, or by one row more
  lemma StartMoves(page: int, size: nat, shardCount: nat, shard: nat)
    requires page >= 1 && shard < shardCount
    ensures var start := Start(page, size, shardCount, shard);
      start + size / shardCount <= Start(page + 1, size, shardCount, shard) <= start + size / shardCount + 1
  {
    OffsetOfPage(page, size);
    OffsetOfPage(page + 1, size);
    assert size * (page + 1) == size * page + size;
    QuotientNatural(size, shardCount);
    var k, m, d := PageOffset(page, size), size / shardCount, size % shardCount;
    OffsetGrows(k, d, shardCount, shard);
    OffsetShifts(k + d, m, shardCount, shard);
    assert size == shardCount * m + d;
  }

  /** Successive pages both ask a shard for a row if and only if the window moved by no more
      than the shard's part of a page and the row is the first of the later window. */
  lemma FetchedTwiceExactly(page: int, size: nat, unit: nat, shardCount: nat, shard: nat, rank: nat)
    requires page >= 1 && size > 0 && unit > 0 && shard < shardCount
    ensures Fetches(page, size, unit, shardCount, shard, rank) && Fetches(page + 1, size, unit, shardCount, shard, rank)
       <==> && shard < ShardsNeeded(PageOffset(page, size), size, unit, shardCount)
            && rank == Start(page + 1, size, shardCount, shard)
            && rank == Start(page, size, shardCount, shard) + size / shardCount
  {
    StartMoves(page, size, shardCount, shard);
    ShardsNeverShrink(page, size, unit, shardCount);
    QuotientNatural(size, shardCount);
  }

  /** With the default size and sixteen shards, the 63 newest rows of shard 1 are on no page. */
  lemma DefaultPagesSkip(rank: nat)
    ensures (exists page: int :: Fetches(page, DEFAULT_SIZE, PAGE_UNIT, 16, 1, rank)) <==> rank >= 63
  {
    RanksFetchedExactly(DEFAULT_SIZE, PAGE_UNIT, 16, 1, rank);
    assert FirstReader(DEFAULT_SIZE, PAGE_UNIT, 1) == 11;
    assert PageOffset(11, DEFAULT_SIZE) == 1000;
  }
}
