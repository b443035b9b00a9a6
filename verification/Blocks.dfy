/**
 * The only bookkeeping of the file system is one marker byte a sector. This module says
 * when the markers describe a set of disjoint blocks, and proves that allocating and
 * freeing keep it so.
 */
module Blocks {
  import opened Words
  import opened Arithmetic
  import opened FirstFit
  import opened Sectors

  /**
   * The data sectors of an allocation: each takes up to ss - 1 bytes, and one more sector
   * follows the full ones.
   */
  ghost function DataSectors(size: nat, ss: nat): (n: nat)
    requires ss >= 2
    ensures n > 0
  {
    if size < ss - 1 then 1 else 1 + DataSectors(size - (ss - 1), ss)
  }

  /** The closed form in which the allocator computes the number of data sectors. */
  lemma {:induction false} DataSectorsQuotient(size: nat, ss: nat)
    requires ss >= 2
    ensures DataSectors(size, ss) == size / (ss - 1) + 1
  {
    if size < ss - 1 {
      QuotientIs(size, ss - 1, 0, size);
    } else {
      var rest := size - (ss - 1);
      DataSectorsQuotient(rest, ss);
      QuotientIs(size, ss - 1, rest / (ss - 1) + 1, rest % (ss - 1));
    }
  }

  ghost predicate IsLive(d: Disk, ss: nat, s: int)
    requires Shaped(d, ss)
  {
    1 <= s < |d| && d[s][0] == SECTOR_HEADER
  }

  ghost function SizeOf(d: Disk, ss: nat, s: nat): Word
    requires Shaped(d, ss) && s < |d|
  {
    WordAt(d[s], OFFSET_SIZE)
  }

  /** The sector after the last one of the block whose header is sector s. */
  ghost function BlockEnd(d: Disk, ss: nat, s: nat): (e: nat)
    requires Shaped(d, ss) && s < |d|
    ensures e >= s + 2
  {
    s + 1 + DataSectors(SizeOf(d, ss, s), ss)
  }

  ghost predicate InBlock(d: Disk, ss: nat, s: int, k: int)
    requires Shaped(d, ss)
  {
    IsLive(d, ss, s) && s <= k < BlockEnd(d, ss, s)
  }

  /**
   * The markers decompose into free sectors and blocks: one header marker, whose sector
   * records the size, followed by exactly the data markers that the size calls for.
   */
  ghost predicate Layout(d: Disk, ss: nat) {
    && Shaped(d, ss)
    && d[0][0] != SECTOR_FREE
    && (forall s :: IsLive(d, ss, s) ==> BlockEnd(d, ss, s) <= |d|)
    && (forall s, k :: InBlock(d, ss, s, k) && s < k < |d| ==> d[k][0] == SECTOR_USED)
    && (forall k :: 1 <= k < |d| ==> d[k][0] in {SECTOR_FREE, SECTOR_HEADER, SECTOR_USED})
    && (forall k :: 1 <= k < |d| && d[k][0] == SECTOR_USED ==> exists s :: InBlock(d, ss, s, k))
  }

  /** Every sector that is not free lies in exactly one block, and free ones lie in none. */
  lemma DecompositionIsUnique(d: Disk, ss: nat, k: nat)
    requires Layout(d, ss) && 1 <= k < |d|
    ensures d[k][0] == SECTOR_FREE <==> forall s :: !InBlock(d, ss, s, k)
    ensures forall s, t :: InBlock(d, ss, s, k) && InBlock(d, ss, t, k) ==> s == t
  {
    if d[k][0] == SECTOR_HEADER {
      assert InBlock(d, ss, k, k);
    }
    forall s, t | InBlock(d, ss, s, k) && InBlock(d, ss, t, k)
      ensures s == t
    {
      if s < t {
        assert InBlock(d, ss, s, t);
      } else if t < s {
        assert InBlock(d, ss, t, s);
      }
    }
  }

  /** Nothing but the markers and the sizes of the live blocks decides the layout. */
  lemma LayoutFrame(d: Disk, e: Disk, ss: nat)
    requires Layout(d, ss) && Shaped(e, ss) && |d| == |e|
    requires forall k :: 0 <= k < |d| ==> e[k][0] == d[k][0]
    requires forall s :: IsLive(d, ss, s) ==> SizeOf(e, ss, s) == SizeOf(d, ss, s)
    ensures Layout(e, ss)
    ensures forall s :: IsLive(e, ss, s) <==> IsLive(d, ss, s)
    ensures forall s, k :: InBlock(e, ss, s, k) <==> InBlock(d, ss, s, k)
  {
    assert forall s :: IsLive(e, ss, s) <==> IsLive(d, ss, s);
    assert forall s, k :: InBlock(e, ss, s, k) <==> InBlock(d, ss, s, k);
  }

  /** The disk after a block of the given size is laid out at sector i. */
  ghost function Allocate(d: Disk, ss: nat, i: nat, size: Word): (e: Disk)
    requires Shaped(d, ss) && i < |d|
    ensures |e| == |d|
  {
    var marked := MarkRun(MarkRun(d, i, 1, SECTOR_HEADER), i + 1, DataSectors(size, ss), SECTOR_USED);
    marked[i := PatchWord(marked[i], OFFSET_SIZE, size)]
  }

  /** The disk after the block whose header is sector s is given back. */
  ghost function Release(d: Disk, ss: nat, s: nat): (e: Disk)
    requires Shaped(d, ss) && s < |d|
    ensures |e| == |d|
  {
    MarkRun(d, s, BlockEnd(d, ss, s) - s, SECTOR_FREE)
  }

  lemma FitsIsFree(d: Disk, ss: nat, i: nat, n: nat)
    requires Shaped(d, ss) && Fits(Marks(d), i, n)
    ensures forall k :: i <= k <= i + n ==> d[k][0] == SECTOR_FREE
  {
    forall k | i <= k <= i + n
      ensures d[k][0] == SECTOR_FREE
    {
      assert Marks(d)[k] == SECTOR_FREE;
    }
  }

  lemma AllocatedSectors(d: Disk, ss: nat, i: nat, size: Word)
    requires Layout(d, ss) && Fits(Marks(d), i, DataSectors(size, ss))
    ensures var e, n := Allocate(d, ss, i, size), DataSectors(size, ss);
      && Shaped(e, ss) && i > 0 && BlockEnd(e, ss, i) == i + 1 + n <= |d|
      && SizeOf(e, ss, i) == size && e[i][0] == SECTOR_HEADER
      && (forall k :: 0 <= k < |d| && !(i <= k <= i + n) ==> e[k] == d[k])
      && (forall k :: i < k <= i + n ==> e[k] == d[k][0 := SECTOR_USED])
      && (forall s :: IsLive(e, ss, s) <==> IsLive(d, ss, s) || s == i)
  {
    hide PatchWord, WordAt;
    FitsIsFree(d, ss, i, DataSectors(size, ss));
    hide Fits, DataSectors;
    var e := Allocate(d, ss, i, size);
    assert forall s :: IsLive(d, ss, s) ==> e[s] == d[s] && IsLive(e, ss, s);
  }

  lemma AllocatedBlocks(d: Disk, ss: nat, i: nat, size: Word)
    requires Layout(d, ss) && Fits(Marks(d), i, DataSectors(size, ss))
    ensures var e, n := Allocate(d, ss, i, size), DataSectors(size, ss);
      && Shaped(e, ss)
      && (forall s, k :: InBlock(d, ss, s, k) ==> k < |d| && !(i <= k <= i + n))
      && (forall s, k :: InBlock(e, ss, s, k) <==> InBlock(d, ss, s, k) || (s == i && i <= k <= i + n))
  {
    var e := Allocate(d, ss, i, size);
    AllocatedSectors(d, ss, i, size);
    FitsIsFree(d, ss, i, DataSectors(size, ss));
    hide Allocate, DataSectors;
    assert forall s :: IsLive(d, ss, s) ==> s != i && e[s] == d[s] && BlockEnd(e, ss, s) == BlockEnd(d, ss, s);
  }

  /** Allocation adds exactly one block, of the size asked for, and touches no other sector. */
  lemma AllocateKeepsLayout(d: Disk, ss: nat, i: nat, size: Word)
    requires Layout(d, ss) && Fits(Marks(d), i, DataSectors(size, ss))
    ensures var e := Allocate(d, ss, i, size);
      && Layout(e, ss) && i > 0
      && (forall s :: IsLive(e, ss, s) <==> IsLive(d, ss, s) || s == i)
      && SizeOf(e, ss, i) == size
      && (forall k :: 0 <= k < |d| && !InBlock(e, ss, i, k) ==> e[k] == d[k])
      && (forall k :: InBlock(e, ss, i, k) && k != i ==> e[k] == d[k][0 := SECTOR_USED])
      && (forall s, k :: InBlock(d, ss, s, k) ==> !InBlock(e, ss, i, k))
  {
    var e := Allocate(d, ss, i, size);
    AllocatedSectors(d, ss, i, size);
    AllocatedBlocks(d, ss, i, size);
    hide Allocate, DataSectors;
    forall k | 1 <= k < |d| && e[k][0] == SECTOR_USED
      ensures exists s :: InBlock(e, ss, s, k)
    {
      if !InBlock(e, ss, i, k) {
        var s :| InBlock(d, ss, s, k);
        assert InBlock(e, ss, s, k);
      }
    }
  }

  lemma ReleasedSectors(d: Disk, ss: nat, s: nat)
    requires Layout(d, ss) && IsLive(d, ss, s)
    ensures var e := Release(d, ss, s);
      && Shaped(e, ss)
      && (forall k :: 0 <= k < |d| && !InBlock(d, ss, s, k) ==> e[k] == d[k])
      && (forall k :: InBlock(d, ss, s, k) ==> e[k] == d[k][0 := SECTOR_FREE])
      && (forall t :: IsLive(e, ss, t) <==> IsLive(d, ss, t) && t != s)
      && (forall t :: IsLive(e, ss, t) ==> e[t] == d[t])
  {
    var e := Release(d, ss, s);
    forall t | IsLive(d, ss, t) && t != s
      ensures !InBlock(d, ss, s, t) && IsLive(e, ss, t)
    {
    }
    forall t | IsLive(e, ss, t)
      ensures !InBlock(d, ss, s, t) && IsLive(d, ss, t) && t != s
    {
    }
  }

  /** Freeing removes exactly one block and changes only the markers of its sectors. */
  lemma ReleaseKeepsLayout(d: Disk, ss: nat, s: nat)
    requires Layout(d, ss) && IsLive(d, ss, s)
    ensures var e := Release(d, ss, s);
      && Layout(e, ss)
      && (forall t :: IsLive(e, ss, t) <==> IsLive(d, ss, t) && t != s)
      && (forall k :: 0 <= k < |d| && !InBlock(d, ss, s, k) ==> e[k] == d[k])
      && (forall k :: InBlock(d, ss, s, k) ==> e[k] == d[k][0 := SECTOR_FREE])
      && (forall t, k :: InBlock(e, ss, t, k) <==> InBlock(d, ss, t, k) && t != s)
  {
    var e := Release(d, ss, s);
    ReleasedSectors(d, ss, s);
    assert forall t, k :: InBlock(e, ss, t, k) <==> InBlock(d, ss, t, k) && t != s;
    forall t, k | InBlock(d, ss, t, k) && t != s
      ensures k < |d| && e[k] == d[k]
    {
      DecompositionIsUnique(d, ss, k);
    }
    forall k | 1 <= k < |d| && e[k][0] == SECTOR_USED
      ensures exists t :: InBlock(e, ss, t, k)
    {
      var t :| InBlock(d, ss, t, k);
      assert InBlock(e, ss, t, k);
    }
  }

  /** Freeing a block right after its allocation restores every marker. */
  lemma ReleaseUndoesAllocate(d: Disk, ss: nat, i: nat, size: Word)
    requires Layout(d, ss) && Fits(Marks(d), i, DataSectors(size, ss))
    ensures Marks(Release(Allocate(d, ss, i, size), ss, i)) == Marks(d)
  {
    AllocatedSectors(d, ss, i, size);
    FitsIsFree(d, ss, i, DataSectors(size, ss));
  }

  // Conservation of sectors.

  ghost function FreeSectors(d: Disk, ss: nat, k: nat): nat
    requires Shaped(d, ss) && k <= |d|
    decreases |d| - k
  {
    if k == |d| then 0
    else (if d[k][0] == SECTOR_FREE then 1 else 0) + FreeSectors(d, ss, k + 1)
  }

  /** The sectors of all blocks whose header lies at sector k or later, by their own sizes. */
  ghost function BlockSectors(d: Disk, ss: nat, k: nat): nat
    requires Shaped(d, ss) && k <= |d|
    decreases |d| - k
  {
    if k == |d| then 0
    else (if IsLive(d, ss, k) then BlockEnd(d, ss, k) - k else 0) + BlockSectors(d, ss, k + 1)
  }

  lemma {:induction false} SkipData(d: Disk, ss: nat, k: nat, end: nat)
    requires Shaped(d, ss) && 1 <= k <= end <= |d|
    requires forall j :: k <= j < end ==> d[j][0] == SECTOR_USED
    ensures FreeSectors(d, ss, k) == FreeSectors(d, ss, end)
    ensures BlockSectors(d, ss, k) == BlockSectors(d, ss, end)
    decreases |d| - k
  {
    if k < end {
      SkipData(d, ss, k + 1, end);
    }
  }

  /** Free sectors and the sectors of the live blocks always add up to the whole partition. */
  lemma SectorsAreConserved(d: Disk, ss: nat)
    requires Layout(d, ss)
    ensures FreeSectors(d, ss, 1) + BlockSectors(d, ss, 1) == |d| - 1
  {
    if |d| > 1 && d[1][0] == SECTOR_USED {
      var s :| InBlock(d, ss, s, 1);
    }
    ConservedFrom(d, ss, 1);
  }

  lemma {:induction false} ConservedFrom(d: Disk, ss: nat, k: nat)
    requires Layout(d, ss) && 1 <= k <= |d|
    requires k < |d| ==> d[k][0] != SECTOR_USED
    ensures FreeSectors(d, ss, k) + BlockSectors(d, ss, k) == |d| - k
    decreases |d| - k
  {
    if k < |d| {
      var next := if d[k][0] == SECTOR_HEADER then BlockEnd(d, ss, k) else k + 1;
      NextIsNoData(d, ss, k, next);
      if d[k][0] == SECTOR_HEADER {
        assert IsLive(d, ss, k);
        forall j | k < j < next
          ensures d[j][0] == SECTOR_USED
        {
          assert InBlock(d, ss, k, j);
        }
        SkipData(d, ss, k + 1, next);
      }
      ConservedFrom(d, ss, next);
    }
  }

  /** What follows a free sector or a whole block is not the data of some block. */
  lemma NextIsNoData(d: Disk, ss: nat, k: nat, next: nat)
    requires Layout(d, ss) && 1 <= k < |d| && d[k][0] != SECTOR_USED
    requires next == if d[k][0] == SECTOR_HEADER then BlockEnd(d, ss, k) else k + 1
    ensures next < |d| ==> d[next][0] != SECTOR_USED
  {
    if next < |d| && d[next][0] == SECTOR_USED {
      var s :| InBlock(d, ss, s, next);
      assert s < k ==> InBlock(d, ss, s, k);
      assert k < s && d[k][0] == SECTOR_HEADER ==> InBlock(d, ss, k, s);
    }
  }
}
