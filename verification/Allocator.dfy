/**
 * Allocation and release of blocks on a device (fs.c).
 */
module Allocator {
  import opened Words
  import opened Arithmetic
  import opened FirstFit
  import opened Sectors
  import opened Blocks
  import opened BusCache
  import opened Volume

  /** The bytes at the first len sector boundaries from the start of the partition on. */
  ghost function BoundaryBytes(m: seq<Byte>, part: Partition, len: nat): (marks: seq<Byte>)
    requires |m| > 0
    ensures |marks| == len
  {
    if len == 0 then []
    else BoundaryBytes(m, part, len - 1)
         + [m[Cell(part.blockAddress, Start(part.sectorSize, len - 1), |m|)]]
  }

  lemma {:induction false} BoundaryAt(m: seq<Byte>, part: Partition, len: nat, k: nat)
    requires |m| > 0 && k < len
    ensures BoundaryBytes(m, part, len)[k]
         == m[Cell(part.blockAddress, Start(part.sectorSize, k), |m|)]
  {
    if k < len - 1 {
      BoundaryAt(m, part, len - 1, k);
    }
  }

  lemma BoundaryInside(dev: Device, k: nat)
    requires dev.Valid() && k < |dev.disk|
    ensures dev.bus.Mem[Cell(dev.part.blockAddress, Start(dev.part.sectorSize, k), |dev.bus.Mem|)]
         == dev.disk[k][0]
  {
    dev.InRange(k, 0);
    AgreesAt(dev.bus.Mem, dev.disk, dev.part.blockAddress, dev.part.sectorSize, |dev.disk|, k, 0);
    SmallMod(dev.part.blockAddress + Start(dev.part.sectorSize, k), |dev.bus.Mem|);
  }

  lemma BoundaryOutside(dev: Device, k: nat)
    requires dev.Valid() && IsOutside(dev.before, dev.after, dev.part, k)
    ensures dev.bus.Mem[Cell(dev.part.blockAddress, Start(dev.part.sectorSize, k), |dev.bus.Mem|)]
         != SECTOR_FREE
  {
    assert |dev.bus.Mem| == dev.SectorsEnd() + |dev.after|;
  }

  /** Boundaries with the same address are the same byte, since the RAM size divides 2^32. */
  lemma BoundariesAreConsistent(m: seq<Byte>, part: Partition, len: nat)
    requires |m| > 0 && WORD_SPACE % |m| == 0
    ensures Consistent(BoundaryBytes(m, part, len), part.sectorSize)
  {
    var marks, ss: int := BoundaryBytes(m, part, len), part.sectorSize;
    forall i, k | 0 <= i < len && 0 <= k < len && AddressOf(i, ss) == AddressOf(k, ss)
      ensures marks[i] == marks[k]
    {
      BoundaryAt(m, part, len, i);
      BoundaryAt(m, part, len, k);
      StartIsProduct(ss, i);
      StartIsProduct(ss, k);
      CellOfWrappedOffset(part.blockAddress, Start(ss, i), |m|);
      CellOfWrappedOffset(part.blockAddress, Start(ss, k), |m|);
    }
  }

  lemma CellOfSum(begin: nat, x: nat, y: nat, t: nat, n: nat)
    requires 0 < n && Cell(begin, x, n) == begin + y
    ensures Cell(begin, x + t, n) == Cell(begin, y + t, n)
  {
    hide Cell;
    CellStep(begin, x, t, n);
    CellStep(begin, y, t, n);
    RemainderOfSum(begin + x, begin + y, t, n);
  }

  lemma CellStep(begin: nat, x: nat, t: nat, n: nat)
    requires 0 < n
    ensures Cell(begin, x, n) == (begin + x) % n && Cell(begin, x + t, n) == (begin + x + t) % n
  {
    assert begin + x + t == begin + (x + t);
  }

  /** The sector after one that is seen again is seen again behind it. */
  lemma SeenAgain(begin: nat, k: nat, j: nat, t: nat, ss: nat, n: nat)
    requires 0 < n && Cell(begin, Start(ss, k), n) == begin + Start(ss, j)
    ensures Cell(begin, Start(ss, k + t), n) == Cell(begin, Start(ss, j + t), n)
  {
    hide Start;
    StartOfSum(ss, k, t);
    StartOfSum(ss, j, t);
    CellOfSum(begin, Start(ss, k), Start(ss, j), Start(ss, t), n);
  }

  lemma OwnSectorMirrors(m: seq<Byte>, part: Partition, len: nat, k: nat, j: nat)
    requires |m| > 0 && j < part.sectorCount
    requires Cell(part.blockAddress, Start(part.sectorSize, k), |m|) == part.blockAddress + Start(part.sectorSize, j)
    ensures Mirrors(BoundaryBytes(m, part, len), k, j, part.sectorCount)
  {
    hide Start, Cell, BoundaryBytes;
    var marks := BoundaryBytes(m, part, len);
    forall s | j <= s <= part.sectorCount && s < |marks| && k + (s - j) < |marks|
      ensures marks[k + (s - j)] == marks[s]
    {
      BoundaryAt(m, part, len, k + (s - j));
      BoundaryAt(m, part, len, s);
      SeenAgain(part.blockAddress, k, j, s - j, part.sectorSize, |m|);
    }
  }

  /** What the search reads: the markers of the partition, shielded by what follows. */
  lemma BoundariesOfPartition(dev: Device, n: nat)
    requires dev.Valid() && dev.Guarded()
    ensures var marks := BoundaryBytes(dev.bus.Mem, dev.part, dev.part.blockSize + n);
      && Shielded(marks, dev.part.sectorCount, dev.part.blockSize)
      && Consistent(marks, dev.part.sectorSize)
      && marks[..dev.part.sectorCount] == Marks(dev.disk)
  {
    hide Device.Valid, IsOutside, Mirrors, Consistent, BoundaryBytes;
    dev.Shape();
    dev.MemorySize();
    var len := dev.part.blockSize + n;
    var m, marks := dev.bus.Mem, BoundaryBytes(dev.bus.Mem, dev.part, len);
    BoundariesAreConsistent(m, dev.part, len);
    forall k: nat | k < dev.part.blockSize
      ensures k < |dev.disk| ==> marks[k] == dev.disk[k][0]
      ensures IsOutside(dev.before, dev.after, dev.part, k) ==> marks[k] != SECTOR_FREE
      ensures forall j: nat :: IsOwnSector(dev.before, dev.after, dev.part, k, j) ==>
                Mirrors(marks, k, j, dev.part.sectorCount)
    {
      BoundaryAt(m, dev.part, len, k);
      if k < |dev.disk| {
        BoundaryInside(dev, k);
      }
      if IsOutside(dev.before, dev.after, dev.part, k) {
        BoundaryOutside(dev, k);
      }
      forall j: nat | IsOwnSector(dev.before, dev.after, dev.part, k, j)
        ensures Mirrors(marks, k, j, dev.part.sectorCount)
      {
        OwnSectorMirrors(m, dev.part, len, k, j);
      }
    }
    assert marks[..dev.part.sectorCount] == Marks(dev.disk);
  }

  method ReadBoundary(dev: Device, k: nat, ghost len: nat) returns (b: Byte)
    requires dev.Valid() && k < len
    modifies dev.bus, dev.bus.ram, dev.bus.cache, dev.bus.dirtyBits
    ensures dev.Valid() && dev.bus.Mem == old(dev.bus.Mem)
    ensures b == BoundaryBytes(dev.bus.Mem, dev.part, len)[k]
  {
    BoundaryAt(dev.bus.Mem, dev.part, len, k);
    StartIsProduct(dev.part.sectorSize, k);
    CellOfWrapped(dev.part.blockAddress + k * dev.part.sectorSize, |dev.bus.Mem|);
    b := dev.bus.ReadMemory(Wrap(dev.part.blockAddress + k * dev.part.sectorSize));
  }

  /** Whether a header sector and n data sectors are free from sector i on. */
  method RunIsFree(dev: Device, i: nat, n: nat, ghost marks: seq<Byte>) returns (free: bool)
    requires dev.Valid() && i + n < |marks|
    requires marks == BoundaryBytes(dev.bus.Mem, dev.part, |marks|)
    modifies dev.bus, dev.bus.ram, dev.bus.cache, dev.bus.dirtyBits
    ensures dev.Valid() && dev.bus.Mem == old(dev.bus.Mem)
    ensures free <==> Fits(marks, i, n)
  {
    for a := 0 to n + 1
      invariant dev.Valid() && dev.bus.Mem == old(dev.bus.Mem)
      invariant forall k :: i <= k < i + a ==> marks[k] == SECTOR_FREE
    {
      var buffer := ReadBoundary(dev, a + i, |marks|);
      if buffer != SECTOR_FREE {
        return false;
      }
    }
    return true;
  }

  /**
   * Searches for room for a block of n data sectors: one boundary for each byte of the
   * partition is considered, and the address 1 stands for a run that turned out too short.
   */
  method Search(dev: Device, n: nat, ghost marks: seq<Byte>) returns (address: Word)
    requires dev.Valid() && |marks| == dev.part.blockSize + n
    requires marks == BoundaryBytes(dev.bus.Mem, dev.part, |marks|)
    modifies dev.bus, dev.bus.ram, dev.bus.cache, dev.bus.dirtyBits
    ensures dev.Valid() && dev.bus.Mem == old(dev.bus.Mem)
    ensures address == SearchAddress(marks, n, dev.part.blockSize, dev.part.sectorSize)
  {
    hide Device.Valid, BoundaryBytes;
    address := 0;
    for i := 0 to dev.part.blockSize
      invariant dev.Valid() && dev.bus.Mem == old(dev.bus.Mem)
      invariant forall j :: 0 <= j < i ==> !Fits(marks, j, n)
      invariant address == if i > 0 && marks[i - 1] == SECTOR_FREE then 1 else 0
    {
      var buffer := ReadBoundary(dev, i, |marks|);
      address := 0;
      if buffer == SECTOR_FREE {
        var free := RunIsFree(dev, i, n, marks);
        if free {
          LeastFitIs(marks, n, 0, dev.part.blockSize, i);
          return Wrap(i * dev.part.sectorSize);
        }
        address := 1;
      }
    }
  }

  /** The sector of the lowest run that takes a block of the given size, or 0. */
  ghost function Place(d: Disk, ss: nat, size: nat): (i: nat)
    requires Shaped(d, ss)
    ensures i != 0 ==> Fits(Marks(d), i, DataSectors(size, ss))
  {
    match LeastFit(Marks(d), DataSectors(size, ss), 0, |d|)
    case Some(i) => i
    case None => 0
  }

  /** Under the guard the search finds the place, and its address is the handle of it. */
  method FindPlace(dev: Device, size: Word, n: nat) returns (handle: Word, ghost i: nat)
    requires dev.Valid() && dev.Guarded()
    requires n == DataSectors(size, dev.part.sectorSize)
    modifies dev.bus, dev.bus.ram, dev.bus.cache, dev.bus.dirtyBits
    ensures dev.Valid()
    ensures i == Place(dev.disk, dev.part.sectorSize, size)
    ensures handle == Start(dev.part.sectorSize, i)
    ensures handle == 0 <==> i == 0
  {
    var ss := dev.part.sectorSize;
    ghost var marks := BoundaryBytes(dev.bus.Mem, dev.part, dev.part.blockSize + n);
    BoundariesOfPartition(dev, n);
    StartIsProduct(ss, dev.part.sectorCount);
    SearchUnderShield(marks, n, dev.part.sectorCount, dev.part.blockSize, ss);
    handle := Search(dev, n, marks);
    i := Place(dev.disk, ss, size);
    StartIsProduct(ss, i);
    if i > 0 {
      StartsApart(ss, 0, i);
    }
  }

  /** Marks the sectors of a block as taken and records its size. */
  method WriteBlock(dev: Device, handle: Word, size: Word, n: nat, ghost i: nat)
    requires dev.Valid() && handle == Start(dev.part.sectorSize, i)
    requires n == DataSectors(size, dev.part.sectorSize) && i + n < |dev.disk|
    modifies dev`disk, dev.bus, dev.bus.ram, dev.bus.cache, dev.bus.dirtyBits
    ensures dev.Valid()
    ensures dev.disk == Allocate(old(dev.disk), dev.part.sectorSize, i, size)
  {
    hide Device.Valid, MarkRun;
    dev.Shape();
    MarkStep(dev.disk, i, 0, SECTOR_HEADER);
    dev.WriteByte(dev.part.blockAddress + handle, SECTOR_HEADER, i, 0);
    dev.WriteMarks(dev.part.blockAddress + handle + dev.part.sectorSize, n, SECTOR_USED, i + 1);
    dev.WriteWord(dev.part.blockAddress + handle + OFFSET_SIZE, size, i, OFFSET_SIZE);
  }

  /**
   * Allocates a block: the lowest run of free sectors that takes it, or nothing and a zero
   * handle when the partition has no such run.
   */
  method FsAllocate(dev: Device, size: Word) returns (handle: Word, ghost i: nat)
    requires dev.Valid() && dev.Guarded()
    modifies dev`disk, dev.bus, dev.bus.ram, dev.bus.cache, dev.bus.dirtyBits
    ensures dev.Valid()
    ensures i == Place(old(dev.disk), dev.part.sectorSize, size)
    ensures handle == Start(dev.part.sectorSize, i)
    ensures handle == 0 <==> i == 0
    ensures dev.disk == if i == 0 then old(dev.disk)
                        else Allocate(old(dev.disk), dev.part.sectorSize, i, size)
  {
    var numberOfSectors := size / (dev.part.sectorSize - 1) + 1;
    DataSectorsQuotient(size, dev.part.sectorSize);
    handle, i := FindPlace(dev, size, numberOfSectors);
    if handle != 0 {
      WriteBlock(dev, handle, size, numberOfSectors, i);
    }
  }

  /** Frees the block whose header is sector s. */
  method FsFree(dev: Device, handle: Word, ghost s: nat)
    requires dev.Valid() && s < |dev.disk| && handle == Start(dev.part.sectorSize, s)
    requires BlockEnd(dev.disk, dev.part.sectorSize, s) <= |dev.disk|
    modifies dev`disk, dev.bus, dev.bus.ram, dev.bus.cache, dev.bus.dirtyBits
    ensures dev.Valid()
    ensures dev.disk == Release(old(dev.disk), dev.part.sectorSize, s)
  {
    var size := dev.ReadWord(dev.part.blockAddress + handle + OFFSET_SIZE, s, OFFSET_SIZE);
    DataSectorsQuotient(size, dev.part.sectorSize);
    var n := size / (dev.part.sectorSize - 1) + 2;
    dev.WriteMarks(dev.part.blockAddress + handle, n, SECTOR_FREE, s);
  }
}
