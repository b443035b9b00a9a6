/**
 * A partition on the cached bus: the sectors of the disk model laid out in memory, and the
 * byte accesses through which the file system reaches them.
 */
module Volume {
  import opened Words
  import opened Arithmetic
  import opened Sectors
  import opened BusCache

  datatype Partition = Partition(blockAddress: Word, blockSize: Word, sectorCount: Word, sectorSize: Word)

  /** The first k sectors of the disk lie one after the other in memory from base on. */
  ghost predicate Agrees(m: seq<Byte>, d: Disk, base: nat, ss: nat, k: nat)
    requires k <= |d|
  {
    k == 0 ||
    (&& Agrees(m, d, base, ss, k - 1)
     && |d[k - 1]| == ss
     && base + Start(ss, k) <= |m|
     && m[base + Start(ss, k - 1)..base + Start(ss, k)] == d[k - 1])
  }

  lemma {:induction false} AgreesAt(m: seq<Byte>, d: Disk, base: nat, ss: nat, k: nat, s: nat, offset: nat)
    requires s < k <= |d| && Agrees(m, d, base, ss, k) && offset < ss
    ensures |d[s]| == ss
    ensures base + Start(ss, s) + offset < |m| && m[base + Start(ss, s) + offset] == d[s][offset]
  {
    if s == k - 1 {
      assert m[base + Start(ss, s)..base + Start(ss, k)][offset] == m[base + Start(ss, s) + offset];
    } else {
      AgreesAt(m, d, base, ss, k - 1, s, offset);
    }
  }

  lemma {:induction false} AgreesPut(m: seq<Byte>, d: Disk, base: nat, ss: nat, k: nat, s: nat, offset: nat, b: Byte)
    requires k <= |d| && Agrees(m, d, base, ss, k) && s < |d| && offset < ss == |d[s]|
    requires base + Start(ss, s) + offset < |m|
    ensures Agrees(m[base + Start(ss, s) + offset := b], Put(d, s, offset, b), base, ss, k)
  {
    if k > 0 {
      AgreesPut(m, d, base, ss, k - 1, s, offset, b);
      var j := k - 1;
      if s < j {
        StartsApart(ss, s, j);
      } else if s > j {
        StartsApart(ss, j, s);
      }
      var m', d' := m[base + Start(ss, s) + offset := b], Put(d, s, offset, b);
      assert m'[base + Start(ss, j)..base + Start(ss, k)] == d'[j];
    }
  }

  /** The sectors that memory holds from base on. */
  ghost function SectorsIn(m: seq<Byte>, base: nat, ss: nat, k: nat): (d: Disk)
    requires base + Start(ss, k) <= |m|
    ensures |d| == k && Agrees(m, d, base, ss, k)
    ensures forall s :: 0 <= s < k ==> |d[s]| == ss
  {
    if k == 0 then []
    else
      var front := SectorsIn(m, base, ss, k - 1);
      var d := front + [m[base + Start(ss, k - 1)..base + Start(ss, k)]];
      AgreesPrefix(m, front, d, base, ss, k - 1);
      d
  }

  lemma {:induction false} AgreesPrefix(m: seq<Byte>, d: Disk, e: Disk, base: nat, ss: nat, k: nat)
    requires k <= |d| <= |e| && d == e[..|d|] && Agrees(m, d, base, ss, k)
    ensures Agrees(m, e, base, ss, k)
  {
    if k > 0 {
      AgreesPrefix(m, d, e, base, ss, k - 1);
    }
  }

  // The guard, told from the memory outside the partition alone.

  /** Boundary k lies outside the partition and does not read as free. */
  ghost predicate IsOutside(before: seq<Byte>, after: seq<Byte>, part: Partition, k: nat) {
    var end := |before| + Start(part.sectorSize, part.sectorCount);
    end + |after| > 0 &&
    var p := Cell(part.blockAddress, Start(part.sectorSize, k), end + |after|);
    if p < |before| then before[p] != '?' as int else p >= end && after[p - end] != '?' as int
  }

  /** Boundary k wraps around the memory to that of sector j of the partition. */
  ghost predicate IsOwnSector(before: seq<Byte>, after: seq<Byte>, part: Partition, k: nat, j: nat) {
    var end := |before| + Start(part.sectorSize, part.sectorCount);
    && end + |after| > 0 && j < part.sectorCount
    && Cell(part.blockAddress, Start(part.sectorSize, k), end + |after|)
       == part.blockAddress + Start(part.sectorSize, j)
  }

  /**
   * A search that runs on past the last sector meets nothing outside the partition that looks
   * like a free sector. It may wrap around and see the partition's own sectors again, but the
   * first and the last boundary that it meets lie outside.
   */
  ghost predicate GuardedBy(before: seq<Byte>, after: seq<Byte>, part: Partition) {
    && 0 < part.sectorCount < part.blockSize
    && IsOutside(before, after, part, part.sectorCount)
    && IsOutside(before, after, part, part.blockSize - 1)
    && forall k :: part.sectorCount <= k < part.blockSize ==>
         IsOutside(before, after, part, k) || exists j :: IsOwnSector(before, after, part, k, j)
  }

  ghost function Before(m: seq<Byte>, part: Partition): seq<Byte>
    requires part.blockAddress <= |m|
  {
    m[..part.blockAddress]
  }

  ghost function Behind(m: seq<Byte>, part: Partition): seq<Byte>
    requires part.blockAddress + Start(part.sectorSize, part.sectorCount) <= |m|
  {
    m[part.blockAddress + Start(part.sectorSize, part.sectorCount)..]
  }

  class Device {
    const bus: CachedBus
    var part: Partition

    /** The sectors of the partition, and the memory before and after them. */
    ghost var disk: Disk
    ghost var before: seq<Byte>
    ghost var after: seq<Byte>

    /** A partition of any content, as the bus shows it. */
    constructor (bus: CachedBus, part: Partition)
      requires bus.Valid() && part.sectorSize >= 32 && part.sectorCount > 0
      requires part.blockAddress + Start(part.sectorSize, part.sectorCount) <= |bus.Mem|
      ensures Valid() && this.bus == bus && this.part == part
      ensures bus.Mem == old(bus.Mem)
      ensures disk == SectorsIn(bus.Mem, part.blockAddress, part.sectorSize, part.sectorCount)
      ensures before == Before(bus.Mem, part) && after == Behind(bus.Mem, part)
    {
      this.bus, this.part := bus, part;
      disk := SectorsIn(bus.Mem, part.blockAddress, part.sectorSize, part.sectorCount);
      before := Before(bus.Mem, part);
      after := Behind(bus.Mem, part);
    }

    ghost predicate Valid()
      reads this, bus, bus.ram, bus.cache, bus.dirtyBits
    {
      && bus.Valid()
      && Shaped(disk, part.sectorSize) && |disk| == part.sectorCount
      && SectorsEnd() <= |bus.Mem| <= WORD_SPACE
      && Agrees(bus.Mem, disk, part.blockAddress, part.sectorSize, |disk|)
      && before == bus.Mem[..part.blockAddress]
      && after == bus.Mem[SectorsEnd()..]
    }

    ghost function SectorsEnd(): nat
      reads `part
    {
      part.blockAddress + Start(part.sectorSize, part.sectorCount)
    }

    ghost predicate Guarded()
      reads `part, `before, `after
    {
      GuardedBy(before, after, part)
    }

    /** The address of a byte of a sector. */
    ghost function Address(s: nat, offset: nat): nat
      reads `part
    {
      part.blockAddress + Start(part.sectorSize, s) + offset
    }

    lemma Shape()
      requires Valid()
      ensures Shaped(disk, part.sectorSize) && part.sectorSize >= 32 && |disk| == part.sectorCount
    {
    }

    lemma MemorySize()
      requires Valid()
      ensures |before| == part.blockAddress
      ensures |bus.Mem| == |before| + Start(part.sectorSize, part.sectorCount) + |after|
      ensures 0 < |bus.Mem| <= WORD_SPACE && WORD_SPACE % |bus.Mem| == 0
    {
    }

    lemma MemoryAround()
      requires Valid()
      ensures SectorsEnd() <= |bus.Mem| == |before| + Start(part.sectorSize, part.sectorCount) + |after|
      ensures before == Before(bus.Mem, part) && after == Behind(bus.Mem, part)
    {
    }

    lemma AddressOfLater(s: nat, i: nat)
      ensures Address(s, 0) + i * part.sectorSize == Address(s + i, 0)
    {
      StartIsProduct(part.sectorSize, i);
      StartOfSum(part.sectorSize, s, i);
    }

    lemma InRange(s: nat, offset: nat)
      requires Valid() && s < |disk| && offset < part.sectorSize
      ensures Address(s, offset) < SectorsEnd() <= |bus.Mem| <= WORD_SPACE
    {
      StartsApart(part.sectorSize, s, |disk|);
    }

    /** The handle of a sector is a word. */
    lemma HandleOf(s: nat)
      requires Valid() && s < |disk|
      ensures s * part.sectorSize == Start(part.sectorSize, s) && 0 <= s * part.sectorSize < WORD_SPACE
    {
      InRange(s, 0);
      StartIsProduct(part.sectorSize, s);
    }

    method ReadByte(address: int, ghost s: nat, ghost offset: nat) returns (b: Byte)
      requires Valid() && s < |disk| && offset < part.sectorSize && address == Address(s, offset)
      modifies bus, bus.ram, bus.cache, bus.dirtyBits
      ensures Valid() && b == disk[s][offset]
    {
      InRange(s, offset);
      AgreesAt(bus.Mem, disk, part.blockAddress, part.sectorSize, |disk|, s, offset);
      SmallMod(address, |bus.Mem|);
      b := bus.ReadMemory(address);
    }

    method WriteByte(address: int, b: Byte, ghost s: nat, ghost offset: nat)
      requires Valid() && s < |disk| && offset < part.sectorSize && address == Address(s, offset)
      modifies this`disk, bus, bus.ram, bus.cache, bus.dirtyBits
      ensures Valid()
      ensures disk == Put(old(disk), s, offset, b)
    {
      InRange(s, offset);
      AgreesPut(bus.Mem, disk, part.blockAddress, part.sectorSize, |disk|, s, offset, b);
      SmallMod(address, |bus.Mem|);
      bus.WriteMemory(address, b);
      disk := Put(disk, s, offset, b);
    }

    /** Writes consecutive bytes of one sector. */
    method WriteBytes(address: int, bytes: seq<Byte>, ghost s: nat, ghost offset: nat)
      requires Valid() && s < |disk| && offset + |bytes| <= part.sectorSize && address == Address(s, offset)
      modifies this`disk, bus, bus.ram, bus.cache, bus.dirtyBits
      ensures Valid()
      ensures disk == old(disk)[s := Patch(old(disk)[s], offset, bytes)]
    {
      ghost var x := disk[s];
      PatchStep(x, offset, bytes, 0);
      for i := 0 to |bytes|
        invariant Valid()
        invariant disk == old(disk)[s := Patch(x, offset, bytes[..i])]
      {
        PatchStep(x, offset, bytes, i);
        WriteByte(address + i, bytes[i], s, offset + i);
      }
      assert bytes[..|bytes|] == bytes;
    }

    /** Reads consecutive bytes of one sector. */
    method ReadBytes(address: int, count: nat, ghost s: nat, ghost offset: nat) returns (bytes: seq<Byte>)
      requires Valid() && s < |disk| && offset + count <= part.sectorSize && address == Address(s, offset)
      modifies bus, bus.ram, bus.cache, bus.dirtyBits
      ensures Valid() && bytes == disk[s][offset..offset + count]
    {
      bytes := [];
      for i := 0 to count
        invariant Valid() && |bytes| == i
        invariant forall j :: 0 <= j < i ==> bytes[j] == disk[s][offset + j]
      {
        var b := ReadByte(address + i, s, offset + i);
        bytes := bytes + [b];
      }
    }

    /** Reads one of the four-byte fields of a header. */
    method ReadWord(address: int, ghost s: nat, ghost offset: nat) returns (w: Word)
      requires Valid() && s < |disk| && offset + 4 <= part.sectorSize && address == Address(s, offset)
      modifies bus, bus.ram, bus.cache, bus.dirtyBits
      ensures Valid() && w == WordAt(disk[s], offset)
    {
      var bytes := ReadBytes(address, 4, s, offset);
      w := FromBytes(bytes);
      assert bytes == [disk[s][offset], disk[s][offset + 1], disk[s][offset + 2], disk[s][offset + 3]];
    }

    /** Writes one of the four-byte fields of a header. */
    method WriteWord(address: int, w: Word, ghost s: nat, ghost offset: nat)
      requires Valid() && s < |disk| && offset + 4 <= part.sectorSize && address == Address(s, offset)
      modifies this`disk, bus, bus.ram, bus.cache, bus.dirtyBits
      ensures Valid()
      ensures disk == old(disk)[s := PatchWord(old(disk)[s], offset, w)]
    {
      WriteBytes(address, ToBytes(w), s, offset);
    }

    /** Writes the marker byte of consecutive sectors. */
    method WriteMarks(address: int, count: nat, b: Byte, ghost first: nat)
      requires Valid() && first + count <= |disk| && address == Address(first, 0)
      modifies this`disk, bus, bus.ram, bus.cache, bus.dirtyBits
      ensures Valid()
      ensures disk == MarkRun(old(disk), first, count, b)
    {
      hide Valid, Address, MarkRun, Put;
      Shape();
      MarkStep(disk, first, 0, b);
      for i := 0 to count
        invariant Valid() && part == old(part)
        invariant Shaped(old(disk), part.sectorSize) && |old(disk)| == |disk|
        invariant disk == MarkRun(old(disk), first, i, b)
      {
        AddressOfLater(first, i);
        MarkStep(old(disk), first, i, b);
        WriteByte(address + i * part.sectorSize, b, first + i, 0);
      }
    }
  }

  // Partitions that are guarded.

  /** The byte at p lies outside the partition only where it does not read as free. */
  ghost predicate NoStrayMark(m: seq<Byte>, part: Partition, p: nat) {
    var end := part.blockAddress + Start(part.sectorSize, part.sectorCount);
    p < |m| && !(part.blockAddress <= p < end) ==> m[p] != '?' as int
  }

  /** Memory, start and end of the partition all lie on sector boundaries. */
  ghost predicate IsAligned(size: nat, part: Partition) {
    && part.sectorSize > 0
    && part.blockAddress % part.sectorSize == 0 && size % part.sectorSize == 0
    && part.blockAddress + Start(part.sectorSize, part.sectorCount) < size
  }

  /** A boundary, wrapped around an aligned memory, is a boundary. */
  lemma BoundaryIsAligned(part: Partition, size: nat, k: nat)
    requires IsAligned(size, part)
    ensures Cell(part.blockAddress, Start(part.sectorSize, k), size) % part.sectorSize == 0
  {
    var ss: int, base: int := part.sectorSize, part.blockAddress;
    StartIsProduct(ss, k);
    hide Start;
    ModShift(base, k, ss);
    RemainderOfMultiple(base + Start(ss, k), size, ss);
  }

  /** A sector boundary inside the partition is that of one of its sectors. */
  lemma BoundaryInPartition(part: Partition, p: nat)
    requires part.sectorSize > 0 && part.blockAddress % part.sectorSize == 0 && p % part.sectorSize == 0
    requires part.blockAddress <= p < part.blockAddress + Start(part.sectorSize, part.sectorCount)
    ensures exists j: nat :: j < part.sectorCount && p == part.blockAddress + Start(part.sectorSize, j)
  {
    var ss: int, base: int := part.sectorSize, part.blockAddress;
    Factor(p, ss);
    Factor(base, ss);
    WhichSector(ss, p / ss - base / ss, p - base, part.sectorCount);
  }

  lemma WhichSector(ss: nat, j: int, x: nat, count: nat)
    requires ss > 0 && x == ss * j && x < Start(ss, count)
    ensures 0 <= j < count && x == Start(ss, j)
  {
    NonNegativeFactor(ss, j);
    StartIsProduct(ss, j);
    if count < j {
      StartsApart(ss, count, j);
    }
  }

  /**
   * A partition on sector boundaries of a memory that consists of whole sectors is guarded, if
   * it ends before the memory does, the search does not end inside it again, and no boundary
   * outside it reads as free.
   */
  lemma AlignedIsGuarded(m: seq<Byte>, part: Partition)
    requires IsAligned(|m|, part) && 0 < part.sectorCount < part.blockSize
    requires forall p: nat :: p % part.sectorSize == 0 ==> NoStrayMark(m, part, p)
    requires var last := Cell(part.blockAddress, Start(part.sectorSize, part.blockSize - 1), |m|);
      !(part.blockAddress <= last < part.blockAddress + Start(part.sectorSize, part.sectorCount))
    ensures GuardedBy(Before(m, part), Behind(m, part), part)
  {
    hide IsAligned, NoStrayMark, Start;
    AlignedFits(|m|, part);
    forall k: nat
      ensures var p := Cell(part.blockAddress, Start(part.sectorSize, k), |m|);
        var end := part.blockAddress + Start(part.sectorSize, part.sectorCount);
        if part.blockAddress <= p < end then exists j :: IsOwnSector(Before(m, part), Behind(m, part), part, k, j)
        else IsOutside(Before(m, part), Behind(m, part), part, k)
    {
      OneBoundary(m, part, k);
    }
    SmallMod(part.blockAddress + Start(part.sectorSize, part.sectorCount), |m|);
  }

  lemma AlignedFits(size: nat, part: Partition)
    requires IsAligned(size, part)
    ensures part.sectorSize > 0 && part.blockAddress + Start(part.sectorSize, part.sectorCount) < size
  {
  }

  lemma OneBoundary(m: seq<Byte>, part: Partition, k: nat)
    requires IsAligned(|m|, part)
    requires forall p: nat :: p % part.sectorSize == 0 ==> NoStrayMark(m, part, p)
    ensures var p := Cell(part.blockAddress, Start(part.sectorSize, k), |m|);
      var end := part.blockAddress + Start(part.sectorSize, part.sectorCount);
      if part.blockAddress <= p < end then exists j :: IsOwnSector(Before(m, part), Behind(m, part), part, k, j)
      else IsOutside(Before(m, part), Behind(m, part), part, k)
  {
    hide Start;
    var p := Cell(part.blockAddress, Start(part.sectorSize, k), |m|);
    BoundaryIsAligned(part, |m|, k);
    assert NoStrayMark(m, part, p);
    if part.blockAddress <= p < part.blockAddress + Start(part.sectorSize, part.sectorCount) {
      BoundaryInPartition(part, p);
      var j: nat :| j < part.sectorCount && p == part.blockAddress + Start(part.sectorSize, j);
      assert IsOwnSector(Before(m, part), Behind(m, part), part, k, j);
    }
  }

  /** The partition that the kernel formats at boot: 32768 bytes in sectors of 32. */
  const KERNEL_PARTITION := Partition(0, 32768, 1024, 32)

  /** It is guarded in the external memory of the board, and in any larger one of the bus. */
  lemma KernelPartitionIsGuarded(m: seq<Byte>)
    requires |m| == 0x4_0000 || |m| == 0x8_0000 || |m| == 0x10_0000 || |m| == 0x100_0000
    requires forall p: nat :: p % 32 == 0 ==> NoStrayMark(m, KERNEL_PARTITION, p)
    ensures Start(32, 1024) == 32768
    ensures GuardedBy(Before(m, KERNEL_PARTITION), Behind(m, KERNEL_PARTITION), KERNEL_PARTITION)
  {
    hide Start, GuardedBy, NoStrayMark;
    StartIsProduct(32, 1024);
    StartIsProduct(32, 32767);
    AlignedIsGuarded(m, KERNEL_PARTITION);
  }
}
