/**
 * Formatting a device, and finding a formatted one again (fsDevice.c).
 */
module Format {
  import opened Words
  import opened Arithmetic
  import opened FirstFit
  import opened Sectors
  import opened Blocks
  import opened BusCache
  import opened Volume
  import opened Allocator
  import opened Files
  import opened Extents
  import opened Chains
  import opened Directories
  import opened DirectoryUpdates

  // Fields of the device header, by their offset in sector 0.
  const DEVICE_TYPE := 11
  const DEVICE_CAPACITY := 12
  const DEVICE_ROOT := 16
  const DEVICE_SECTOR_SIZE := 20

  const MAGIC: Byte := 0x13
  const HEADER_STRING: seq<Byte> :=
    [MAGIC, 'f' as int, 's' as int, SPACE, SPACE, SPACE, SPACE, SPACE, SPACE, SPACE, SPACE]
  const TYPE_CODE: seq<Byte> := ['T' as int]
  const NAME_ROOT: seq<Byte> := ['r' as int, 'o' as int, 'o' as int, 't' as int]

  /** The device header as far as it is written before the root directory exists. */
  ghost function NewDeviceHeader(x: Sector, capacity: Word): (y: Sector)
    requires |x| >= 32
    ensures |y| == |x| && y[0] == 0x13 && y[1] == 'f' as int && y[2] == 's' as int && y[11] == 'T' as int
    ensures forall i :: 3 <= i < 11 ==> y[i] == ' ' as int
    ensures forall i :: 16 <= i < |x| ==> y[i] == x[i]
    ensures WordAt(y, DEVICE_CAPACITY) == capacity
  {
    var sized := PatchWord(Patch(x, 0, HEADER_STRING), DEVICE_CAPACITY, capacity);
    var y := Patch(sized, DEVICE_TYPE, TYPE_CODE);
    WordFrame(sized, y, DEVICE_CAPACITY);
    y
  }

  /** The device with every sector free and a fresh header. */
  ghost function Blank(d: Disk, ss: nat, capacity: Word): (e: Disk)
    requires Shaped(d, ss)
    ensures |e| == |d| && Shaped(e, ss)
  {
    var free := MarkRun(d, 0, |d|, SECTOR_FREE);
    free[0 := NewDeviceHeader(free[0], capacity)]
  }

  /** The last two fields of the device header, written once the root directory exists. */
  ghost function Completed(d: Disk, ss: nat, root: Word, sectorSize: Word): (e: Disk)
    requires Shaped(d, ss)
    ensures |e| == |d| && Shaped(e, ss)
    ensures forall k :: 0 < k < |d| ==> e[k] == d[k]
    ensures forall i :: 0 <= i < DEVICE_ROOT ==> e[0][i] == d[0][i]
    ensures WordAt(e[0], DEVICE_CAPACITY) == WordAt(d[0], DEVICE_CAPACITY)
    ensures WordAt(e[0], DEVICE_ROOT) == root && WordAt(e[0], DEVICE_SECTOR_SIZE) == sectorSize
  {
    var rooted := PatchWord(d[0], DEVICE_ROOT, root);
    var x := PatchWord(rooted, DEVICE_SECTOR_SIZE, sectorSize);
    WordFrame(rooted, x, DEVICE_ROOT);
    WordFrame(d[0], x, DEVICE_CAPACITY);
    d[0 := x]
  }

  /** The formatted device: a blank one, the root directory, and the last two header fields. */
  ghost function Formatted(d: Disk, ss: Word, capacity: Word, root: Word): (e: Disk)
    requires Shaped(d, ss)
    ensures |e| == |d|
  {
    var blank := Blank(d, ss, capacity);
    Completed(DirectoryAt(blank, ss, Place(blank, ss, DIRECTORY_SIZE), NAME_ROOT), ss, root, ss)
  }

  /** On a blank device the first block goes to sector 1, if there is room for one at all. */
  lemma BlankPlace(d: Disk, ss: nat, capacity: Word)
    requires Shaped(d, ss)
    ensures var e := Blank(d, ss, capacity);
      && Layout(e, ss) && (forall s :: !IsLive(e, ss, s))
      && Place(e, ss, DIRECTORY_SIZE) == if |d| >= 3 then 1 else 0
  {
    var e := Blank(d, ss, capacity);
    assert forall k :: 1 <= k < |e| ==> e[k][0] == SECTOR_FREE;
    assert DataSectors(DIRECTORY_SIZE, ss) == 1;
    var marks := Marks(e);
    assert marks[0] == MAGIC;
    if |d| >= 3 {
      assert Fits(marks, 1, 1);
      assert !Fits(marks, 0, 1);
      LeastFitIs(marks, 1, 0, |e|, 1);
    } else {
      assert forall i: nat :: !Fits(marks, i, 1);
    }
  }

  /**
   * Formatting leaves a well-formed device whose only block is the root directory, and the
   * header records what a later open asks for.
   */
  lemma FormattedLayout(d: Disk, ss: Word, capacity: Word, root: Word)
    requires Shaped(d, ss) && |d| >= 3
    ensures var e := Formatted(d, ss, capacity, root);
      && Layout(e, ss) && (forall s :: IsLive(e, ss, s) <==> s == 1)
      && SizeOf(e, ss, 1) == DIRECTORY_SIZE && WordAt(e[1], OFFSET_REF_COUNT) == 0 && WordAt(e[1], OFFSET_NEXT) == 0
      && e[0][0] == MAGIC && e[0][1] == 'f' as int && e[0][2] == 's' as int
      && WordAt(e[0], DEVICE_CAPACITY) == capacity && WordAt(e[0], DEVICE_SECTOR_SIZE) == ss
      && WordAt(e[0], DEVICE_ROOT) == root
  {
    var blank := Blank(d, ss, capacity);
    BlankPlace(d, ss, capacity);
    DirectoryKeepsLayout(blank, ss, 1, NAME_ROOT);
    hide Blank, DirectoryAt, Completed, Place, Layout;
    CompletedKeepsLayout(DirectoryAt(blank, ss, 1, NAME_ROOT), ss, root, ss);
  }

  lemma CompletedKeepsLayout(d: Disk, ss: nat, root: Word, sectorSize: Word)
    requires Layout(d, ss)
    ensures var e := Completed(d, ss, root, sectorSize);
      && Layout(e, ss)
      && (forall s :: IsLive(e, ss, s) <==> IsLive(d, ss, s))
      && (forall k :: 0 < k < |d| ==> e[k] == d[k])
  {
    LayoutFrame(d, Completed(d, ss, root, sectorSize), ss);
  }

  /** The whole sectors in a partition of the given size. */
  function SectorCount(size: Word, sectorSize: Word): (count: Word)
    requires sectorSize > 0
    ensures count * sectorSize <= size < count * sectorSize + sectorSize
  {
    QuotientBound(size, sectorSize);
    size / sectorSize
  }

  ghost predicate IsPartition(part: Partition, blockAddress: Word, begin: Word, end: Word, sectorSize: Word) {
    && sectorSize > 0
    && part == Partition(blockAddress, Wrap(end - begin), SectorCount(Wrap(end - begin), sectorSize), sectorSize)
  }

  /**
   * Formats the memory behind a block address as a device of end - begin bytes. A sector must
   * take a header, and the device must have a sector.
   */
  method FsDeviceFormat(bus: CachedBus, blockAddress: Word, begin: Word, end: Word, sectorSize: Word)
    returns (dev: Device, handle: Word)
    requires bus.Valid() && sectorSize >= 32 && SectorCount(Wrap(end - begin), sectorSize) > 0
    requires forall part :: IsPartition(part, blockAddress, begin, end, sectorSize) ==>
               && blockAddress + Start(sectorSize, part.sectorCount) <= |bus.Mem|
               && GuardedBy(Before(bus.Mem, part), Behind(bus.Mem, part), part)
    modifies bus, bus.ram, bus.cache, bus.dirtyBits
    ensures fresh(dev) && dev.bus == bus && dev.Valid() && dev.Guarded()
    ensures IsPartition(dev.part, blockAddress, begin, end, sectorSize)
    ensures dev.part.blockAddress == blockAddress && dev.part.sectorSize == sectorSize
    ensures dev.part.blockSize == if begin <= end then end - begin else end - begin + WORD_SPACE
    ensures |bus.Mem| == |old(bus.Mem)| && blockAddress + Start(sectorSize, dev.part.sectorCount) <= |bus.Mem|
    ensures dev.before == Before(bus.Mem, dev.part) == Before(old(bus.Mem), dev.part)
    ensures dev.after == Behind(bus.Mem, dev.part) == Behind(old(bus.Mem), dev.part)
    ensures handle == Start(sectorSize, if dev.part.sectorCount >= 3 then 1 else 0)
    ensures dev.disk == Formatted(SectorsIn(old(bus.Mem), blockAddress, sectorSize, dev.part.sectorCount), sectorSize,
                                  dev.part.blockSize, handle)
  {
    hide Device.Valid, GuardedBy, Formatted, SectorsIn;
    var blockSize := Wrap(end - begin);
    var part := Partition(blockAddress, blockSize, SectorCount(blockSize, sectorSize), sectorSize);
    assert IsPartition(part, blockAddress, begin, end, sectorSize);
    dev := new Device(bus, part);
    handle := WriteFormat(dev);
    dev.MemoryAround();
  }

  /** Writes the markers, the device header and the root directory. */
  method WriteFormat(dev: Device) returns (handle: Word)
    requires dev.Valid() && dev.Guarded()
    modifies dev`disk, dev.bus, dev.bus.ram, dev.bus.cache, dev.bus.dirtyBits
    ensures dev.Valid()
    ensures handle == Start(dev.part.sectorSize, if |old(dev.disk)| >= 3 then 1 else 0)
    ensures dev.disk == Formatted(old(dev.disk), dev.part.sectorSize, dev.part.blockSize, handle)
  {
    ghost var d := dev.disk;
    assert Shaped(d, dev.part.sectorSize);
    hide Device.Valid, Device.Guarded, Blank, DirectoryAt, Place, Completed;
    WriteBlank(dev);
    BlankPlace(d, dev.part.sectorSize, dev.part.blockSize);
    ghost var i;
    handle, i := FsDirectoryCreate(dev, NAME_ROOT);
    Complete(dev, handle);
  }

  method Complete(dev: Device, root: Word)
    requires dev.Valid()
    modifies dev`disk, dev.bus, dev.bus.ram, dev.bus.cache, dev.bus.dirtyBits
    ensures dev.Valid()
    ensures dev.disk == Completed(old(dev.disk), dev.part.sectorSize, root, dev.part.sectorSize)
  {
    var base := dev.part.blockAddress;
    dev.WriteWord(base + DEVICE_ROOT, root, 0, DEVICE_ROOT);
    dev.WriteWord(base + DEVICE_SECTOR_SIZE, dev.part.sectorSize, 0, DEVICE_SECTOR_SIZE);
  }

  method WriteBlank(dev: Device)
    requires dev.Valid()
    modifies dev`disk, dev.bus, dev.bus.ram, dev.bus.cache, dev.bus.dirtyBits
    ensures dev.Valid()
    ensures dev.disk == Blank(old(dev.disk), dev.part.sectorSize, dev.part.blockSize)
  {
    var base := dev.part.blockAddress;
    dev.WriteMarks(base, dev.part.sectorCount, SECTOR_FREE, 0);
    dev.WriteBytes(base, HEADER_STRING, 0, 0);
    dev.WriteWord(base + DEVICE_CAPACITY, dev.part.blockSize, 0, DEVICE_CAPACITY);
    dev.WriteBytes(base + DEVICE_TYPE, TYPE_CODE, 0, DEVICE_TYPE);
  }

  // Opening.

  const HEADER_LENGTH := 24

  /** The bytes of a device header at an address of the bus. */
  ghost function HeaderBytes(m: seq<Byte>, address: Word): (h: seq<Byte>)
    requires |m| > 0
    ensures |h| == HEADER_LENGTH
    ensures forall i :: 0 <= i < HEADER_LENGTH ==> h[i] == m[Cell(address, i, |m|)]
  {
    seq(HEADER_LENGTH, i requires 0 <= i => m[Cell(address, i, |m|)])
  }

  /** The partition that a header describes: an empty one unless it is that of a device. */
  ghost function PartitionIn(h: seq<Byte>, address: Word): Partition
    requires |h| >= HEADER_LENGTH
  {
    var size, ss := WordAt(h, DEVICE_CAPACITY), WordAt(h, DEVICE_SECTOR_SIZE);
    if h[0] != MAGIC || h[1] != 'f' as int || h[2] != 's' as int || size == 0 || ss == 0
    then Partition(address, 0, 0, 0)
    else Partition(address, size, SectorCount(size, ss), ss)
  }

  /** Byte i of what the bus shows from an address on. */
  ghost function ByteAt(m: seq<Byte>, address: Word, i: nat): Byte
    requires |m| > 0
  {
    m[(address + i) % |m|]
  }

  /**
   * What an open finds is empty exactly when the three identifying bytes are not all there, or
   * the capacity or the sector size is zero in all four bytes.
   */
  lemma OpensEmptyIff(m: seq<Byte>, address: Word)
    requires |m| > 0
    ensures PartitionIn(HeaderBytes(m, address), address) == Partition(address, 0, 0, 0)
       <==> || ByteAt(m, address, 0) != 0x13
            || ByteAt(m, address, 1) != 'f' as int
            || ByteAt(m, address, 2) != 's' as int
            || (forall i: nat :: 12 <= i < 16 ==> ByteAt(m, address, i) == 0)
            || (forall i: nat :: 20 <= i < 24 ==> ByteAt(m, address, i) == 0)
  {
    hide ByteAt, SectorCount;
    var h := HeaderBytes(m, address);
    forall i: nat | i < HEADER_LENGTH
      ensures h[i] == ByteAt(m, address, i)
    {
      ByteOfHeader(m, address, i);
    }
    ZeroWord(h, DEVICE_CAPACITY);
    ZeroWord(h, DEVICE_SECTOR_SIZE);
    assert h[12] == ByteAt(m, address, 12) && h[13] == ByteAt(m, address, 13);
    assert h[14] == ByteAt(m, address, 14) && h[15] == ByteAt(m, address, 15);
    assert h[20] == ByteAt(m, address, 20) && h[21] == ByteAt(m, address, 21);
    assert h[22] == ByteAt(m, address, 22) && h[23] == ByteAt(m, address, 23);
  }

  lemma ByteOfHeader(m: seq<Byte>, address: Word, i: nat)
    requires |m| > 0 && i < HEADER_LENGTH
    ensures HeaderBytes(m, address)[i] == ByteAt(m, address, i)
  {
  }

  lemma ZeroWord(h: seq<Byte>, offset: nat)
    requires offset + 4 <= |h|
    ensures WordAt(h, offset) == 0 <==> h[offset] == h[offset + 1] == h[offset + 2] == h[offset + 3] == 0
  {
  }

  /** Damaging any one of the three identifying bytes of a header hides its device. */
  lemma DamageHidesDevice(h: seq<Byte>, address: Word, k: nat, b: Byte)
    requires |h| >= HEADER_LENGTH && k < 3 && h[0] == 0x13 && h[1] == 'f' as int && h[2] == 's' as int && b != h[k]
    ensures PartitionIn(h[k := b], address) == Partition(address, 0, 0, 0)
  {
  }

  lemma DamagedFormatIsHidden(d: Disk, ss: Word, capacity: Word, root: Word, address: Word, k: nat, b: Byte)
    requires Shaped(d, ss) && |d| >= 3 && k < 3
    ensures var h := Formatted(d, ss, capacity, root)[0];
      |h| >= HEADER_LENGTH && (b != h[k] ==> PartitionIn(h[k := b], address) == Partition(address, 0, 0, 0))
  {
    hide Formatted, PartitionIn;
    FormattedLayout(d, ss, capacity, root);
    var h := Formatted(d, ss, capacity, root)[0];
    if b != h[k] {
      DamageHidesDevice(h, address, k, b);
    }
  }

  /** The root directory of a formatted device has its name, and its header says that it is one. */
  lemma RootIsNamed(d: Disk, ss: Word, capacity: Word, root: Word)
    requires Shaped(d, ss) && |d| >= 3
    ensures var x := Formatted(d, ss, capacity, root)[1];
      |x| >= 32 && x[1..11] == Padded(['r' as int, 'o' as int, 'o' as int, 't' as int]) && x[18] == 'd' as int
  {
    hide Blank, Place, Allocate;
    BlankPlace(d, ss, capacity);
    var blank := Blank(d, ss, capacity);
    CreateKeepsLayout(blank, ss, 1, NAME_ROOT, DIRECTORY_SIZE);
    assert DataSectors(DIRECTORY_SIZE, ss) == 1;
  }

  method ReadHeaderBytes(bus: CachedBus, address: Word, first: nat, count: nat) returns (bytes: seq<Byte>)
    requires bus.Valid() && first + count <= HEADER_LENGTH
    modifies bus, bus.ram, bus.cache, bus.dirtyBits
    ensures bus.Valid() && bus.Mem == old(bus.Mem)
    ensures bytes == HeaderBytes(bus.Mem, address)[first..first + count]
  {
    bytes := [];
    for i := 0 to count
      invariant bus.Valid() && bus.Mem == old(bus.Mem) && |bytes| == i
      invariant forall j :: 0 <= j < i ==> bytes[j] == HeaderBytes(bus.Mem, address)[first + j]
    {
      CellOfWrapped(address + first + i, |bus.Mem|);
      var b := bus.ReadMemory(Wrap(address + first + i));
      bytes := bytes + [b];
    }
  }

  /** Finds the device at an address. */
  method FsDeviceOpen(bus: CachedBus, deviceAddress: Word) returns (part: Partition)
    requires bus.Valid()
    modifies bus, bus.ram, bus.cache, bus.dirtyBits
    ensures bus.Valid() && bus.Mem == old(bus.Mem)
    ensures part == PartitionIn(HeaderBytes(bus.Mem, deviceAddress), deviceAddress)
  {
    ghost var h := HeaderBytes(bus.Mem, deviceAddress);
    var headerId := ReadHeaderBytes(bus, deviceAddress, 0, 10);
    var sizeBytes := ReadHeaderBytes(bus, deviceAddress, DEVICE_CAPACITY, 4);
    var sectorBytes := ReadHeaderBytes(bus, deviceAddress, DEVICE_SECTOR_SIZE, 4);
    FieldOf(h, DEVICE_CAPACITY);
    FieldOf(h, DEVICE_SECTOR_SIZE);
    var size, ss := FromBytes(sizeBytes), FromBytes(sectorBytes);
    if headerId[0] != MAGIC || headerId[1] != 'f' as int || headerId[2] != 's' as int || size == 0 || ss == 0 {
      return Partition(deviceAddress, 0, 0, 0);
    }
    return Partition(deviceAddress, size, SectorCount(size, ss), ss);
  }

  lemma FieldOf(h: seq<Byte>, offset: nat)
    requires offset + 4 <= |h|
    ensures FromBytes(h[offset..offset + 4]) == WordAt(h, offset)
  {
    assert h[offset..offset + 4] == [h[offset], h[offset + 1], h[offset + 2], h[offset + 3]];
  }

  /** The root directory of a device. The field read is that of the sector size. */
  method FsDeviceGetRootDirectory(bus: CachedBus, deviceAddress: Word) returns (root: Word)
    requires bus.Valid()
    modifies bus, bus.ram, bus.cache, bus.dirtyBits
    ensures bus.Valid() && bus.Mem == old(bus.Mem)
    ensures root == WordAt(HeaderBytes(bus.Mem, deviceAddress), DEVICE_SECTOR_SIZE)
  {
    var ptrBytes := ReadHeaderBytes(bus, deviceAddress, DEVICE_SECTOR_SIZE, 4);
    FieldOf(HeaderBytes(bus.Mem, deviceAddress), DEVICE_SECTOR_SIZE);
    root := FromBytes(ptrBytes);
  }

  /** The header that an open reads at the address of a partition is that of its sector 0. */
  lemma HeaderOfDevice(dev: Device)
    requires dev.Valid()
    ensures HeaderBytes(dev.bus.Mem, dev.part.blockAddress) == dev.disk[0][..HEADER_LENGTH]
  {
    forall i | 0 <= i < HEADER_LENGTH
      ensures HeaderBytes(dev.bus.Mem, dev.part.blockAddress)[i] == dev.disk[0][i]
    {
      dev.InRange(0, i);
      AgreesAt(dev.bus.Mem, dev.disk, dev.part.blockAddress, dev.part.sectorSize, |dev.disk|, 0, i);
      SmallMod(dev.part.blockAddress + i, |dev.bus.Mem|);
    }
  }

  /** An open after a format of at least three sectors recovers the whole partition. */
  lemma OpenRecoversFormat(d: Disk, part: Partition, handle: Word)
    requires Shaped(d, part.sectorSize) && |d| == part.sectorCount >= 3 && part.blockSize > 0
    requires part.sectorCount == SectorCount(part.blockSize, part.sectorSize)
    ensures PartitionIn(Formatted(d, part.sectorSize, part.blockSize, handle)[0], part.blockAddress) == part
  {
    FormattedLayout(d, part.sectorSize, part.blockSize, handle);
  }

  /**
   * The root lookup reads the field of the sector size. It still returns the handle of the
   * directory that the format made, exactly when the device has at least three sectors.
   */
  lemma RootIsFoundIff(d: Disk, ss: Word, capacity: Word, handle: Word)
    requires Shaped(d, ss) && handle == Start(ss, if |d| >= 3 then 1 else 0)
    ensures WordAt(Formatted(d, ss, capacity, handle)[0], DEVICE_SECTOR_SIZE) == handle <==> |d| >= 3
  {
    assert Start(ss, 1) == ss;
  }

  /** The sector-size field after a directory was created at sector 0: all but its highest byte is zero. */
  lemma FieldAfterFailedCreate(x: Sector)
    requires |x| >= 32 && WordAt(x, DEVICE_SECTOR_SIZE) < 0x100_0000
    ensures WordAt(DirectoryHeader(x), DEVICE_SECTOR_SIZE) == 0
  {
    var counted := PatchWord(x, OFFSET_REF_COUNT, 0);
    var b3: int := x[DEVICE_SECTOR_SIZE + 3];
    assert b3 == 0;
    assert counted[20] == counted[21] == counted[22] == 0 && counted[23] == x[23];
  }

  /**
   * Creating a directory keeps the partition that an open finds if and only if there is room for
   * the directory. Without room its fields land in the device header and clear the sector size,
   * so that a later open finds no device.
   */
  lemma CreateKeepsDeviceIff(d: Disk, ss: Word, name: seq<Byte>, address: Word)
    requires Layout(d, ss) && ss < 0x100_0000
    requires WordAt(d[0], DEVICE_SECTOR_SIZE) == ss && PartitionIn(d[0], address).sectorSize == ss
    ensures var i := Place(d, ss, DIRECTORY_SIZE);
      var e := DirectoryAt(d, ss, i, name);
      && (|e[0]| >= HEADER_LENGTH)
      && (PartitionIn(e[0], address) == PartitionIn(d[0], address) <==> i != 0)
      && (i == 0 ==> PartitionIn(e[0], address) == Partition(address, 0, 0, 0))
  {
    hide Place, DirectoryHeader;
    var i := Place(d, ss, DIRECTORY_SIZE);
    if i == 0 {
      FieldAfterFailedCreate(d[0]);
    } else {
      DirectoryKeepsLayout(d, ss, i, name);
    }
  }

  /** The sector-size field after the fields of an extent were written over it. */
  lemma FieldAfterFailedExtent(x: Sector, parent: Word, next: Word)
    requires |x| == SS && WordAt(x, DEVICE_SECTOR_SIZE) < 0x100_0000
    ensures WordAt(ExtentHeader(x, parent, next), DEVICE_SECTOR_SIZE) == 0
  {
    var counted := PatchWord(x, OFFSET_REF_COUNT, 0);
    var b3: int := x[DEVICE_SECTOR_SIZE + 3];
    assert b3 == 0;
    assert counted[20] == counted[21] == counted[22] == 0 && counted[23] == x[23];
    WordFrame(ExtentHeader(x, parent, next), counted, DEVICE_SECTOR_SIZE);
  }

  /** The same condition for making an extent: without room a later open finds no device. */
  lemma ExtentKeepsDeviceIff(d: Disk, parent: Word, next: Word, address: Word)
    requires Formed(d) && WordAt(d[0], DEVICE_SECTOR_SIZE) == PartitionIn(d[0], address).sectorSize == SS
    ensures var i := Place(d, SS, DIRECTORY_SIZE);
      var e := ExtentAt(d, i, parent, next);
      && (PartitionIn(e[0], address) == PartitionIn(d[0], address) <==> i != 0)
      && (i == 0 ==> PartitionIn(e[0], address) == Partition(address, 0, 0, 0))
  {
    hide Place, ExtentHeader;
    var i := Place(d, SS, DIRECTORY_SIZE);
    if i == 0 {
      FieldAfterFailedExtent(d[0], parent, next);
    } else {
      ExtentIsNode(d, i, parent, next);
    }
  }

  /**
   * So an addition behind a last extent of six entries that finds no room for one more keeps the
   * directory well formed and its handles in order, but the device is no longer found.
   */
  lemma AddWithoutRoomLosesDevice(d: Disk, hs: seq<nat>, f: Word, address: Word)
    requires IsChain(d, hs) && LacksRoom(d, hs) && |Contents(d, hs)[|hs| - 1]| == CAPACITY - 1
    requires WordAt(d[0], DEVICE_SECTOR_SIZE) == PartitionIn(d[0], address).sectorSize == SS
    ensures var e := AddWithoutRoom(d, hs, f);
      && IsChain(e, hs) && Flat(Contents(e, hs)) == Flat(Contents(d, hs)) + [f]
      && PartitionIn(e[0], address) == Partition(address, 0, 0, 0)
  {
    hide IsChain, Contents, AddWithoutRoom, Flat, LacksRoom, ExtentAt;
    AddWithoutRoomIff(d, hs, f);
    ContentsLength(d, hs);
    AppendsLast(Contents(d, hs), f);
    HeaderWithoutRoom(d, hs, f);
    ExtentKeepsDeviceIff(d, SS * hs[|hs| - 1], 0, address);
  }

  lemma HeaderWithoutRoom(d: Disk, hs: seq<nat>, f: Word)
    requires IsChain(d, hs) && LacksRoom(d, hs)
    ensures Formed(d) && |hs| > 0 && SS * hs[|hs| - 1] < WORD_SPACE && Place(d, SS, DIRECTORY_SIZE) == 0
    ensures AddWithoutRoom(d, hs, f)[0] == ExtentAt(d, 0, SS * hs[|hs| - 1], 0)[0]
  {
    hide ExtentAt, Place;
    FailedLink(d, hs);
  }
}
