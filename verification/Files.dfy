/**
 * Files: headers, names, the table of open files, and reading and writing (fsFile.c).
 */
module Files {
  import opened Words
  import opened FirstFit
  import opened Sectors
  import opened Blocks
  import opened FileData
  import opened Volume
  import opened Allocator

  const MAX_OPEN_FILES := 16
  const SPACE: Byte := ' ' as int

  /** The characters of a C string that stands at the start of the given bytes. */
  function CString(bytes: seq<Byte>): (s: seq<Byte>)
    ensures s <= bytes && 0 !in s
    ensures |s| < |bytes| ==> bytes[|s|] == 0
  {
    if bytes == [] || bytes[0] == 0 then [] else [bytes[0]] + CString(bytes[1..])
  }

  /** A name as it is stored and compared: ten characters, filled up with spaces. */
  function Padded(name: seq<Byte>): (p: seq<Byte>)
    ensures |p| == NAME_LENGTH
    ensures forall i :: 0 <= i < NAME_LENGTH ==>
              p[i] == if i < |CString(name)| then CString(name)[i] else SPACE
  {
    var s: seq<Byte> := CString(name) + seq<Byte>(NAME_LENGTH, _ => SPACE);
    s[..NAME_LENGTH]
  }

  lemma {:induction false} CStringOfClean(bytes: seq<Byte>)
    requires 0 !in bytes
    ensures CString(bytes) == bytes
  {
    if bytes != [] {
      CStringOfClean(bytes[1..]);
    }
  }

  /** Storing a padded name and reading it back as a C string changes nothing. */
  lemma PaddedIsStable(name: seq<Byte>)
    ensures Padded(Padded(name)) == Padded(name)
  {
    CStringOfClean(Padded(name));
  }

  /** Pads a name the way fsFileSetName does: over a buffer of spaces, up to the terminator. */
  method CleanName(name: seq<Byte>) returns (p: seq<Byte>)
    ensures p == Padded(name)
  {
    p := seq(NAME_LENGTH, _ => SPACE);
    ghost var s := CString(name);
    var i := 0;
    while i < NAME_LENGTH && i < |name| && name[i] != 0
      invariant |p| == NAME_LENGTH && 0 <= i <= NAME_LENGTH && i <= |s|
      invariant forall j :: 0 <= j < NAME_LENGTH ==> p[j] == if j < i then s[j] else SPACE
    {
      assert i < |s|;
      p := p[i := name[i]];
      i := i + 1;
    }
    assert i == NAME_LENGTH || i == |s|;
  }

  const ATTRIBUTES_FILE: seq<Byte> := [' ' as int, 'r' as int, 'w' as int, ' ' as int]

  /** The header of a freshly created file, over the bytes its sector held. */
  ghost function NewHeader(x: Sector, name: seq<Byte>): (y: Sector)
    requires |x| >= 32
    ensures |y| == |x| && y[0] == x[0]
    ensures WordAt(y, OFFSET_SIZE) == WordAt(x, OFFSET_SIZE)
    ensures WordAt(y, OFFSET_NEXT) == 0 && WordAt(y, OFFSET_PARENT) == 0
    ensures y[OFFSET_NAME..OFFSET_NAME + NAME_LENGTH] == Padded(name)
  {
    var named := Patch(x, OFFSET_NAME, Padded(name));
    var attributed := Patch(named, OFFSET_ATTRIBUTES, ATTRIBUTES_FILE);
    var last := PatchWord(attributed, OFFSET_NEXT, 0);
    var root := PatchWord(last, OFFSET_PARENT, 0);
    var y := Patch(root, OFFSET_FLAG, [0]);
    WordFrame(y, x, OFFSET_SIZE);
    WordFrame(y, last, OFFSET_NEXT);
    WordFrame(y, root, OFFSET_PARENT);
    y
  }

  lemma ZeroBytes(x: Sector, offset: nat)
    requires offset + 4 <= |x| && WordAt(x, offset) == 0
    ensures x[offset] == x[offset + 1] == x[offset + 2] == x[offset + 3] == 0
  {
  }

  /**
   * Every byte of the header of a new file: its padded name, the attributes of a file that can be
   * read and written, no flags and no links; the others are as the allocation left them.
   */
  lemma NewHeaderBytes(x: Sector, name: seq<Byte>, i: nat)
    requires 32 <= |x| && i < |x|
    ensures NewHeader(x, name)[i] ==
            if 1 <= i < 11 then Padded(name)[i - 1]
            else if i == 15 then ' ' as int
            else if i == 16 then 'r' as int
            else if i == 17 then 'w' as int
            else if i == 18 then ' ' as int
            else if 23 <= i < 32 then 0
            else x[i]
  {
    ZeroBytes(NewHeader(x, name), OFFSET_NEXT);
    ZeroBytes(NewHeader(x, name), OFFSET_PARENT);
  }

  /** The disk after a file is created at sector i. */
  ghost function CreateAt(d: Disk, ss: nat, i: nat, name: seq<Byte>, size: Word): (e: Disk)
    requires Shaped(d, ss) && i < |d|
    ensures |e| == |d|
  {
    var a := Allocate(d, ss, i, size);
    a[i := NewHeader(a[i], name)]
  }

  /** Creating a file adds one block, of the requested size, and changes no other sector. */
  lemma CreateKeepsLayout(d: Disk, ss: nat, i: nat, name: seq<Byte>, size: Word)
    requires Layout(d, ss) && Fits(Marks(d), i, DataSectors(size, ss))
    ensures var e := CreateAt(d, ss, i, name, size);
      && Layout(e, ss) && i > 0
      && (forall s :: IsLive(e, ss, s) <==> IsLive(d, ss, s) || s == i)
      && SizeOf(e, ss, i) == size
      && (forall k :: 0 <= k < |d| && !InBlock(e, ss, i, k) ==> e[k] == d[k])
      && (forall s, k :: InBlock(d, ss, s, k) ==> k < |d| && e[k] == d[k])
  {
    var a, e := Allocate(d, ss, i, size), CreateAt(d, ss, i, name, size);
    AllocateKeepsLayout(d, ss, i, size);
    LayoutFrame(a, e, ss);
    forall s, k | InBlock(d, ss, s, k)
      ensures k < |d| && e[k] == d[k]
    {
      assert !InBlock(a, ss, i, k);
      assert i != k;
    }
  }

  /** Fills in the header of a new file, field by field. */
  method WriteHeader(dev: Device, handle: Word, name: seq<Byte>, ghost i: nat)
    requires dev.Valid() && i < |dev.disk| && handle == Start(dev.part.sectorSize, i)
    modifies dev`disk, dev.bus, dev.bus.ram, dev.bus.cache, dev.bus.dirtyBits
    ensures dev.Valid()
    ensures dev.disk == old(dev.disk)[i := NewHeader(old(dev.disk)[i], name)]
  {
    hide Device.Valid, Patch, PatchWord, Padded;
    dev.Shape();
    var header := dev.part.blockAddress + handle;
    var padded := CleanName(name);
    dev.WriteBytes(header + OFFSET_NAME, padded, i, OFFSET_NAME);
    dev.WriteBytes(header + OFFSET_ATTRIBUTES, ATTRIBUTES_FILE, i, OFFSET_ATTRIBUTES);
    dev.WriteWord(header + OFFSET_NEXT, 0, i, OFFSET_NEXT);
    dev.WriteWord(header + OFFSET_PARENT, 0, i, OFFSET_PARENT);
    dev.WriteBytes(header + OFFSET_FLAG, [0], i, OFFSET_FLAG);
  }

  /** Creates a file: a zero handle and no change when there is no room for it. */
  method FsFileCreate(dev: Device, name: seq<Byte>, size: Word) returns (handle: Word, ghost i: nat)
    requires dev.Valid() && dev.Guarded()
    modifies dev`disk, dev.bus, dev.bus.ram, dev.bus.cache, dev.bus.dirtyBits
    ensures dev.Valid()
    ensures i == Place(old(dev.disk), dev.part.sectorSize, size)
    ensures handle == Start(dev.part.sectorSize, i)
    ensures handle == 0 <==> i == 0
    ensures dev.disk == if i == 0 then old(dev.disk)
                        else CreateAt(old(dev.disk), dev.part.sectorSize, i, name, size)
  {
    handle, i := FsAllocate(dev, size);
    if handle != 0 {
      WriteHeader(dev, handle, name, i);
    }
  }

  /** The table of open files: by slot, the address of the header and the size of the file. */
  class OpenFiles {
    var fileList: seq<nat>
    var fileSize: seq<Word>

    constructor ()
      ensures Valid() && forall i :: 0 <= i < MAX_OPEN_FILES ==> fileList[i] == 0
    {
      fileList := seq(MAX_OPEN_FILES, _ => 0);
      fileSize := seq(MAX_OPEN_FILES, _ => 0);
    }

    ghost predicate Valid()
      reads this
    {
      && |fileList| == |fileSize| == MAX_OPEN_FILES
      && forall i :: 0 <= i < MAX_OPEN_FILES && fileList[i] == 0 ==> fileSize[i] == 0
    }

    ghost predicate HasFreeSlot()
      reads this
    {
      exists i :: 0 <= i < |fileList| && fileList[i] == 0
    }
  }

  /** The slot names the file whose header is sector s, and n bytes from there on lie in the partition. */
  ghost predicate Opens(dev: Device, files: OpenFiles, index: int, s: nat, n: int)
    requires 0 <= index < |files.fileList|
    reads files, dev
  {
    && files.fileList[index] == dev.Address(s, 0)
    && n >= 0 && dev.part.sectorSize >= 32 && HasRoom(dev.disk, dev.part.sectorSize, s, n)
  }

  /** The first free slot of a table that has one. */
  method FreeSlot(files: OpenFiles) returns (index: nat)
    requires files.Valid() && files.HasFreeSlot()
    ensures index < MAX_OPEN_FILES && files.fileList[index] == 0
    ensures forall j :: 0 <= j < index ==> files.fileList[j] != 0
  {
    index := 0;
    while files.fileList[index] != 0
      invariant index < MAX_OPEN_FILES
      invariant exists j :: index <= j < MAX_OPEN_FILES && files.fileList[j] == 0
      invariant forall j :: 0 <= j < index ==> files.fileList[j] != 0
      decreases MAX_OPEN_FILES - index
    {
      index := index + 1;
    }
  }

  /**
   * Opens a file in the first free slot, and refuses a sector that is not in use. A full
   * table is not checked for, so a free slot is required.
   */
  method FsFileOpen(dev: Device, files: OpenFiles, handle: Word, ghost s: nat) returns (index: int)
    requires dev.Valid() && files.Valid() && files.HasFreeSlot()
    requires s < |dev.disk| && handle == Start(dev.part.sectorSize, s)
    requires dev.part.blockAddress + handle > 0
    modifies files, dev.bus, dev.bus.ram, dev.bus.cache, dev.bus.dirtyBits
    ensures dev.Valid() && files.Valid()
    ensures dev.disk[s][0] == SECTOR_FREE ==>
      index == -1 && files.fileList == old(files.fileList) && files.fileSize == old(files.fileSize)
    ensures dev.disk[s][0] != SECTOR_FREE ==>
      && 0 <= index < MAX_OPEN_FILES && old(files.fileList)[index] == 0
      && (forall j :: 0 <= j < index ==> old(files.fileList)[j] != 0)
      && files.fileList == old(files.fileList)[index := dev.Address(s, 0)]
      && files.fileSize == old(files.fileSize)[index := WordAt(dev.disk[s], OFFSET_SIZE)]
  {
    hide Device.Valid, Start;
    dev.Shape();
    var free := FreeSlot(files);
    var headerByte := dev.ReadByte(dev.part.blockAddress + handle, s, 0);
    if headerByte == SECTOR_FREE {
      return -1;
    }
    dev.InRange(s, 0);
    var size := dev.ReadWord(dev.part.blockAddress + handle + OFFSET_SIZE, s, OFFSET_SIZE);
    files.fileSize := files.fileSize[free := size];
    files.fileList := files.fileList[free := dev.part.blockAddress + handle];
    index := free;
  }

  /** Closes a slot; a slot that is not open, or does not exist, is refused. */
  method FsFileClose(files: OpenFiles, index: int) returns (closed: bool)
    requires files.Valid() && index != MAX_OPEN_FILES
    modifies files
    ensures files.Valid()
    ensures closed <==> 0 <= index < MAX_OPEN_FILES && old(files.fileList)[index] != 0
    ensures files.fileList == if closed then old(files.fileList)[index := 0] else old(files.fileList)
    ensures files.fileSize == if closed then old(files.fileSize)[index := 0] else old(files.fileSize)
  {
    if index < 0 || index > MAX_OPEN_FILES {
      return false;
    }
    if files.fileList[index] == 0 {
      return false;
    }
    files.fileList := files.fileList[index := 0];
    files.fileSize := files.fileSize[index := 0];
    return true;
  }

  /** A slot that names an open file, and a size that the transfer guard lets pass. */
  ghost predicate CanTransfer(files: OpenFiles, index: int, size: Word)
    requires files.Valid()
    reads files
  {
    && 0 <= index < MAX_OPEN_FILES && files.fileList[index] != 0
    && Accepts(size, files.fileSize[index])
  }

  /**
   * A running sector counter, once it has skipped a full sector, names the place of byte i:
   * the position computed from it is that of the byte's sector and offset.
   */
  lemma CursorIsPlace(ss: nat, s: nat, i: nat, full: nat, counter: nat)
    requires ss >= 32 && i == Start(ss - 1, full) + counter && counter <= ss - 1
    ensures var q := if counter == ss - 1 then full + 1 else full;
      var r := if counter == ss - 1 then 0 else counter;
      && i == Start(ss - 1, q) + r && r < ss - 1
      && Start(ss, s) + ss + (i + q) + 1 == Start(ss, s + DataSectors(i, ss)) + 1 + PlaceOf(i, ss)
      && 0 <= PlaceOf(i, ss) < ss - 1
  {
    var q := if counter == ss - 1 then full + 1 else full;
    var r := if counter == ss - 1 then 0 else counter;
    PlaceIsUnique(i, ss, q, r);
    PositionOfByte(i, ss);
    StartOfSum(ss, s, q + 1);
  }

  /** The step of both transfer loops that passes over the marker byte of a sector. */
  method SkipMarker(ss: nat, sector: int, sectorCounter: int, ghost s: nat, ghost i: nat, ghost full: nat)
    returns (sector': int, sectorCounter': int, ghost full': nat)
    requires ss >= 32 && sector == i + full && 0 <= sectorCounter <= ss - 1
    requires i == Start(ss - 1, full) + sectorCounter
    ensures sector' == i + full' && 0 <= sectorCounter' < ss - 1
    ensures i == Start(ss - 1, full') + sectorCounter'
    ensures 0 <= PlaceOf(i, ss) < ss - 1
    ensures Start(ss, s) + (ss + sector' + 1) == Start(ss, s + DataSectors(i, ss)) + 1 + PlaceOf(i, ss)
  {
    CursorIsPlace(ss, s, i, full, sectorCounter);
    sector', sectorCounter', full' := sector, sectorCounter, full;
    if sectorCounter == ss - 1 {
      sectorCounter' := 0;
      sector' := sector + 1;
      full' := full + 1;
    }
  }

  /** The checks that a read and a write share. */
  method MayTransfer(files: OpenFiles, index: int, size: Word) returns (ok: bool)
    requires files.Valid() && index != MAX_OPEN_FILES
    ensures ok <==> CanTransfer(files, index, size)
  {
    if index < 0 || index > MAX_OPEN_FILES {
      return false;
    }
    if files.fileList[index] == 0 {
      return false;
    }
    var fileSize: int := files.fileSize[index];
    return !(Wrap(size - 1) >= Wrap(fileSize + 2));
  }

  /**
   * What the guard accepts stays in the block of the open file, if the size recorded for the slot
   * takes no more sectors than the one in the header.
   */
  lemma TransferHasRoom(dev: Device, files: OpenFiles, index: int, size: Word, s: nat)
    requires dev.Valid() && files.Valid() && CanTransfer(files, index, size)
    requires files.fileList[index] == dev.Address(s, 0)
    requires Layout(dev.disk, dev.part.sectorSize) && IsLive(dev.disk, dev.part.sectorSize, s)
    requires IsSafe(dev.disk, dev.part.sectorSize, s, files.fileSize[index])
    ensures size > 0 && InOwnBlock(dev.disk, dev.part.sectorSize, s, size - 1)
    ensures Opens(dev, files, index, s, size - 1)
  {
    hide Device.Valid, DataSectors, Accepts, IsSafe;
    dev.Shape();
    SafeIsOwn(dev.disk, dev.part.sectorSize, s, files.fileSize[index], size);
  }

  /** The writing loop: skips the marker byte of each sector. */
  method StoreBytes(dev: Device, start: nat, buffer: array<Byte>, n: nat, ghost s: nat)
    requires dev.Valid() && n <= buffer.Length
    requires HasRoom(dev.disk, dev.part.sectorSize, s, n) && start == dev.Address(s, 0)
    requires buffer != dev.bus.ram && buffer != dev.bus.cache
    modifies dev`disk, dev.bus, dev.bus.ram, dev.bus.cache, dev.bus.dirtyBits
    ensures dev.Valid()
    ensures dev.disk == WriteData(old(dev.disk), dev.part.sectorSize, s, buffer[..n])
  {
    hide Device.Valid, DataByte, ReadData, PlaceOf, Shaped;
    dev.Shape();
    var ss: int := dev.part.sectorSize;
    var sector: int, sectorCounter: int := 0, 0;
    ghost var full: nat, d, data := 0, dev.disk, buffer[..n];
    RoomForPrefixes(d, ss, s, n);
    assert data[..0] == [];
    for i := 0 to n
      invariant dev.Valid()
      invariant dev.disk == WriteData(d, ss, s, data[..i])
      invariant sector == i + full && sectorCounter <= ss - 1
      invariant i == Start(ss - 1, full) + sectorCounter
    {
      WriteStep(d, ss, s, data, i);
      sector, sectorCounter, full := SkipMarker(ss, sector, sectorCounter, s, i, full);
      var positionOffset := ss + sector + 1;
      dev.WriteByte(start + positionOffset, buffer[i], s + DataSectors(i, ss), 1 + PlaceOf(i, ss));
      sectorCounter := sectorCounter + 1;
      sector := sector + 1;
    }
    assert data[..n] == data;
  }

  lemma ReadByteAt(d: Disk, ss: nat, s: nat, n: nat, i: nat)
    requires Shaped(d, ss) && HasRoom(d, ss, s, n) && i < n
    ensures s + DataSectors(i, ss) < |d| && 0 <= PlaceOf(i, ss) < ss - 1
    ensures ReadData(d, ss, s, n)[i] == d[s + DataSectors(i, ss)][1 + PlaceOf(i, ss)]
  {
    PlaceInRange(i, ss);
  }

  /** The reading loop, over the same positions. */
  method LoadBytes(dev: Device, start: nat, buffer: array<Byte>, n: nat, ghost s: nat)
    requires dev.Valid() && n <= buffer.Length
    requires HasRoom(dev.disk, dev.part.sectorSize, s, n) && start == dev.Address(s, 0)
    requires buffer != dev.bus.ram && buffer != dev.bus.cache
    modifies buffer, dev.bus, dev.bus.ram, dev.bus.cache, dev.bus.dirtyBits
    ensures dev.Valid()
    ensures buffer[..n] == ReadData(dev.disk, dev.part.sectorSize, s, n)
    ensures buffer[n..] == old(buffer[n..])
  {
    hide Device.Valid, ReadData, DataByte, PlaceOf;
    dev.Shape();
    var ss: int := dev.part.sectorSize;
    var sector: int, sectorCounter: int := 0, 0;
    ghost var full: nat := 0;
    ghost var data := ReadData(dev.disk, ss, s, n);
    for i := 0 to n
      invariant dev.Valid()
      invariant forall j :: 0 <= j < i ==> buffer[j] == data[j]
      invariant forall j :: n <= j < buffer.Length ==> buffer[j] == old(buffer[j])
      invariant sector == i + full && sectorCounter <= ss - 1
      invariant i == Start(ss - 1, full) + sectorCounter
    {
      sector, sectorCounter, full := SkipMarker(ss, sector, sectorCounter, s, i, full);
      var positionOffset := ss + sector + 1;
      ReadByteAt(dev.disk, ss, s, n, i);
      buffer[i] := dev.ReadByte(start + positionOffset, s + DataSectors(i, ss), 1 + PlaceOf(i, ss));
      sectorCounter := sectorCounter + 1;
      sector := sector + 1;
    }
  }

  /** Writes all but the last of size bytes over the start of an open file. */
  method FsFileWrite(dev: Device, files: OpenFiles, index: int, buffer: array<Byte>, size: Word, ghost s: nat)
    returns (ok: bool)
    requires dev.Valid() && files.Valid() && index != MAX_OPEN_FILES
    requires CanTransfer(files, index, size) ==>
      Opens(dev, files, index, s, size - 1) && size - 1 <= buffer.Length
    requires buffer != dev.bus.ram && buffer != dev.bus.cache
    modifies dev`disk, dev.bus, dev.bus.ram, dev.bus.cache, dev.bus.dirtyBits
    ensures dev.Valid()
    ensures ok <==> CanTransfer(files, index, size)
    ensures !ok ==> dev.disk == old(dev.disk)
    ensures ok ==> size > 0 && HasRoom(old(dev.disk), dev.part.sectorSize, s, size - 1)
    ensures ok ==> dev.disk == WriteData(old(dev.disk), dev.part.sectorSize, s, buffer[..size - 1])
  {
    ok := MayTransfer(files, index, size);
    if ok {
      StoreBytes(dev, files.fileList[index], buffer, size - 1, s);
    }
  }

  /** Reads all but the last of size bytes from the start of an open file. */
  method FsFileRead(dev: Device, files: OpenFiles, index: int, buffer: array<Byte>, size: Word, ghost s: nat)
    returns (ok: bool)
    requires dev.Valid() && files.Valid() && index != MAX_OPEN_FILES
    requires CanTransfer(files, index, size) ==>
      Opens(dev, files, index, s, size - 1) && size - 1 <= buffer.Length
    requires buffer != dev.bus.ram && buffer != dev.bus.cache
    modifies buffer, dev.bus, dev.bus.ram, dev.bus.cache, dev.bus.dirtyBits
    ensures dev.Valid()
    ensures ok <==> CanTransfer(files, index, size)
    ensures !ok ==> buffer[..] == old(buffer[..])
    ensures ok ==> size > 0 && HasRoom(dev.disk, dev.part.sectorSize, s, size - 1)
    ensures ok ==>
      && buffer[..size - 1] == ReadData(dev.disk, dev.part.sectorSize, s, size - 1)
      && buffer[size - 1..] == old(buffer[size - 1..])
  {
    ok := MayTransfer(files, index, size);
    if ok {
      LoadBytes(dev, files.fileList[index], buffer, size - 1, s);
    }
  }
}
