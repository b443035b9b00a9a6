/**
 * The operations on directories (fsDirectory.c), over a device and a table of open files.
 */
module DirectoryFiles {
  import opened Words
  import opened FirstFit
  import opened Sectors
  import opened Blocks
  import opened FileData
  import opened Volume
  import opened Files
  import opened Extents
  import opened Chains

  /** The bytes of a directory body that a transfer of its size moves. */
  const BODY := 29

  /** A device with 32-byte sectors, and a table of open files with a slot to spare. */
  ghost predicate Usable(dev: Device, files: OpenFiles)
    reads dev, dev.bus, dev.bus.ram, dev.bus.cache, dev.bus.dirtyBits, files
  {
    dev.Valid() && dev.part.sectorSize == SS && files.Valid() && files.HasFreeSlot()
  }

  /** A file of directory size in use, whatever it counts. */
  ghost predicate HasBody(d: Disk, s: nat)
    requires Shaped(d, SS)
  {
    0 < s && s + 1 < |d| && d[s][0] == SECTOR_HEADER && SizeOf(d, SS, s) == DIRECTORY_SIZE
  }

  /** Byte i of a small file lies at offset 1 + i of its first data sector. */
  lemma SmallPlace(i: nat, ss: nat)
    requires ss >= 2 && i < ss - 1
    ensures DataSectors(i, ss) == 1 && PlaceOf(i, ss) == i
  {
  }

  /** The body of a directory lies in one piece behind the marker of its data sector. */
  lemma BodyOf(d: Disk, ss: nat, s: nat, n: nat)
    requires Shaped(d, ss) && s + 1 < |d| && n < ss
    ensures HasRoom(d, ss, s, n)
    ensures ReadData(d, ss, s, n) == d[s + 1][1..1 + n]
  {
    if n > 0 {
      SmallPlace(n - 1, ss);
    }
    forall i | 0 <= i < n
      ensures ReadData(d, ss, s, n)[i] == d[s + 1][1 + i]
    {
      SmallPlace(i, ss);
    }
  }

  lemma PatchedOneMore(x: Sector, data: seq<Byte>)
    requires 0 < |data| < |x|
    ensures var n := |data| - 1;
      Patch(x, 1, data) == Patch(x, 1, data[..n])[1 + n := data[n]]
  {
    PatchStep(x, 1, data, |data| - 1);
    assert data[..|data|] == data;
  }

  lemma {:induction false} WrittenBody(d: Disk, ss: nat, s: nat, data: seq<Byte>)
    requires Shaped(d, ss) && s + 1 < |d| && |data| < ss
    ensures HasRoom(d, ss, s, |data|)
    ensures WriteData(d, ss, s, data) == d[s + 1 := Patch(d[s + 1], 1, data)]
  {
    if data == [] {
      assert Patch(d[s + 1], 1, data) == d[s + 1];
    } else {
      var n := |data| - 1;
      SmallPlace(n, ss);
      WrittenBody(d, ss, s, data[..n]);
      PatchedOneMore(d[s + 1], data);
    }
  }

  /** Opens a directory extent and reads its body into a buffer of the given length. */
  method OpenBody(dev: Device, files: OpenFiles, handle: Word, length: nat, ghost s: nat)
    returns (index: int, size: Word, body: seq<Byte>)
    requires Usable(dev, files) && HasBody(dev.disk, s) && handle == SS * s && length >= BODY
    modifies files, dev.bus, dev.bus.ram, dev.bus.cache, dev.bus.dirtyBits
    ensures dev.Valid() && files.Valid() && size == DIRECTORY_SIZE
    ensures 0 <= index < MAX_OPEN_FILES && old(files.fileList)[index] == 0
    ensures files.fileList == old(files.fileList)[index := dev.Address(s, 0)]
    ensures files.fileSize == old(files.fileSize)[index := DIRECTORY_SIZE]
    ensures |body| == length && body[..BODY] == dev.disk[s + 1][1..1 + BODY]
  {
    hide Device.Valid, PlaceOf, ReadData, DataSectors;
    dev.Shape();
    var buffer := new Byte[length];
    StartIsProduct(SS, s);
    index := FsFileOpen(dev, files, handle, s);
    size := dev.ReadWord(dev.part.blockAddress + handle + OFFSET_SIZE, s, OFFSET_SIZE);
    BodyOf(dev.disk, dev.part.sectorSize, s, size - 1);
    SmallPlace(size, dev.part.sectorSize);
    assert Opens(dev, files, index, s, size - 1);
    var ok := FsFileRead(dev, files, index, buffer, size, s);
    body := buffer[..];
    assert body[..BODY] == buffer[..BODY];
  }

  /** The bytes of a directory body hold the given entries. */
  ghost predicate BodyHolds(body: seq<Byte>, xs: Extent) {
    && |body| >= BODY && |xs| <= CAPACITY
    && forall j :: 0 <= j < |xs| ==> xs[j] == EntryIn(body, j)
  }

  /** Entry j of a directory body. */
  function EntryIn(body: seq<Byte>, j: nat): Word
    requires |body| >= BODY && j < CAPACITY
  {
    FromBytes([body[4 * j], body[4 * j + 1], body[4 * j + 2], body[4 * j + 3]])
  }

  lemma NodeBody(d: Disk, s: nat, body: seq<Byte>)
    requires Shaped(d, SS) && IsNode(d, s)
    requires |body| >= BODY && body[..BODY] == d[s + 1][1..1 + BODY]
    ensures BodyHolds(body, Entries(d, s))
  {
    assert forall k :: 0 <= k < BODY ==> body[k] == body[..BODY][k] == d[s + 1][1 + k];
    forall j | 0 <= j < |Entries(d, s)|
      ensures Entries(d, s)[j] == EntryIn(body, j)
    {
    }
  }

  lemma WalkStarts(d: Disk, hs: seq<nat>)
    requires IsChain(d, hs)
    ensures |hs| > 0 && Flat(Contents(d, hs)[..0]) == []
  {
  }

  /** A chain to walk: its first node has the given handle. */
  ghost predicate Walkable(dev: Device, files: OpenFiles, handle: Word, hs: seq<nat>)
    reads dev, dev.bus, dev.bus.ram, dev.bus.cache, dev.bus.dirtyBits, files
  {
    Usable(dev, files) && IsChain(dev.disk, hs) && handle == SS * hs[0]
  }

  /** The table of open files as it was, but for one slot that was free. */
  ghost predicate Borrowed(files: OpenFiles, index: int, list: seq<nat>, sizes: seq<Word>)
    reads files
  {
    && files.Valid() && |list| == |sizes| == MAX_OPEN_FILES
    && 0 <= index < MAX_OPEN_FILES && list[index] == sizes[index] == 0
    && files.fileList[index] != 0
    && files.fileList == list[index := files.fileList[index]]
    && files.fileSize == sizes[index := files.fileSize[index]]
  }

  /** Closes the borrowed slot, which leaves the table as it was. */
  method ReturnSlot(files: OpenFiles, index: int, ghost list: seq<nat>, ghost sizes: seq<Word>)
    requires Borrowed(files, index, list, sizes)
    modifies files
    ensures files.Valid() && files.fileList == list && files.fileSize == sizes
  {
    var closed := FsFileClose(files, index);
    assert files.fileList == list && files.fileSize == sizes;
  }

  /** What a walk needs to know of node n of a chain. */
  lemma NodeOfChain(d: Disk, hs: seq<nat>, n: nat)
    requires IsChain(d, hs) && n < |hs|
    ensures Shaped(d, SS) && NodeAt(d, hs, n) && IsNode(d, hs[n]) && HasBody(d, hs[n])
    ensures |Contents(d, hs)| == |hs| && Contents(d, hs)[n] == Entries(d, hs[n])
    ensures |Contents(d, hs)[n]| == Field(d, hs[n], OFFSET_REF_COUNT) <= CAPACITY
    ensures Field(d, hs[n], OFFSET_NEXT) == if n + 1 < |hs| then SS * hs[n + 1] else 0
    ensures n + 1 < |hs| ==> hs[n + 1] > 0
  {
    assert NodeAt(d, hs, n);
    assert n + 1 < |hs| ==> NodeAt(d, hs, n + 1);
  }

  /** Visits node n of a chain: its entry count and its body. */
  method EnterNode(dev: Device, files: OpenFiles, node: Word, length: nat, ghost hs: seq<nat>, ghost n: nat)
    returns (refCount: Word, index: int, size: Word, body: seq<Byte>)
    requires Usable(dev, files) && IsChain(dev.disk, hs) && n < |hs| && node == SS * hs[n] && length >= BODY
    modifies files, dev.bus, dev.bus.ram, dev.bus.cache, dev.bus.dirtyBits
    ensures dev.Valid() && Borrowed(files, index, old(files.fileList), old(files.fileSize))
    ensures files.fileList[index] == dev.Address(hs[n], 0)
    ensures files.fileSize[index] == size == DIRECTORY_SIZE
    ensures refCount == |Contents(dev.disk, hs)[n]|
    ensures NodeAt(dev.disk, hs, n) && |body| == length && body[..BODY] == dev.disk[hs[n] + 1][1..1 + BODY]
  {
    hide Device.Valid, IsChain, NodeAt, IsNode, HasBody, Contents, Entries, OpenFiles.HasFreeSlot;
    NodeOfChain(dev.disk, hs, n);
    StartIsProduct(SS, hs[n]);
    refCount := dev.ReadWord(dev.part.blockAddress + node + OFFSET_REF_COUNT, hs[n], OFFSET_REF_COUNT);
    index, size, body := OpenBody(dev, files, node, length, hs[n]);
  }

  /** Leaves a node: closes it, and reads the link to the next. */
  method LeaveNode(dev: Device, files: OpenFiles, node: Word, index: int, ghost hs: seq<nat>, ghost n: nat,
                   ghost list: seq<nat>, ghost sizes: seq<Word>)
    returns (next: Word)
    requires dev.Valid() && dev.part.sectorSize == SS && Borrowed(files, index, list, sizes)
    requires IsChain(dev.disk, hs) && n < |hs| && node == SS * hs[n]
    modifies files, dev.bus, dev.bus.ram, dev.bus.cache, dev.bus.dirtyBits
    ensures dev.Valid() && files.Valid() && files.fileList == list && files.fileSize == sizes
    ensures next == if n + 1 < |hs| then SS * hs[n + 1] else 0
    ensures n + 1 < |hs| ==> next != 0
  {
    hide Device.Valid, IsChain, NodeAt, IsNode, HasBody, Contents, Entries, Borrowed, OpenFiles.Valid;
    NodeOfChain(dev.disk, hs, n);
    StartIsProduct(SS, hs[n]);
    ReturnSlot(files, index, list, sizes);
    next := dev.ReadWord(dev.part.blockAddress + node + OFFSET_NEXT, hs[n], OFFSET_NEXT);
  }

  /** Counts on through the entries of one extent, up to the one with the wanted index. */
  method PickEntry(body: seq<Byte>, refCount: nat, counter: nat, wanted: nat, ghost xs: Extent)
    returns (found: bool, file: Word, counter': nat)
    requires BodyHolds(body, xs) && refCount == |xs| && counter <= wanted
    ensures found <==> wanted < counter + |xs|
    ensures found ==> file == xs[wanted - counter]
    ensures !found ==> counter' == counter + |xs|
  {
    found, file, counter' := false, 0, counter;
    for i := 0 to refCount
      invariant counter' == counter + i <= wanted
    {
      if counter' == wanted {
        return true, EntryIn(body, i), counter';
      }
      counter' := counter' + 1;
    }
  }

  /** Looks for the wanted index in node n, which follows counter entries. */
  method PickInNode(dev: Device, files: OpenFiles, node: Word, counter: nat, wanted: nat,
                    ghost hs: seq<nat>, ghost n: nat)
    returns (found: bool, file: Word, counter': nat, next: Word)
    requires Usable(dev, files) && IsChain(dev.disk, hs) && n < |hs| && node == SS * hs[n]
    requires counter <= wanted
    modifies files, dev.bus, dev.bus.ram, dev.bus.cache, dev.bus.dirtyBits
    ensures dev.Valid() && files.Valid()
    ensures files.fileList == old(files.fileList) && files.fileSize == old(files.fileSize)
    ensures var xs := Contents(dev.disk, hs)[n];
      if wanted < counter + |xs| then found && file == xs[wanted - counter]
      else !found && counter' == counter + |xs|
    ensures !found ==> next == if n + 1 < |hs| then SS * hs[n + 1] else 0
    ensures !found && n + 1 < |hs| ==> next != 0
  {
    hide Device.Valid, Device.Address, IsChain, NodeAt, IsNode, Contents, Entries, BodyHolds, Borrowed, OpenFiles.Valid;
    next := 0;
    NodeOfChain(dev.disk, hs, n);
    var refCount, index, size, body := EnterNode(dev, files, node, 64, hs, n);
    NodeBody(dev.disk, hs[n], body);
    found, file, counter' := PickEntry(body, refCount, counter, wanted, Contents(dev.disk, hs)[n]);
    if found {
      ReturnSlot(files, index, old(files.fileList), old(files.fileSize));
    } else {
      next := LeaveNode(dev, files, node, index, hs, n, old(files.fileList), old(files.fileSize));
    }
  }

  /** Handle k of a directory, in walk order, or 0 when it has no so many. */
  method FsDirectoryFindByIndex(dev: Device, files: OpenFiles, handle: Word, wanted: Word, ghost hs: seq<nat>)
    returns (file: Word)
    requires Walkable(dev, files, handle, hs)
    modifies files, dev.bus, dev.bus.ram, dev.bus.cache, dev.bus.dirtyBits
    ensures dev.Valid() && files.Valid()
    ensures files.fileList == old(files.fileList) && files.fileSize == old(files.fileSize)
    ensures var all := Flat(Contents(dev.disk, hs));
      file == if wanted < |all| then all[wanted] else 0
  {
    hide Device.Valid, IsChain, Contents, OpenFiles.Valid, Flat;
    WalkStarts(dev.disk, hs);
    var node, counter: nat := handle, 0;
    ghost var n, dir := 0, Contents(dev.disk, hs);
    while true
      invariant dev.Valid() && files.Valid()
      invariant files.fileList == old(files.fileList) && files.fileSize == old(files.fileSize)
      invariant 0 <= n < |hs| && node == SS * hs[n]
      invariant counter == |Flat(dir[..n])| <= wanted
      decreases |hs| - n
    {
      FlatIndex(dir, n);
      var found;
      found, file, counter, node := PickInNode(dev, files, node, counter, wanted, hs, n);
      if found {
        return;
      }
      n := n + 1;
      if node == 0 {
        return 0;
      }
    }
  }

  /** The entry count of node n of a chain, and the handle of the next node. */
  method CountNode(dev: Device, node: Word, ghost hs: seq<nat>, ghost n: nat) returns (refCount: Word, next: Word)
    requires dev.Valid() && dev.part.sectorSize == SS
    requires IsChain(dev.disk, hs) && n < |hs| && node == SS * hs[n]
    modifies dev.bus, dev.bus.ram, dev.bus.cache, dev.bus.dirtyBits
    ensures dev.Valid() && refCount == |Contents(dev.disk, hs)[n]|
    ensures next == if n + 1 < |hs| then SS * hs[n + 1] else 0
    ensures n + 1 < |hs| ==> next != 0
  {
    assert NodeAt(dev.disk, hs, n);
    assert n + 1 < |hs| ==> NodeAt(dev.disk, hs, n + 1);
    StartIsProduct(SS, hs[n]);
    refCount := dev.ReadWord(dev.part.blockAddress + node + OFFSET_REF_COUNT, hs[n], OFFSET_REF_COUNT);
    next := dev.ReadWord(dev.part.blockAddress + node + OFFSET_NEXT, hs[n], OFFSET_NEXT);
  }

  /** The number of handles that a directory and its extents hold. */
  method FsDirectoryGetTotalSize(dev: Device, handle: Word, ghost hs: seq<nat>) returns (total: Word)
    requires dev.Valid() && dev.part.sectorSize == SS && IsChain(dev.disk, hs) && handle == SS * hs[0]
    modifies dev.bus, dev.bus.ram, dev.bus.cache, dev.bus.dirtyBits
    ensures dev.Valid() && total == |Flat(Contents(dev.disk, hs))|
  {
    var node, sum: nat := handle, 0;
    ghost var n, dir := 0, Contents(dev.disk, hs);
    ChainLength(dev.disk, hs);
    while true
      invariant dev.Valid() && 0 <= n < |hs| && node == SS * hs[n]
      invariant sum == |Flat(dir[..n])|
      decreases |hs| - n
    {
      FlatIndex(dir, n);
      var refCount;
      refCount, node := CountNode(dev, node, hs, n);
      sum := sum + refCount;
      n := n + 1;
      if node == 0 {
        return sum;
      }
    }
  }

  // Lookup by name.

  /** A handle of some sector of the device. */
  ghost predicate NamesSector(d: Disk, f: Word) {
    f == SS * (f / SS) && f / SS < |d|
  }

  /** The name of the file with a given handle, as it is compared. */
  ghost function NameOf(d: Disk, f: Word): (name: seq<Byte>)
    requires Shaped(d, SS) && NamesSector(d, f)
  {
    Padded(d[f / SS][OFFSET_NAME..OFFSET_NAME + NAME_LENGTH])
  }

  /** That is the ten bytes of the name, blanked from the first zero byte on. */
  lemma NameByByte(d: Disk, f: Word, i: nat)
    requires Shaped(d, SS) && NamesSector(d, f) && i < 10
    ensures |NameOf(d, f)| == 10
    ensures var x := d[f / SS];
      NameOf(d, f)[i] == if exists k :: 1 <= k <= i + 1 && x[k] == 0 then ' ' as int else x[i + 1]
  {
    var x := d[f / SS];
    var stored := x[1..11];
    assert forall k :: 0 <= k < 10 ==> stored[k] == x[k + 1];
    if i < |CString(stored)| {
      forall k | 1 <= k <= i + 1
        ensures x[k] != 0
      {
        assert x[k] == CString(stored)[k - 1];
      }
    } else {
      var k := |CString(stored)| + 1;
      assert 1 <= k <= i + 1 && x[k] == 0;
    }
  }

  /** A created file has, for every later lookup, the name that it was created with. */
  lemma CreatedName(d: Disk, i: nat, name: seq<Byte>, size: Word)
    requires Shaped(d, SS) && i < |d| && SS * |d| <= WORD_SPACE
    ensures var e := CreateAt(d, SS, i, name, size);
      Shaped(e, SS) && NamesSector(e, SS * i) && NameOf(e, SS * i) == Padded(name)
  {
    hide DataSectors, PatchWord;
    PaddedIsStable(name);
  }

  /** Reads a name over a buffer of spaces, up to a terminator. */
  method FsFileGetName(dev: Device, handle: Word) returns (name: seq<Byte>)
    requires dev.Valid() && dev.part.sectorSize == SS && NamesSector(dev.disk, handle)
    modifies dev.bus, dev.bus.ram, dev.bus.cache, dev.bus.dirtyBits
    ensures dev.Valid() && name == NameOf(dev.disk, handle)
  {
    ghost var s := handle / SS;
    ghost var stored := dev.disk[s][OFFSET_NAME..OFFSET_NAME + NAME_LENGTH];
    StartIsProduct(SS, s);
    name := seq(NAME_LENGTH, _ => SPACE);
    for i := 0 to NAME_LENGTH
      invariant dev.Valid() && |name| == NAME_LENGTH && i <= |CString(stored)|
      invariant forall j :: 0 <= j < NAME_LENGTH ==> name[j] == if j < i then CString(stored)[j] else SPACE
    {
      var b := dev.ReadByte(dev.part.blockAddress + handle + i + OFFSET_NAME, s, OFFSET_NAME + i);
      assert b == stored[i];
      if b == 0 {
        return;
      }
      name := name[i := b];
    }
  }

  /** No entry of the list has the name. */
  ghost predicate NoneNamed(d: Disk, all: seq<Word>, name: seq<Byte>)
    requires Shaped(d, SS)
  {
    forall k :: 0 <= k < |all| && NamesSector(d, all[k]) ==> NameOf(d, all[k]) != name
  }

  /** The first entry of the list with the name, or 0. */
  ghost function FirstNamed(d: Disk, all: seq<Word>, name: seq<Byte>): (f: Word)
    requires Shaped(d, SS) && forall k :: 0 <= k < |all| ==> NamesSector(d, all[k])
    ensures if NoneNamed(d, all, name) then f == 0 else f in all && NameOf(d, f) == name
  {
    if all == [] then 0
    else if NameOf(d, all[0]) == name then all[0]
    else
      var rest := FirstNamed(d, all[1..], name);
      assert all == [all[0]] + all[1..];
      rest
  }

  /** Entries without the name at the front do not matter. */
  lemma {:induction false} FirstNamedSkips(d: Disk, front: seq<Word>, all: seq<Word>, name: seq<Byte>)
    requires Shaped(d, SS) && forall k :: 0 <= k < |front + all| ==> NamesSector(d, (front + all)[k])
    requires NoneNamed(d, front, name)
    ensures forall k :: 0 <= k < |all| ==> NamesSector(d, all[k])
    ensures FirstNamed(d, front + all, name) == FirstNamed(d, all, name)
  {
    assert forall k :: 0 <= k < |all| ==> all[k] == (front + all)[|front| + k];
    if front == [] {
      assert front + all == all;
    } else {
      assert (front + all)[1..] == front[1..] + all;
      assert forall k :: 0 <= k < |front[1..] + all| ==> (front[1..] + all)[k] == (front + all)[k + 1];
      FirstNamedSkips(d, front[1..], all, name);
    }
  }

  /** Looks for a name among the entries of one extent. */
  method NamedIn(dev: Device, body: seq<Byte>, refCount: nat, name: seq<Byte>, ghost xs: Extent)
    returns (found: bool, file: Word)
    requires dev.Valid() && dev.part.sectorSize == SS && BodyHolds(body, xs) && refCount == |xs|
    requires forall k :: 0 <= k < |xs| ==> NamesSector(dev.disk, xs[k])
    modifies dev.bus, dev.bus.ram, dev.bus.cache, dev.bus.dirtyBits
    ensures dev.Valid() && found == !NoneNamed(dev.disk, xs, name)
    ensures found ==> file == FirstNamed(dev.disk, xs, name)
  {
    hide Device.Valid, FirstNamed, NoneNamed, NameOf;
    dev.Shape();
    NoneNamedStep(dev.disk, xs, 0, name);
    found, file := false, 0;
    for i := 0 to refCount
      invariant dev.Valid() && NoneNamed(dev.disk, xs[..i], name)
    {
      var fileHandle := EntryIn(body, i);
      var entryName := FsFileGetName(dev, fileHandle);
      if entryName == name {
        FirstNamedAt(dev.disk, xs, i, name);
        return true, fileHandle;
      }
      NoneNamedStep(dev.disk, xs, i, name);
    }
    assert xs[..refCount] == xs;
  }

  lemma NoneNamedStep(d: Disk, xs: seq<Word>, i: nat, name: seq<Byte>)
    requires Shaped(d, SS)
    ensures NoneNamed(d, xs[..0], name)
    ensures i < |xs| && NoneNamed(d, xs[..i], name) && (NamesSector(d, xs[i]) ==> NameOf(d, xs[i]) != name) ==>
              NoneNamed(d, xs[..i + 1], name)
  {
    hide NameOf;
  }

  lemma FirstNamedAt(d: Disk, xs: seq<Word>, i: nat, name: seq<Byte>)
    requires Shaped(d, SS) && forall k :: 0 <= k < |xs| ==> NamesSector(d, xs[k])
    requires i < |xs| && NoneNamed(d, xs[..i], name) && NameOf(d, xs[i]) == name
    ensures !NoneNamed(d, xs, name) && FirstNamed(d, xs, name) == xs[i]
  {
    assert xs == xs[..i] + xs[i..];
    FirstNamedSkips(d, xs[..i], xs[i..], name);
  }

  /** FirstNamed is the match with the lowest index. */
  lemma {:induction false} FirstNamedIsLeast(d: Disk, all: seq<Word>, name: seq<Byte>) returns (k: nat)
    requires Shaped(d, SS) && forall k :: 0 <= k < |all| ==> NamesSector(d, all[k])
    requires !NoneNamed(d, all, name)
    ensures k < |all| && FirstNamed(d, all, name) == all[k] && NameOf(d, all[k]) == name
    ensures forall j :: 0 <= j < k ==> NameOf(d, all[j]) != name
  {
    if NameOf(d, all[0]) == name {
      k := 0;
    } else {
      assert all == [all[0]] + all[1..];
      var rest := FirstNamedIsLeast(d, all[1..], name);
      k := rest + 1;
      forall j | 0 <= j < k
        ensures NameOf(d, all[j]) != name
      {
        assert j > 0 ==> all[j] == all[1..][j - 1];
      }
    }
  }

  // What an answer of 0 means.

  /** An entry 0 comes first among those with the name: the name is that of the device header. */
  ghost predicate ZeroIsNamed(d: Disk, all: seq<Word>, name: seq<Byte>)
    requires Shaped(d, SS)
  {
    exists k :: 0 <= k < |all| && all[k] == 0 && NameOf(d, 0) == name && NoneNamed(d, all[..k], name)
  }

  /**
   * An answer of 0 means that no entry has the name, except where the directory holds a 0 that
   * comes first among the entries with that name.
   */
  lemma ZeroMeansNoneIff(d: Disk, all: seq<Word>, name: seq<Byte>)
    requires Shaped(d, SS) && forall k :: 0 <= k < |all| ==> NamesSector(d, all[k])
    ensures FirstNamed(d, all, name) == 0 <==> NoneNamed(d, all, name) || ZeroIsNamed(d, all, name)
    ensures ZeroIsNamed(d, all, name) ==> !NoneNamed(d, all, name)
    ensures 0 !in all ==> !ZeroIsNamed(d, all, name)
  {
    hide FirstNamed, NameOf;
    if !NoneNamed(d, all, name) {
      var k := FirstNamedIsLeast(d, all, name);
      assert NoneNamed(d, all[..k], name);
    }
    forall k | 0 <= k < |all| && all[k] == 0 && NameOf(d, 0) == name && NoneNamed(d, all[..k], name)
      ensures !NoneNamed(d, all, name) && FirstNamed(d, all, name) == 0
    {
      FirstNamedAt(d, all, k, name);
    }
  }

  lemma ZeroInDirectory(d: Disk, dir: seq<Extent>, name: seq<Byte>)
    requires Shaped(d, SS) && forall k :: 0 <= k < |Flat(dir)| ==> NamesSector(d, Flat(dir)[k])
    ensures 0 !in Flat(dir) ==> (FirstNamed(d, Flat(dir), name) == 0 <==> NoneNamed(d, Flat(dir), name))
    ensures Flat(dir[..0]) == [] && NoneNamed(d, Flat(dir[..0]), name)
  {
    var all := Flat(dir);
    assert forall k :: 0 <= k < |all| ==> NamesSector(d, Flat(dir)[k]);
    ZeroMeansNoneIff(d, all, name);
  }

  /** So the lookup of the device header's own name in a directory that holds 0 alone is ambiguous. */
  lemma ZeroCanBeNamed(d: Disk)
    requires Shaped(d, SS)
    ensures var all: seq<Word>, name := [0], NameOf(d, 0);
      FirstNamed(d, all, name) == 0 && !NoneNamed(d, all, name)
  {
    var all: seq<Word> := [0];
    assert NamesSector(d, all[0]) && NoneNamed(d, all[..0], NameOf(d, 0));
    ZeroMeansNoneIff(d, all, NameOf(d, 0));
  }

  /** Looks for a name in node n of a chain. */
  method NamedInNode(dev: Device, files: OpenFiles, node: Word, name: seq<Byte>, ghost hs: seq<nat>, ghost n: nat)
    returns (found: bool, file: Word, next: Word)
    requires Usable(dev, files) && IsChain(dev.disk, hs) && n < |hs| && node == SS * hs[n]
    requires forall k :: 0 <= k < |Contents(dev.disk, hs)[n]| ==> NamesSector(dev.disk, Contents(dev.disk, hs)[n][k])
    modifies files, dev.bus, dev.bus.ram, dev.bus.cache, dev.bus.dirtyBits
    ensures dev.Valid() && files.Valid()
    ensures files.fileList == old(files.fileList) && files.fileSize == old(files.fileSize)
    ensures found == !NoneNamed(dev.disk, Contents(dev.disk, hs)[n], name)
    ensures found ==> file == FirstNamed(dev.disk, Contents(dev.disk, hs)[n], name)
    ensures !found ==> next == if n + 1 < |hs| then SS * hs[n + 1] else 0
    ensures !found && n + 1 < |hs| ==> next != 0
  {
    hide Device.Valid, Device.Address, IsChain, NodeAt, IsNode, Contents, Entries, BodyHolds, Borrowed, OpenFiles.Valid,
      NamesSector, NoneNamed, FirstNamed;
    next := 0;
    NodeOfChain(dev.disk, hs, n);
    var refCount, index, size, body := EnterNode(dev, files, node, 64, hs, n);
    NodeBody(dev.disk, hs[n], body);
    found, file := NamedIn(dev, body, refCount, name, Contents(dev.disk, hs)[n]);
    if found {
      ReturnSlot(files, index, old(files.fileList), old(files.fileSize));
    } else {
      next := LeaveNode(dev, files, node, index, hs, n, old(files.fileList), old(files.fileSize));
    }
  }

  /** What has been passed over, and the first match after it. */
  lemma NamedSoFar(d: Disk, dir: seq<Extent>, n: nat, name: seq<Byte>)
    requires Shaped(d, SS) && n < |dir|
    requires forall k :: 0 <= k < |Flat(dir)| ==> NamesSector(d, Flat(dir)[k])
    requires NoneNamed(d, Flat(dir[..n]), name)
    ensures forall k :: 0 <= k < |dir[n]| ==> NamesSector(d, dir[n][k])
    ensures !NoneNamed(d, dir[n], name) ==> FirstNamed(d, Flat(dir), name) == FirstNamed(d, dir[n], name)
    ensures NoneNamed(d, dir[n], name) ==> NoneNamed(d, Flat(dir[..n + 1]), name)
    ensures n + 1 == |dir| ==> Flat(dir[..n + 1]) == Flat(dir)
  {
    hide Flat, NamesSector, FirstNamed;
    FlatAround(dir, n);
    FlatIndex(dir, n);
    NamedAround(d, Flat(dir[..n]), dir[n], Flat(dir[n + 1..]), name);
  }

  lemma NamedAround(d: Disk, front: seq<Word>, xs: seq<Word>, rest: seq<Word>, name: seq<Byte>)
    requires Shaped(d, SS) && NoneNamed(d, front, name)
    requires forall k :: 0 <= k < |front + xs + rest| ==> NamesSector(d, (front + xs + rest)[k])
    ensures forall k :: 0 <= k < |xs| ==> NamesSector(d, xs[k])
    ensures !NoneNamed(d, xs, name) ==> FirstNamed(d, front + xs + rest, name) == FirstNamed(d, xs, name)
    ensures NoneNamed(d, xs, name) ==> NoneNamed(d, front + xs, name)
  {
    hide NamesSector, FirstNamed;
    assert forall k :: 0 <= k < |xs| ==> xs[k] == (front + xs + rest)[|front| + k];
    assert front + xs + rest == front + (xs + rest);
    FirstNamedSkips(d, front, xs + rest, name);
    FirstNamedFront(d, xs, rest, name);
  }

  lemma {:induction false} FirstNamedFront(d: Disk, xs: seq<Word>, rest: seq<Word>, name: seq<Byte>)
    requires Shaped(d, SS) && forall k :: 0 <= k < |xs + rest| ==> NamesSector(d, (xs + rest)[k])
    ensures forall k :: 0 <= k < |xs| ==> NamesSector(d, xs[k])
    ensures !NoneNamed(d, xs, name) ==> FirstNamed(d, xs + rest, name) == FirstNamed(d, xs, name)
  {
    assert forall k :: 0 <= k < |xs| ==> xs[k] == (xs + rest)[k];
    if xs != [] {
      assert (xs + rest)[1..] == xs[1..] + rest;
      assert xs == [xs[0]] + xs[1..];
      assert forall k :: 0 <= k < |xs[1..] + rest| ==> (xs[1..] + rest)[k] == (xs + rest)[k + 1];
      FirstNamedFront(d, xs[1..], rest, name);
    }
  }

  lemma NoneAtFirst(d: Disk, dir: seq<Extent>, name: seq<Byte>)
    requires Shaped(d, SS)
    ensures NoneNamed(d, Flat(dir[..0]), name)
  {
  }

  /** Walks a directory to the first entry whose file has exactly this name. */
  method WalkToName(dev: Device, files: OpenFiles, handle: Word, name: seq<Byte>, ghost hs: seq<nat>)
    returns (file: Word)
    requires Walkable(dev, files, handle, hs)
    requires var all := Flat(Contents(dev.disk, hs));
      forall k :: 0 <= k < |all| ==> NamesSector(dev.disk, all[k])
    modifies files, dev.bus, dev.bus.ram, dev.bus.cache, dev.bus.dirtyBits
    ensures dev.Valid() && files.Valid()
    ensures files.fileList == old(files.fileList) && files.fileSize == old(files.fileSize)
    ensures file == FirstNamed(dev.disk, Flat(Contents(dev.disk, hs)), name)
  {
    hide Device.Valid, IsChain, Contents, OpenFiles.Valid, FirstNamed, NoneNamed, Flat;
    dev.Shape();
    ghost var dir, n := Contents(dev.disk, hs), 0;
    WalkStarts(dev.disk, hs);
    NoneAtFirst(dev.disk, dir, name);
    var node := handle;
    while true
      invariant dev.Valid() && files.Valid()
      invariant files.fileList == old(files.fileList) && files.fileSize == old(files.fileSize)
      invariant 0 <= n < |hs| && node == SS * hs[n]
      invariant NoneNamed(dev.disk, Flat(dir[..n]), name)
      decreases |hs| - n
    {
      NamedSoFar(dev.disk, dir, n, name);
      var found;
      found, file, node := NamedInNode(dev, files, node, name, hs, n);
      if found {
        return;
      }
      n := n + 1;
      if node == 0 {
        return 0;
      }
    }
  }

  /** The first handle, in walk order, whose file has the name as both are padded, or 0. */
  method FsDirectoryFindByName(dev: Device, files: OpenFiles, handle: Word, filename: seq<Byte>, ghost hs: seq<nat>)
    returns (file: Word)
    requires Walkable(dev, files, handle, hs)
    requires var all := Flat(Contents(dev.disk, hs));
      forall k :: 0 <= k < |all| ==> NamesSector(dev.disk, all[k])
    modifies files, dev.bus, dev.bus.ram, dev.bus.cache, dev.bus.dirtyBits
    ensures dev.Valid() && files.Valid()
    ensures files.fileList == old(files.fileList) && files.fileSize == old(files.fileSize)
    ensures file == FirstNamed(dev.disk, Flat(Contents(dev.disk, hs)), Padded(filename))
    ensures 0 !in Flat(Contents(dev.disk, hs)) ==>
              (file == 0 <==> NoneNamed(dev.disk, Flat(Contents(dev.disk, hs)), Padded(filename)))
  {
    hide Device.Valid, IsChain, Contents, OpenFiles.Valid, FirstNamed, NoneNamed, Flat, Padded;
    dev.Shape();
    ZeroInDirectory(dev.disk, Contents(dev.disk, hs), Padded(filename));
    var name := CleanName(filename);
    file := WalkToName(dev, files, handle, name, hs);
  }
}
