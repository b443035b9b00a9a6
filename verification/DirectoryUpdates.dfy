/**
 * The operations that change directories (fsDirectory.c), over a device and a table of open
 * files.
 */
module DirectoryUpdates {
  import opened Words
  import opened Arithmetic
  import opened FirstFit
  import opened Sectors
  import opened Blocks
  import opened Volume
  import opened Allocator
  import opened Files
  import opened Extents
  import opened Chains
  import opened Directories
  import opened Removal
  import opened DirectoryFiles

  // Creation.

  /** The header of a new directory, over that of the file it starts as. */
  ghost function DirectoryHeader(x: Sector): (y: Sector)
    requires |x| >= SS
    ensures |y| == |x|
  {
    Patch(PatchWord(x, OFFSET_REF_COUNT, 0), OFFSET_ATTRIBUTES, ATTRIBUTES_DIRECTORY)
  }

  /** A directory differs from a file by its last attribute and by counting no entries. */
  lemma DirectoryHeaderBytes(x: Sector, i: nat)
    requires 32 <= |x| && i < |x|
    ensures DirectoryHeader(x)[i] ==
            if i == 15 then ' ' as int
            else if i == 16 then 'r' as int
            else if i == 17 then 'w' as int
            else if i == 18 then 'd' as int
            else if 19 <= i < 23 then 0
            else x[i]
  {
    ZeroBytes(PatchWord(x, OFFSET_REF_COUNT, 0), OFFSET_REF_COUNT);
  }

  /**
   * The disk after a directory is created at sector i. Sector 0 stands for an allocation that
   * failed, which is not checked for: the fields then land in the device header.
   */
  ghost function DirectoryAt(d: Disk, ss: nat, i: nat, name: seq<Byte>): (e: Disk)
    requires Shaped(d, ss) && i < |d|
    ensures |e| == |d|
  {
    var c := if i == 0 then d else CreateAt(d, ss, i, name, DIRECTORY_SIZE);
    c[i := DirectoryHeader(c[i])]
  }

  /** Creating a directory adds one block and changes no sector of any other. */
  lemma DirectoryKeepsLayout(d: Disk, ss: nat, i: nat, name: seq<Byte>)
    requires Layout(d, ss) && Fits(Marks(d), i, DataSectors(DIRECTORY_SIZE, ss))
    ensures var e := DirectoryAt(d, ss, i, name);
      && Layout(e, ss) && i > 0 && SizeOf(e, ss, i) == DIRECTORY_SIZE
      && (forall t :: IsLive(e, ss, t) <==> IsLive(d, ss, t) || t == i)
      && (forall t, k :: InBlock(d, ss, t, k) ==> k < |d| && e[k] == d[k])
      && (forall k :: 0 <= k < |d| && !InBlock(e, ss, i, k) ==> e[k] == d[k])
      && WordAt(e[i], OFFSET_REF_COUNT) == 0 && WordAt(e[i], OFFSET_NEXT) == 0
  {
    CreateKeepsLayout(d, ss, i, name, DIRECTORY_SIZE);
    var c, e := CreateAt(d, ss, i, name, DIRECTORY_SIZE), DirectoryAt(d, ss, i, name);
    WordFrame(c[i], e[i], OFFSET_SIZE);
    WordFrame(PatchWord(c[i], OFFSET_REF_COUNT, 0), e[i], OFFSET_REF_COUNT);
    WordFrame(c[i], e[i], OFFSET_NEXT);
    LayoutFrame(c, e, ss);
    assert InBlock(e, ss, i, i);
    forall t, k | InBlock(d, ss, t, k)
      ensures k < |d| && k != i
    {
      assert InBlock(c, ss, i, i);
      assert Marks(d)[i] == SECTOR_FREE;
    }
  }

  /** A new directory is a chain of one node that holds nothing. */
  lemma DirectoryStartsEmpty(d: Disk, i: nat, name: seq<Byte>)
    requires Formed(d) && HasPlace(d, i)
    ensures var e := DirectoryAt(d, SS, i, name);
      IsChain(e, [i]) && Contents(e, [i]) == [[]] && Packed(Contents(e, [i]))
  {
    hide DirectoryAt, DataSectors;
    DirectoryKeepsLayout(d, SS, i, name);
    PlaceIsFree(d, i);
    assert NodeAt(DirectoryAt(d, SS, i, name), [i], 0);
  }

  /** Turns the header of a new file into that of a directory. */
  method WriteDirectoryHeader(dev: Device, handle: Word, ghost i: nat)
    requires dev.Valid() && i < |dev.disk| && handle == Start(dev.part.sectorSize, i)
    modifies dev`disk, dev.bus, dev.bus.ram, dev.bus.cache, dev.bus.dirtyBits
    ensures dev.Valid()
    ensures dev.disk == old(dev.disk)[i := DirectoryHeader(old(dev.disk)[i])]
  {
    dev.WriteWord(dev.part.blockAddress + handle + OFFSET_REF_COUNT, 0, i, OFFSET_REF_COUNT);
    dev.WriteBytes(dev.part.blockAddress + handle + OFFSET_ATTRIBUTES, ATTRIBUTES_DIRECTORY, i, OFFSET_ATTRIBUTES);
  }

  /** Creates a directory, or a zero handle when there is no room for one. */
  method FsDirectoryCreate(dev: Device, name: seq<Byte>) returns (handle: Word, ghost i: nat)
    requires dev.Valid() && dev.Guarded()
    modifies dev`disk, dev.bus, dev.bus.ram, dev.bus.cache, dev.bus.dirtyBits
    ensures dev.Valid()
    ensures i == Place(old(dev.disk), dev.part.sectorSize, DIRECTORY_SIZE)
    ensures handle == Start(dev.part.sectorSize, i)
    ensures dev.disk == DirectoryAt(old(dev.disk), dev.part.sectorSize, i, name)
  {
    handle, i := FsFileCreate(dev, name, DIRECTORY_SIZE);
    WriteDirectoryHeader(dev, handle, i);
  }

  /** Turns the header of a new file into that of an extent. */
  method WriteExtentHeader(dev: Device, handle: Word, parent: Word, next: Word, ghost i: nat)
    requires dev.Valid() && dev.part.sectorSize == SS && i < |dev.disk| && handle == SS * i
    modifies dev`disk, dev.bus, dev.bus.ram, dev.bus.cache, dev.bus.dirtyBits
    ensures dev.Valid()
    ensures dev.disk == old(dev.disk)[i := ExtentHeader(old(dev.disk)[i], parent, next)]
  {
    hide Device.Valid, PatchWord, Start, Shaped;
    dev.Shape();
    StartIsProduct(SS, i);
    var header := dev.part.blockAddress + handle;
    dev.WriteWord(header + OFFSET_REF_COUNT, 0, i, OFFSET_REF_COUNT);
    dev.WriteBytes(header + OFFSET_ATTRIBUTES, ATTRIBUTES_EXTENT, i, OFFSET_ATTRIBUTES);
    dev.WriteWord(header + OFFSET_NEXT, next, i, OFFSET_NEXT);
    dev.WriteWord(header + OFFSET_PARENT, parent, i, OFFSET_PARENT);
  }

  /** Creates an extent. Where there is no room for one its fields land in the device header. */
  method FsDirectoryExtentCreate(dev: Device, parent: Word, next: Word) returns (handle: Word, ghost i: nat)
    requires dev.Valid() && dev.Guarded() && dev.part.sectorSize == SS
    modifies dev`disk, dev.bus, dev.bus.ram, dev.bus.cache, dev.bus.dirtyBits
    ensures dev.Valid()
    ensures i == Place(old(dev.disk), SS, DIRECTORY_SIZE) && handle == SS * i
    ensures dev.disk == ExtentAt(old(dev.disk), i, parent, next)
  {
    handle, i := FsFileCreate(dev, NAME_EXTENT, DIRECTORY_SIZE);
    StartIsProduct(SS, i);
    WriteExtentHeader(dev, handle, parent, next, i);
  }

  // Adding.

  /** Makes an extent behind the last node of a chain. */
  method LinkExtent(dev: Device, last: Word, ghost s: nat) returns (handle: Word, ghost i: nat)
    requires dev.Valid() && dev.Guarded() && dev.part.sectorSize == SS
    requires s < |dev.disk| && last == SS * s && SS * |dev.disk| <= WORD_SPACE
    modifies dev`disk, dev.bus, dev.bus.ram, dev.bus.cache, dev.bus.dirtyBits
    ensures dev.Valid()
    ensures i == Place(old(dev.disk), SS, DIRECTORY_SIZE) && handle == SS * i
    ensures dev.disk == Linked(old(dev.disk), s, i)
  {
    handle, i := FsDirectoryExtentCreate(dev, last, 0);
    StartIsProduct(SS, s);
    dev.WriteWord(dev.part.blockAddress + last + OFFSET_NEXT, handle, s, OFFSET_NEXT);
  }

  /** Walks from the second node on to the first extent with room, or to the last one. */
  method FindRoom(dev: Device, first: Word, ghost hs: seq<nat>) returns (extent: Word, full: bool, ghost n: nat)
    requires dev.Valid() && dev.part.sectorSize == SS
    requires IsChain(dev.disk, hs) && |hs| > 1 && first == SS * hs[1]
    modifies dev.bus, dev.bus.ram, dev.bus.cache, dev.bus.dirtyBits
    ensures dev.Valid() && 0 < n < |hs| && extent == SS * hs[n]
    ensures var j := Roomy(Contents(dev.disk, hs), 1);
      if full then j == |hs| && n == |hs| - 1 else j == n
  {
    hide Device.Valid, IsChain, Contents, Roomy;
    ContentsLength(dev.disk, hs);
    extent, n := first, 1;
    while true
      invariant dev.Valid() && 1 <= n < |hs| && extent == SS * hs[n]
      invariant Roomy(Contents(dev.disk, hs), 1) == Roomy(Contents(dev.disk, hs), n)
      decreases |hs| - n
    {
      RoomyStep(Contents(dev.disk, hs), n);
      var extentRefCount, nextExtent := CountNode(dev, extent, hs, n);
      if (extentRefCount + 2) * 4 < dev.part.sectorSize {
        return extent, false, n;
      }
      if nextExtent == 0 {
        return extent, true, n;
      }
      extent := nextExtent;
      n := n + 1;
    }
  }

  /** The test for room in the first node of a directory, in bytes of a sector. */
  predicate HasRoomFor(refCount: nat, sectorSize: nat) {
    (refCount + 1) * 4 < sectorSize
  }

  /**
   * The test speaks of the sector, but only 29 bytes of a body are ever written back. It lets no
   * entry in that does not fit those exactly when sectors have no more than 32 bytes.
   */
  lemma RoomTestIsSafeIff(sectorSize: nat)
    ensures (forall r: nat :: HasRoomFor(r, sectorSize) ==> 4 * r + 4 <= BODY) <==> sectorSize <= SS
  {
    if sectorSize > SS {
      assert HasRoomFor(CAPACITY, sectorSize);
    }
  }

  /** What the search for room found is the target, and whether an extent is needed. */
  lemma TargetFound(d: Disk, hs: seq<nat>, n: nat, full: bool)
    requires IsChain(d, hs) && (CanAdd(d, hs) || LacksRoom(d, hs)) && n < |hs|
    requires var dir := Contents(d, hs);
      if n == 0 then full == (|dir[0]| >= CAPACITY && |hs| == 1) && (full || |dir[0]| < CAPACITY)
      else
        && |dir[0]| >= CAPACITY
        && (if full then Roomy(dir, 1) == |hs| && n == |hs| - 1 else Roomy(dir, 1) == n)
    ensures !full ==> Widened(d, hs) == (d, hs) && Target(Contents(d, hs)) == n
    ensures full ==>
      var i := Place(d, SS, DIRECTORY_SIZE);
      && n == |hs| - 1 && hs[n] < |d| && SS * |d| <= WORD_SPACE && d[0][0] != SECTOR_FREE
      && (n == 0 ==> i != 0)
      && Widened(d, hs) == (Linked(d, hs[n], i), if i == 0 then hs else hs + [i])
      && Target(Contents(d, hs)) == if n == 0 then 1 else n
  {
    hide Extended, Linked, Place, IsChain, Contents, LacksRoom, CanAdd, Widened;
    ContentsLength(d, hs);
    WidenedByNeed(d, hs);
  }

  lemma WidenedByNeed(d: Disk, hs: seq<nat>)
    requires IsChain(d, hs) && (CanAdd(d, hs) || LacksRoom(d, hs))
    ensures var i := Place(d, SS, DIRECTORY_SIZE);
      && Formed(d) && |hs| > 0 && hs[|hs| - 1] < |d|
      && (NeedsExtent(Contents(d, hs)) && |hs| == 1 ==> i != 0)
      && Widened(d, hs) == if !NeedsExtent(Contents(d, hs)) then (d, hs)
                           else (Linked(d, hs[|hs| - 1], i), if i == 0 then hs else hs + [i])
  {
    hide Linked, Place, Contents, NeedsExtent;
    LastNode(d, hs);
  }

  /** Finds the extent that an added handle goes to, and makes one where one is needed. */
  method FindTarget(dev: Device, handle: Word, ghost hs: seq<nat>)
    returns (target: Word, ghost gs: seq<nat>, ghost t: nat)
    requires dev.Valid() && dev.Guarded() && dev.part.sectorSize == SS
    requires IsChain(dev.disk, hs) && (CanAdd(dev.disk, hs) || LacksRoom(dev.disk, hs)) && handle == SS * hs[0]
    modifies dev`disk, dev.bus, dev.bus.ram, dev.bus.cache, dev.bus.dirtyBits
    ensures dev.Valid()
    ensures (dev.disk, gs) == Widened(old(dev.disk), hs)
    ensures t == Target(Contents(old(dev.disk), hs)) && t < |gs| && target == SS * gs[t]
  {
    hide Device.Valid, Widened, Target, Linked, Place;
    var refCount, extent := CountNode(dev, handle, hs, 0);
    var full := false;
    target, gs, t := handle, hs, 0;
    if !HasRoomFor(refCount, dev.part.sectorSize) {
      if extent == 0 {
        full := true;
      } else {
        target, full, t := FindRoom(dev, extent, hs);
      }
    }
    TargetFound(dev.disk, hs, t, full);
    if full {
      var newExtent;
      ghost var i;
      newExtent, i := LinkExtent(dev, target, hs[t]);
      gs := if i == 0 then hs else hs + [i];
      if extent == 0 {
        target, t := newExtent, 1;
      }
    }
  }

  /** Writes back the body of an open directory extent. */
  method WriteBody(dev: Device, files: OpenFiles, index: int, body: seq<Byte>, size: Word, ghost s: nat)
    requires dev.Valid() && dev.part.sectorSize == SS && files.Valid() && s + 1 < |dev.disk|
    requires 0 <= index < MAX_OPEN_FILES && files.fileList[index] == dev.Address(s, 0) > 0
    requires files.fileSize[index] == size == DIRECTORY_SIZE && |body| >= BODY
    modifies dev`disk, dev.bus, dev.bus.ram, dev.bus.cache, dev.bus.dirtyBits
    ensures dev.Valid()
    ensures dev.disk == old(dev.disk)[s + 1 := Patch(old(dev.disk)[s + 1], 1, body[..BODY])]
  {
    var buffer := new Byte[|body|](i requires 0 <= i < |body| => body[i]);
    assert buffer[..size - 1] == body[..BODY];
    SmallPlace(size, dev.part.sectorSize);
    WrittenBody(dev.disk, dev.part.sectorSize, s, body[..size - 1]);
    assert Opens(dev, files, index, s, size - 1);
    var ok := FsFileWrite(dev, files, index, buffer, size, s);
  }

  /** The body with entry r replaced, cut to what is written back, is what Store puts there. */
  lemma StoredBody(x: Sector, body: seq<Byte>, r: nat, f: Word)
    requires |x| == SS && r <= CAPACITY && |body| >= SS && body[..BODY] == x[1..1 + BODY]
    ensures Patch(x, 1, Patch(body, 4 * r, ToBytes(f))[..BODY])
         == Patch(x, 1 + 4 * r, ToBytes(f)[..if r < CAPACITY then 4 else 1])
  {
    assert forall k :: 0 <= k < BODY ==> body[k] == body[..BODY][k] == x[1 + k];
  }

  /** Stores a handle as the last entry of a node, and counts it. */
  method StoreEntry(dev: Device, files: OpenFiles, node: Word, file: Word, ghost s: nat)
    requires Usable(dev, files) && Shaped(dev.disk, SS) && IsNode(dev.disk, s) && node == SS * s
    modifies files, dev`disk, dev.bus, dev.bus.ram, dev.bus.cache, dev.bus.dirtyBits
    ensures dev.Valid() && files.Valid()
    ensures files.fileList == old(files.fileList) && files.fileSize == old(files.fileSize)
    ensures dev.disk == Store(old(dev.disk), s, file)
  {
    hide Device.Valid;
    ghost var d := dev.disk;
    StartIsProduct(SS, s);
    var refCount := dev.ReadWord(dev.part.blockAddress + node + OFFSET_REF_COUNT, s, OFFSET_REF_COUNT);
    dev.WriteWord(dev.part.blockAddress + node + OFFSET_REF_COUNT, refCount + 1, s, OFFSET_REF_COUNT);
    WordFrame(d[s], dev.disk[s], OFFSET_SIZE);
    var index, size, body := OpenBody(dev, files, node, DIRECTORY_SIZE + SS, s);
    StoredBody(d[s + 1], body, refCount, file);
    WriteBody(dev, files, index, Patch(body, 4 * refCount, ToBytes(file)), size, s);
    ReturnSlot(files, index, old(files.fileList), old(files.fileSize));
  }

  /**
   * Adds a handle to a directory. That an extent could not be made is not noticed: behind others
   * the handle then goes to the last one all the same.
   */
  method FsDirectoryAddFile(dev: Device, files: OpenFiles, handle: Word, file: Word, ghost hs: seq<nat>)
    returns (ok: bool, ghost gs: seq<nat>)
    requires Walkable(dev, files, handle, hs) && dev.Guarded()
    requires CanAdd(dev.disk, hs) || LacksRoom(dev.disk, hs)
    modifies files, dev`disk, dev.bus, dev.bus.ram, dev.bus.cache, dev.bus.dirtyBits
    ensures dev.Valid() && files.Valid() && ok
    ensures files.fileList == old(files.fileList) && files.fileSize == old(files.fileSize)
    ensures CanAdd(old(dev.disk), hs) ==> (dev.disk, gs) == AddEntry(old(dev.disk), hs, file)
    ensures LacksRoom(old(dev.disk), hs) ==> gs == hs && dev.disk == AddWithoutRoom(old(dev.disk), hs, file)
  {
    hide Device.Valid, OpenFiles.Valid, IsChain, Contents, CanAdd, LacksRoom, AddEntry, AddWithoutRoom, Store, IsNode,
      Widened;
    ghost var t;
    var target;
    AdditionIs(dev.disk, hs, file);
    target, gs, t := FindTarget(dev, handle, hs);
    StoreEntry(dev, files, target, file, gs[t]);
    ok := true;
  }

  /** An addition stores the handle in the extent that was found. */
  lemma AdditionIs(d: Disk, hs: seq<nat>, f: Word)
    requires IsChain(d, hs) && (CanAdd(d, hs) || LacksRoom(d, hs))
    ensures var ((x, gs), t) := (Widened(d, hs), Target(Contents(d, hs)));
      && Shaped(x, SS) && t < |gs| && IsNode(x, gs[t])
      && (CanAdd(d, hs) ==> AddEntry(d, hs, f) == (Store(x, gs[t], f), gs))
      && (LacksRoom(d, hs) ==> gs == hs && AddWithoutRoom(d, hs, f) == Store(x, gs[t], f))
  {
    hide Widened, CanAdd, LacksRoom, Extended, IsChain, Contents, Store, AddEntry, AddWithoutRoom, IsNode, Target;
    WidenedIs(d, hs);
    if LacksRoom(d, hs) {
      AdditionWithoutRoomIs(d, hs, f);
    } else {
      AddEntryIs(d, hs, f);
    }
  }

  lemma WidenedIs(d: Disk, hs: seq<nat>)
    requires IsChain(d, hs) && (CanAdd(d, hs) || LacksRoom(d, hs))
    ensures CanAdd(d, hs) <==> !LacksRoom(d, hs)
    ensures CanAdd(d, hs) ==> Widened(d, hs) == Extended(d, hs)
  {
    hide IsChain, Contents, Place, Extended;
  }

  lemma AdditionWithoutRoomIs(d: Disk, hs: seq<nat>, f: Word)
    requires IsChain(d, hs) && LacksRoom(d, hs)
    ensures var ((x, gs), t) := (Widened(d, hs), Target(Contents(d, hs)));
      && Shaped(x, SS) && gs == hs && t < |hs| && IsNode(x, hs[t])
      && AddWithoutRoom(d, hs, f) == Store(x, hs[t], f)
  {
    hide IsChain, Contents, Linked, Store, IsNode, Target, NeedsExtent, Place;
    FailedLink(d, hs);
    ContentsLength(d, hs);
    LateTarget(Contents(d, hs));
  }

  // Removing.

  /** The first entry of an extent that is the given handle, or the number of entries. */
  method FindEntry(body: seq<Byte>, refCount: nat, file: Word, ghost xs: Extent) returns (j: nat)
    requires BodyHolds(body, xs) && refCount == |xs|
    ensures j <= |xs| && file !in xs[..j] && (j < |xs| ==> xs[j] == file)
  {
    j := 0;
    while j < refCount && EntryIn(body, j) != file
      invariant j <= |xs| && file !in xs[..j]
    {
      j := j + 1;
    }
  }

  /** Overwrites entry j of a body by the last of its r entries, whose place is blanked. */
  function SwapOut(body: seq<Byte>, r: nat, j: nat): (body': seq<Byte>)
    requires j < r <= CAPACITY && |body| >= BODY
    ensures |body'| == |body|
  {
    Patch(Patch(body, 4 * j, body[4 * (r - 1)..4 * r]), 4 * (r - 1), BLANKS)
  }

  /** Patching a body is patching the sector that it came from. */
  lemma BodyPatch(x: Sector, body: seq<Byte>, offset: nat, bytes: seq<Byte>)
    requires |x| == SS && |body| >= BODY && body[..BODY] == x[1..1 + BODY] && offset + |bytes| < BODY
    ensures Patch(body, offset, bytes)[..BODY] == Patch(x, 1 + offset, bytes)[1..1 + BODY]
  {
    assert forall k :: 0 <= k < BODY ==> body[k] == body[..BODY][k] == x[1 + k];
  }

  lemma BodyBack(x: Sector, y: Sector, body: seq<Byte>)
    requires |x| == |y| == SS && |body| >= BODY && body[..BODY] == y[1..1 + BODY]
    requires forall k :: 0 <= k < SS && !(1 <= k < 1 + BODY) ==> x[k] == y[k]
    ensures Patch(x, 1, body[..BODY]) == y
  {
    assert forall k :: 0 <= k < BODY ==> body[..BODY][k] == y[1 + k];
  }

  /** Moving a word within a sector is moving its four bytes. */
  lemma MovedWord(x: Sector, from: nat, to: nat)
    requires |x| == SS && from + 4 <= SS && to + 4 <= SS
    ensures PatchWord(x, to, WordAt(x, from)) == Patch(x, to, x[from..from + 4])
  {
    var word := [x[from], x[from + 1], x[from + 2], x[from + 3]];
    BytesRoundTrip(word);
    assert x[from..from + 4] == word;
  }

  lemma BodySlice(x: Sector, body: seq<Byte>, o: nat)
    requires |x| == SS && |body| >= BODY && body[..BODY] == x[1..1 + BODY] && o + 4 <= BODY
    ensures body[o..o + 4] == x[1 + o..5 + o]
  {
    assert forall k :: o <= k < o + 4 ==> body[k] == body[..BODY][k] == x[1 + k];
  }

  lemma SwappedOutBody(x: Sector, body: seq<Byte>, r: nat, j: nat)
    requires |x| == SS && j < r <= CAPACITY && |body| >= BODY && body[..BODY] == x[1..1 + BODY]
    ensures Patch(x, 1, SwapOut(body, r, j)[..BODY]) == SwappedBody(x, r, j)
  {
    hide PatchWord, WordAt, Patch;
    var o := 4 * (r - 1);
    var last := x[1 + o..5 + o];
    BodySlice(x, body, o);
    MovedWord(x, 1 + o, 1 + 4 * j);
    BodyPatch(x, body, 4 * j, last);
    BodyPatch(Patch(x, 1 + 4 * j, last), Patch(body, 4 * j, last), o, BLANKS);
    BodyBack(x, SwappedBody(x, r, j), SwapOut(body, r, j));
  }

  /** Takes entry j out of the open node that holds it. */
  method TakeOut(dev: Device, files: OpenFiles, node: Word, index: int, body: seq<Byte>, refCount: Word, j: nat,
                 ghost s: nat)
    requires dev.Valid() && dev.part.sectorSize == SS && files.Valid()
    requires Shaped(dev.disk, SS) && IsNode(dev.disk, s) && node == SS * s
    requires j < refCount == Field(dev.disk, s, OFFSET_REF_COUNT)
    requires 0 <= index < MAX_OPEN_FILES && files.fileList[index] == dev.Address(s, 0) > 0
    requires files.fileSize[index] == DIRECTORY_SIZE
    requires |body| >= BODY && body[..BODY] == dev.disk[s + 1][1..1 + BODY]
    modifies dev`disk, dev.bus, dev.bus.ram, dev.bus.cache, dev.bus.dirtyBits
    ensures dev.Valid() && dev.disk == TakenOut(old(dev.disk), s, j)
  {
    hide Device.Valid, SwappedBody, SwapOut;
    StartIsProduct(SS, s);
    SwappedOutBody(dev.disk[s + 1], body, refCount, j);
    WriteBody(dev, files, index, SwapOut(body, refCount, j), DIRECTORY_SIZE, s);
    dev.WriteWord(dev.part.blockAddress + node + OFFSET_REF_COUNT, refCount - 1, s, OFFSET_REF_COUNT);
  }

  /** Freeing a file outside the chain keeps the sectors of the chain. */
  lemma ReleasedNode(d: Disk, hs: seq<nat>, n: nat, j: nat)
    requires IsChain(d, hs) && Removable(d, hs, n, j)
    ensures n < |hs| && NodeAt(d, hs, n) && j < Field(d, hs[n], OFFSET_REF_COUNT)
    ensures var f := Contents(d, hs)[n][j];
      && f == SS * (f / SS) && IsLive(d, SS, f / SS) && BlockEnd(d, SS, f / SS) <= |d|
      && var e := Release(d, SS, f / SS);
      && Shaped(e, SS) && |e| == |d| && IsNode(e, hs[n])
      && Field(e, hs[n], OFFSET_REF_COUNT) == Field(d, hs[n], OFFSET_REF_COUNT)
      && e[hs[n] + 1] == d[hs[n] + 1]
      && Freed(d, hs, n, j) == TakenOut(e, hs[n], j)
  {
    var t := Contents(d, hs)[n][j] / SS;
    hide IsNode, Release, TakenOut;
    assert NodeAt(d, hs, n);
    NodeBlock(d, hs[n]);
    ReleaseKeepsLayout(d, SS, t);
    DecompositionIsUnique(d, SS, hs[n]);
    DecompositionIsUnique(d, SS, hs[n] + 1);
    NodeFrame(d, Release(d, SS, t), hs[n]);
  }

  /** Deletes a file and takes its entry out of the open node that holds it. */
  method DeleteEntry(dev: Device, files: OpenFiles, node: Word, index: int, body: seq<Byte>, refCount: Word, j: nat,
                     file: Word, ghost hs: seq<nat>, ghost n: nat)
    requires dev.Valid() && dev.part.sectorSize == SS && files.Valid()
    requires IsChain(dev.disk, hs) && Removable(dev.disk, hs, n, j)
    requires node == SS * hs[n] && file == Contents(dev.disk, hs)[n][j]
    requires Holds(dev, files, index, refCount, body, hs, n)
    modifies dev`disk, dev.bus, dev.bus.ram, dev.bus.cache, dev.bus.dirtyBits
    ensures dev.Valid() && dev.disk == Freed(old(dev.disk), hs, n, j)
  {
    hide Device.Valid, IsChain, TakenOut, Release, IsNode, Layout, Freed, Removable, Contents, Entries;
    ghost var t := file / SS;
    StartIsProduct(SS, t);
    ReleasedNode(dev.disk, hs, n, j);
    FsFree(dev, file, t);
    TakeOut(dev, files, node, index, body, refCount, j, hs[n]);
  }

  /** Unlinks and frees node n of a chain. */
  method UnlinkExtent(dev: Device, node: Word, ghost hs: seq<nat>, ghost n: nat)
    requires dev.Valid() && dev.part.sectorSize == SS
    requires IsChain(dev.disk, hs) && 0 < n < |hs| && node == SS * hs[n]
    modifies dev`disk, dev.bus, dev.bus.ram, dev.bus.cache, dev.bus.dirtyBits
    ensures dev.Valid() && dev.disk == Unlinked(old(dev.disk), hs, n)
  {
    hide Device.Valid, IsChain, Skips, PatchWord;
    ghost var d, s := dev.disk, hs[n];
    BypassedLinks(d, hs, n);
    BypassedSkips(d, hs, n);
    StartIsProduct(SS, s);
    var next := dev.ReadWord(dev.part.blockAddress + node + OFFSET_NEXT, s, OFFSET_NEXT);
    var parent := dev.ReadWord(dev.part.blockAddress + node + OFFSET_PARENT, s, OFFSET_PARENT);
    StartIsProduct(SS, parent / SS);
    StartIsProduct(SS, next / SS);
    dev.WriteWord(dev.part.blockAddress + parent + OFFSET_NEXT, next, parent / SS, OFFSET_NEXT);
    dev.WriteWord(dev.part.blockAddress + next + OFFSET_PARENT, parent, next / SS, OFFSET_PARENT);
    NodeBlock(dev.disk, s);
    FsFree(dev, node, s);
  }

  /** An open node whose body and entry count are known. */
  ghost predicate Holds(dev: Device, files: OpenFiles, index: int, refCount: Word, body: seq<Byte>,
                        hs: seq<nat>, n: nat)
    requires Shaped(dev.disk, SS) && |files.fileList| == |files.fileSize| == MAX_OPEN_FILES
    reads dev, files
  {
    && NodeAt(dev.disk, hs, n) && refCount == Field(dev.disk, hs[n], OFFSET_REF_COUNT)
    && |body| >= BODY && body[..BODY] == dev.disk[hs[n] + 1][1..1 + BODY]
    && 0 <= index < MAX_OPEN_FILES && files.fileList[index] == dev.Address(hs[n], 0) > 0
    && files.fileSize[index] == DIRECTORY_SIZE
  }

  /** Looks for a handle in node n of a chain, and leaves the node when it is not there. */
  method FindInNode(dev: Device, files: OpenFiles, node: Word, file: Word, ghost hs: seq<nat>, ghost n: nat)
    returns (refCount: Word, index: int, body: seq<Byte>, j: nat, next: Word)
    requires Usable(dev, files) && IsChain(dev.disk, hs) && n < |hs| && node == SS * hs[n]
    modifies files, dev.bus, dev.bus.ram, dev.bus.cache, dev.bus.dirtyBits
    ensures dev.Valid() && files.Valid()
    ensures var xs := Contents(dev.disk, hs)[n];
      refCount == |xs| && j <= |xs| && file !in xs[..j] && (j < |xs| ==> xs[j] == file)
    ensures j < refCount ==>
      && Borrowed(files, index, old(files.fileList), old(files.fileSize))
      && Holds(dev, files, index, refCount, body, hs, n)
    ensures j == refCount ==>
      && files.fileList == old(files.fileList) && files.fileSize == old(files.fileSize)
      && next == (if n + 1 < |hs| then SS * hs[n + 1] else 0)
      && (n + 1 < |hs| ==> next != 0)
  {
    hide Device.Valid, IsChain, NodeAt, IsNode, Contents, Entries, BodyHolds, OpenFiles.Valid;
    NodeOfChain(dev.disk, hs, n);
    var size;
    refCount, index, size, body := EnterNode(dev, files, node, 64, hs, n);
    NodeBody(dev.disk, hs[n], body);
    j := FindEntry(body, refCount, file, Contents(dev.disk, hs)[n]);
    next := 0;
    if j == refCount {
      next := LeaveNode(dev, files, node, index, hs, n, old(files.fileList), old(files.fileSize));
    }
  }

  /** The position of the first occurrence of a handle, in walk order. */
  ghost predicate FirstAt(dir: seq<Extent>, f: Word, i: nat, j: nat) {
    i < |dir| && j < |dir[i]| && dir[i][j] == f && f !in Flat(dir[..i]) && f !in dir[i][..j]
  }

  /** The eight-bit count of the extents passed. */
  method CountExtent(extentCount: Byte, ghost n: nat) returns (next: Byte)
    requires extentCount == n % 0x100
    ensures next == (n + 1) % 0x100
  {
    RemainderOfSum(n, extentCount, 1, 0x100);
    next := (extentCount + 1) % 0x100;
  }

  /** What removing still has to do once the entry is out. */
  lemma FreedThen(d: Disk, hs: seq<nat>, n: nat, j: nat)
    requires IsChain(d, hs) && Removable(d, hs, n, j)
    ensures var x, r := Freed(d, hs, n, j), |Contents(d, hs)[n]|;
      && IsChain(x, hs) && 0 < r && n < |hs| && (n % 0x100 > 0 ==> n > 0)
      && RemoveEntry(d, hs, n, j).0 == if r <= 1 && n % 0x100 > 0 then Unlinked(x, hs, n) else x
  {
    hide IsChain, Contents, Freed, Unlinked;
    PositiveRemainder(n, 0x100);
  }

  /** The walk stands at entry j of node n, the first that is the handle, and has the node open. */
  ghost predicate Located(dev: Device, files: OpenFiles, file: Word, hs: seq<nat>, n: nat, j: nat,
                          node: Word, refCount: Word, index: int, body: seq<Byte>, list: seq<nat>, sizes: seq<Word>)
    reads dev, files
  {
    && IsChain(dev.disk, hs) && FirstAt(Contents(dev.disk, hs), file, n, j)
    && node == SS * hs[n] && refCount == |Contents(dev.disk, hs)[n]|
    && Borrowed(files, index, list, sizes)
    && Holds(dev, files, index, refCount, body, hs, n)
  }

  /** A handle that is in none of the extents passed nor in this one is in none of these. */
  lemma PassedExtent(dir: seq<Extent>, n: nat, f: Word)
    requires n < |dir| && f !in Flat(dir[..n]) && f !in dir[n]
    ensures f !in Flat(dir[..n + 1])
    ensures n + 1 == |dir| ==> f !in Flat(dir)
  {
    hide Flat;
    FlatIndex(dir, n);
    NotInEither(Flat(dir[..n]), dir[n], f);
  }

  lemma NotInEither(xs: seq<Word>, ys: seq<Word>, f: Word)
    requires f !in xs && f !in ys
    ensures f !in xs + ys
  {
  }

  /**
   * Walks a directory to the first extent that holds a handle, and leaves that extent open.
   * The extents passed are counted in eight bits.
   */
  method FindFile(dev: Device, files: OpenFiles, handle: Word, file: Word, ghost hs: seq<nat>)
    returns (found: bool, node: Word, refCount: Word, index: int, body: seq<Byte>, j: nat, extentCount: Byte,
             ghost n: nat)
    requires Walkable(dev, files, handle, hs)
    modifies files, dev.bus, dev.bus.ram, dev.bus.cache, dev.bus.dirtyBits
    ensures dev.Valid() && files.Valid()
    ensures !found ==>
      && file !in Flat(Contents(dev.disk, hs))
      && files.fileList == old(files.fileList) && files.fileSize == old(files.fileSize)
    ensures found ==>
      && extentCount == n % 0x100
      && Located(dev, files, file, hs, n, j, node, refCount, index, body, old(files.fileList), old(files.fileSize))
  {
    hide Device.Valid, IsChain, Holds, Borrowed, Contents, Flat, OpenFiles.Valid, NodeAt;
    ghost var dir := Contents(dev.disk, hs);
    WalkStarts(dev.disk, hs);
    node, extentCount, n := handle, 0, 0;
    while true
      invariant dev.Valid() && files.Valid()
      invariant files.fileList == old(files.fileList) && files.fileSize == old(files.fileSize)
      invariant n < |hs| && node == SS * hs[n] && extentCount == n % 0x100
      invariant file !in Flat(dir[..n])
      decreases |hs| - n
    {
      var next;
      refCount, index, body, j, next := FindInNode(dev, files, node, file, hs, n);
      if j < refCount {
        found := true;
        return;
      }
      assert dir[n][..j] == dir[n];
      PassedExtent(dir, n, file);
      node := next;
      extentCount := CountExtent(extentCount, n);
      n := n + 1;
      if node == 0 {
        found := false;
        return;
      }
    }
  }

  /** Removes entry j of node n, which has just been found and opened. */
  method RemoveFound(dev: Device, files: OpenFiles, node: Word, index: int, body: seq<Byte>, refCount: Word, j: nat,
                     file: Word, extentCount: Byte, ghost hs: seq<nat>, ghost n: nat,
                     ghost list: seq<nat>, ghost sizes: seq<Word>)
    requires dev.Valid() && dev.part.sectorSize == SS && extentCount == n % 0x100
    requires Located(dev, files, file, hs, n, j, node, refCount, index, body, list, sizes)
    requires Removable(dev.disk, hs, n, j)
    modifies files, dev`disk, dev.bus, dev.bus.ram, dev.bus.cache, dev.bus.dirtyBits
    ensures dev.Valid() && dev.disk == RemoveEntry(old(dev.disk), hs, n, j).0
    ensures files.Valid() && files.fileList == list && files.fileSize == sizes
  {
    hide Device.Valid, IsChain, Contents, Removable, RemoveEntry, Freed, Unlinked, Holds, OpenFiles.Valid, Layout, Flat;
    FreedThen(dev.disk, hs, n, j);
    DeleteEntry(dev, files, node, index, body, refCount, j, file, hs, n);
    ReturnSlot(files, index, list, sizes);
    if refCount <= 1 && extentCount > 0 {
      UnlinkExtent(dev, node, hs, n);
    }
  }

  /**
   * Removes a handle from a directory and deletes its file. Nothing happens when the directory
   * does not hold it.
   */
  method FsDirectoryRemoveFile(dev: Device, files: OpenFiles, handle: Word, file: Word, ghost hs: seq<nat>)
    returns (ok: bool, ghost n: nat, j: nat)
    requires Walkable(dev, files, handle, hs)
    requires forall i, j :: FirstAt(Contents(dev.disk, hs), file, i, j) ==> Removable(dev.disk, hs, i, j)
    modifies files, dev`disk, dev.bus, dev.bus.ram, dev.bus.cache, dev.bus.dirtyBits
    ensures dev.Valid() && files.Valid()
    ensures files.fileList == old(files.fileList) && files.fileSize == old(files.fileSize)
    ensures !ok ==> file !in Flat(Contents(old(dev.disk), hs)) && dev.disk == old(dev.disk)
    ensures ok ==>
      && FirstAt(Contents(old(dev.disk), hs), file, n, j)
      && dev.disk == RemoveEntry(old(dev.disk), hs, n, j).0
  {
    hide Device.Valid, OpenFiles.Valid, IsChain, Contents, Removable, RemoveEntry, Holds, Borrowed, Flat;
    var node, refCount, index, body, extentCount;
    ok, node, refCount, index, body, j, extentCount, n := FindFile(dev, files, handle, file, hs);
    if ok {
      RemoveFound(dev, files, node, index, body, refCount, j, file, extentCount, hs, n,
                  old(files.fileList), old(files.fileSize));
    }
  }
}
