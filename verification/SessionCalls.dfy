/**
 * The calls of the file system carry sessions out: device and table of open files are, after every
 * call, in the state that the specification says.
 */
module SessionCalls {
  import opened Words
  import opened Sectors
  import opened Blocks
  import opened FileData
  import opened Volume
  import opened Allocator
  import opened Files
  import opened Extents
  import opened Chains
  import opened Directories
  import opened Removal
  import opened DirectoryFiles
  import opened DirectoryUpdates
  import opened Runs
  import opened Sessions

  ghost predicate ShowsSlot(dev: Device, address: nat, size: Word, slot: Slot)
    reads dev`part
  {
    match slot
    case Closed => address == 0 && size == 0
    case Opened(s, recorded) => address == dev.Address(s, 0) > 0 && size == recorded
  }

  /** Device and table of open files are in the given state. */
  ghost predicate Shows(dev: Device, files: OpenFiles, st: State)
    reads dev, dev.bus, dev.bus.ram, dev.bus.cache, dev.bus.dirtyBits, files
  {
    && dev.Valid() && dev.Guarded() && dev.disk == st.disk
    && |files.fileList| == |files.fileSize| == |st.table| == MAX_OPEN_FILES
    && forall i :: 0 <= i < MAX_OPEN_FILES ==> ShowsSlot(dev, files.fileList[i], files.fileSize[i], st.table[i])
  }

  lemma TableIsValid(dev: Device, files: OpenFiles, st: State)
    requires Shows(dev, files, st)
    ensures files.Valid()
    ensures HasClosed(st.table) ==> files.HasFreeSlot()
    ensures dev.Valid() && dev.Guarded() && dev.disk == st.disk && Shaped(dev.disk, dev.part.sectorSize)
    ensures |files.fileList| == |files.fileSize| == |st.table| == MAX_OPEN_FILES
    ensures forall i :: 0 <= i < MAX_OPEN_FILES ==>
              (st.table[i].Closed? <==> files.fileList[i] == 0)
              && (st.table[i].Opened? ==>
                    files.fileList[i] == dev.Address(st.table[i].s, 0) && files.fileSize[i] == st.table[i].size)
  {
    hide Device.Valid, Device.Guarded, Device.Address;
    dev.Shape();
    forall i | 0 <= i < MAX_OPEN_FILES
      ensures files.fileList[i] == 0 ==> files.fileSize[i] == 0
    {
      assert ShowsSlot(dev, files.fileList[i], files.fileSize[i], st.table[i]);
    }
  }

  /** An open takes the slot that the specification says, and records what it says. */
  method ServeOpen(dev: Device, files: OpenFiles, s: nat, ghost st: State)
    requires Shows(dev, files, st) && Allowed(st, dev.part.sectorSize, Open(s)) && dev.Address(s, 0) > 0
    modifies files, dev.bus, dev.bus.ram, dev.bus.cache, dev.bus.dirtyBits
    ensures Shows(dev, files, Next(st, dev.part.sectorSize, Open(s)))
  {
    hide Device.Valid, Device.Guarded, OpenFiles.Valid;
    TableIsValid(dev, files, st);
    dev.HandleOf(s);
    var index := FsFileOpen(dev, files, s * dev.part.sectorSize, s);
  }

  method ServeClose(dev: Device, files: OpenFiles, index: int, ghost st: State)
    requires Shows(dev, files, st) && Allowed(st, dev.part.sectorSize, Close(index))
    modifies files
    ensures Shows(dev, files, Next(st, dev.part.sectorSize, Close(index)))
  {
    hide Device.Valid, Device.Guarded, OpenFiles.Valid;
    TableIsValid(dev, files, st);
    var closed := FsFileClose(files, index);
  }

  /** A write is accepted, by the recorded size, exactly when the specification says. */
  method ServeWrite(dev: Device, files: OpenFiles, index: int, size: Word, data: seq<Byte>, ghost st: State)
    requires Shows(dev, files, st) && Allowed(st, dev.part.sectorSize, Write(index, size, data))
    modifies dev`disk, dev.bus, dev.bus.ram, dev.bus.cache, dev.bus.dirtyBits
    ensures Shows(dev, files, Next(st, dev.part.sectorSize, Write(index, size, data)))
  {
    hide Device.Valid, Device.Guarded, OpenFiles.Valid, WriteData, Accepts;
    TableIsValid(dev, files, st);
    var buffer := new Byte[|data|](i requires 0 <= i < |data| => data[i]);
    assert Passes(st.table, index, size) ==> buffer[..size - 1] == data;
    ghost var s := if Passes(st.table, index, size) then st.table[index].s else 0;
    var ok := FsFileWrite(dev, files, index, buffer, size, s);
  }

  lemma FirstIsThere(dir: seq<Extent>, f: Word, i: nat, j: nat, n: nat)
    requires i < n <= |dir| && j < |dir[i]| && dir[i][j] == f
    ensures f in Flat(dir[..n])
  {
    hide Flat;
    FlatAround(dir[..n], i);
    assert dir[i] == dir[..n][i];
  }

  /** A handle has one first entry. */
  lemma FirstIsUnique(dir: seq<Extent>, f: Word, i: nat, j: nat, i': nat, j': nat)
    requires FirstAt(dir, f, i, j) && FirstAt(dir, f, i', j')
    ensures i == i' && j == j' && f in Flat(dir)
  {
    hide Flat;
    assert dir[..|dir|] == dir;
    FirstIsThere(dir, f, i, j, |dir|);
    if i < i' {
      FirstIsThere(dir, f, i, j, i');
    } else if i' < i {
      FirstIsThere(dir, f, i', j', i);
    } else {
      NotInFront(dir[i], f, j, j');
      NotInFront(dir[i], f, j', j);
    }
  }

  lemma NotInFront(xs: seq<Word>, f: Word, j: nat, n: nat)
    requires j < |xs| && n <= |xs| && xs[j] == f && f !in xs[..n]
    ensures n <= j
  {
    forall k | 0 <= k < n
      ensures xs[k] != f
    {
      assert xs[..n][k] == xs[k];
    }
  }

  method ServeRemoval(dev: Device, files: OpenFiles, hs: seq<nat>, f: Word, ghost i: nat, ghost j: nat)
    requires Usable(dev, files) && IsChain(dev.disk, hs) && SS * hs[0] < WORD_SPACE
    requires Removable(dev.disk, hs, i, j) && FirstAt(Contents(dev.disk, hs), f, i, j)
    modifies files, dev`disk, dev.bus, dev.bus.ram, dev.bus.cache, dev.bus.dirtyBits
    ensures dev.Valid() && dev.disk == RemoveEntry(old(dev.disk), hs, i, j).0
    ensures files.fileList == old(files.fileList) && files.fileSize == old(files.fileSize)
  {
    hide Device.Valid, OpenFiles.Valid, IsChain, Contents, Removable, RemoveEntry, FirstAt, Flat;
    ContentsLength(dev.disk, hs);
    ghost var dir := Contents(dev.disk, hs);
    FirstIsUnique(dir, f, i, j, i, j);
    forall i': nat, j': nat | FirstAt(dir, f, i', j')
      ensures i' == i && j' == j
    {
      FirstIsUnique(dir, f, i, j, i', j');
    }
    var ok, n, k := FsDirectoryRemoveFile(dev, files, SS * hs[0], f, hs);
  }

  /** A call that changes the device does what the specification says, and keeps the table. */
  method ServeChange(dev: Device, files: OpenFiles, op: Op, ghost st: State)
    requires Shows(dev, files, st) && Allowed(st, dev.part.sectorSize, Change(op))
    modifies files, dev`disk, dev.bus, dev.bus.ram, dev.bus.cache, dev.bus.dirtyBits
    ensures Shows(dev, files, Next(st, dev.part.sectorSize, Change(op)))
  {
    hide Device.Valid, Device.Guarded, OpenFiles.Valid, Place, CreateAt, DirectoryAt, Release, AddEntry, RemoveEntry,
      IsChain, CanAdd, LacksRoom, AddWithoutRoom, Removable, Contents, FirstAt, Layout, BlockEnd;
    TableIsValid(dev, files, st);
    ghost var d, ss := dev.disk, dev.part.sectorSize;
    match op
    case CreateFile(name, size) =>
      var handle, i := FsFileCreate(dev, name, size);
    case CreateDirectory(name) =>
      var handle, i := FsDirectoryCreate(dev, name);
    case Delete(s) =>
      dev.HandleOf(s);
      BlockEnds(d, ss, s);
      FsFree(dev, s * dev.part.sectorSize, s);
    case SetHeader(s, offset, bytes) =>
      dev.HandleOf(s);
      dev.WriteBytes(dev.part.blockAddress + s * dev.part.sectorSize + offset, bytes, s, offset);
    case AddFile(hs, f) =>
      ChainHead(d, hs);
      var ok, gs := FsDirectoryAddFile(dev, files, SS * hs[0], f, hs);
    case RemoveFile(hs, f, i, j) =>
      ChainHead(d, hs);
      ServeRemoval(dev, files, hs, f, i, j);
  }

  lemma BlockEnds(d: Disk, ss: nat, s: nat)
    requires Layout(d, ss) && IsLive(d, ss, s)
    ensures BlockEnd(d, ss, s) <= |d|
  {
  }

  lemma ChainHead(d: Disk, hs: seq<nat>)
    requires IsChain(d, hs)
    ensures |hs| > 0 && SS * hs[0] < WORD_SPACE
  {
    assert NodeAt(d, hs, 0);
  }

  method ServeCall(dev: Device, files: OpenFiles, call: Call, ghost st: State)
    requires Shows(dev, files, st) && Allowed(st, dev.part.sectorSize, call)
    requires call.Open? ==> dev.Address(call.s, 0) > 0
    modifies files, dev`disk, dev.bus, dev.bus.ram, dev.bus.cache, dev.bus.dirtyBits
    ensures Shows(dev, files, Next(st, dev.part.sectorSize, call))
  {
    hide Shows, Allowed, Next;
    match call
    case Change(op) => ServeChange(dev, files, op, st);
    case Open(s) => ServeOpen(dev, files, s, st);
    case Close(index) => ServeClose(dev, files, index, st);
    case Write(index, size, data) => ServeWrite(dev, files, index, size, data, st);
  }

  /**
   * Carries out a session, careful or not: device and table are, after every call, in the state
   * of the specification.
   */
  method Serve(dev: Device, files: OpenFiles, calls: seq<Call>, ghost st: State)
    requires Shows(dev, files, st) && Runnable(st, dev.part.sectorSize, calls)
    requires forall k :: 0 <= k < |calls| && calls[k].Open? ==> dev.Address(calls[k].s, 0) > 0
    modifies files, dev`disk, dev.bus, dev.bus.ram, dev.bus.cache, dev.bus.dirtyBits
    ensures Shows(dev, files, StateAfter(st, dev.part.sectorSize, calls))
  {
    hide Shows, Allowed, Next;
    ghost var st' := st;
    for k := 0 to |calls|
      invariant Shows(dev, files, st') && Runnable(st', dev.part.sectorSize, calls[k..])
      invariant StateAfter(st', dev.part.sectorSize, calls[k..]) == StateAfter(st, dev.part.sectorSize, calls)
    {
      assert calls[k..][1..] == calls[k + 1..] && calls[k..][0] == calls[k];
      ServeCall(dev, files, calls[k], st');
      st' := Next(st', dev.part.sectorSize, calls[k]);
    }
  }
}
