/**
 * Whole runs of calls on the device, whose writes each stay in the block of their file: whatever
 * the calls, the markers keep describing disjoint blocks, no sector is lost, and a file that no
 * call names keeps every byte. Which writes an open file lets through is told by Sessions.
 */
module Runs {
  import opened Words
  import opened FirstFit
  import opened Sectors
  import opened Blocks
  import opened FileData
  import opened Allocator
  import opened Files
  import opened Extents
  import opened Chains
  import opened Directories
  import opened Removal
  import opened DirectoryUpdates
  import opened Format

  /** A call that changes the device. Directories are named by their chain of extents. */
  datatype Op =
    | CreateFile(name: seq<Byte>, size: Word)
    | CreateDirectory(name: seq<Byte>)
    | Delete(s: nat)
    | Overwrite(s: nat, data: seq<Byte>)
    | SetHeader(s: nat, offset: nat, bytes: seq<Byte>)
    | AddFile(hs: seq<nat>, f: Word)
    | RemoveFile(hs: seq<nat>, f: Word, i: nat, j: nat)

  /** The header fields with setters: all but the marker and the size. */
  ghost predicate Editable(offset: nat, length: nat) {
    (OFFSET_NAME <= offset && offset + length <= OFFSET_SIZE) ||
    (OFFSET_ATTRIBUTES <= offset && offset + length <= 32)
  }

  /** What each call asks of its arguments. Creating asks nothing: it may find no room. */
  ghost predicate Enabled(d: Disk, ss: nat, op: Op)
    requires Layout(d, ss)
  {
    match op
    case CreateFile(name, size) => true
    case CreateDirectory(name) => true
    case Delete(s) => IsLive(d, ss, s)
    case Overwrite(s, data) => IsLive(d, ss, s) && InOwnBlock(d, ss, s, |data|)
    case SetHeader(s, offset, bytes) => IsLive(d, ss, s) && Editable(offset, |bytes|)
    case AddFile(hs, f) => ss == SS && IsChain(d, hs) && CanAdd(d, hs)
    case RemoveFile(hs, f, i, j) =>
      ss == SS && IsChain(d, hs) && Removable(d, hs, i, j) && FirstAt(Contents(d, hs), f, i, j)
  }

  ghost function Applied(d: Disk, ss: nat, op: Op): (e: Disk)
    requires Layout(d, ss) && Enabled(d, ss, op)
  {
    match op
    case CreateFile(name, size) =>
      var i := Place(d, ss, size);
      if i == 0 then d else CreateAt(d, ss, i, name, size)
    case CreateDirectory(name) => DirectoryAt(d, ss, Place(d, ss, DIRECTORY_SIZE), name)
    case Delete(s) => Release(d, ss, s)
    case Overwrite(s, data) =>
      OwnWriteStaysInside(d, ss, s, data);
      WriteData(d, ss, s, data)
    case SetHeader(s, offset, bytes) => d[s := Patch(d[s], offset, bytes)]
    case AddFile(hs, f) => AddEntry(d, hs, f).0
    case RemoveFile(hs, f, i, j) => RemoveEntry(d, hs, i, j).0
  }

  // What one call keeps.

  lemma HeaderEditKeepsLayout(d: Disk, ss: nat, s: nat, offset: nat, bytes: seq<Byte>)
    requires Layout(d, ss) && IsLive(d, ss, s) && Editable(offset, |bytes|)
    ensures var e := d[s := Patch(d[s], offset, bytes)];
      && Layout(e, ss)
      && (forall t :: IsLive(e, ss, t) <==> IsLive(d, ss, t))
      && (forall t, k :: InBlock(e, ss, t, k) <==> InBlock(d, ss, t, k))
  {
    var e := d[s := Patch(d[s], offset, bytes)];
    WordFrame(d[s], e[s], OFFSET_SIZE);
    LayoutFrame(d, e, ss);
  }

  /** Creating a directory keeps the layout, with room or without: the device header is no block. */
  lemma CreationKeepsLayout(d: Disk, ss: nat, name: seq<Byte>)
    requires Layout(d, ss)
    ensures var i := Place(d, ss, DIRECTORY_SIZE);
      var e := DirectoryAt(d, ss, i, name);
      && Layout(e, ss)
      && (forall t :: IsLive(e, ss, t) <==> IsLive(d, ss, t) || (t != 0 && t == i))
      && (forall t, k :: InBlock(d, ss, t, k) ==> k < |d| && e[k] == d[k])
  {
    hide Place, CreateAt, PatchWord;
    var i := Place(d, ss, DIRECTORY_SIZE);
    if i == 0 {
      LayoutFrame(d, DirectoryAt(d, ss, i, name), ss);
    } else {
      DirectoryKeepsLayout(d, ss, i, name);
    }
  }

  lemma RemovalKeepsLayout(d: Disk, hs: seq<nat>, i: nat, j: nat)
    requires IsChain(d, hs) && Removable(d, hs, i, j)
    ensures Layout(RemoveEntry(d, hs, i, j).0, SS) && |RemoveEntry(d, hs, i, j).0| == |d|
  {
    hide Freed, Unlinked, Removable, Contents;
    RemoveEntryRemoves(d, hs, i, j);
    RemoveEntryFrame(d, hs, i, j);
  }

  lemma AdditionKeepsLayout(d: Disk, hs: seq<nat>, f: Word)
    requires IsChain(d, hs) && CanAdd(d, hs)
    ensures Layout(AddEntry(d, hs, f).0, SS) && |AddEntry(d, hs, f).0| == |d|
  {
    hide AddEntry, Extended, CanAdd, Contents;
    AddEntryFrame(d, hs, f);
  }

  lemma LayoutIsShaped(d: Disk, ss: nat)
    requires Layout(d, ss)
    ensures Shaped(d, ss)
  {
  }

  /** Every call leaves a well-formed device of the same size. */
  lemma StepKeepsLayout(d: Disk, ss: nat, op: Op)
    requires Layout(d, ss) && Enabled(d, ss, op)
    ensures Layout(Applied(d, ss, op), ss) && |Applied(d, ss, op)| == |d|
  {
    hide Layout, Place, CreateAt, DirectoryAt, Release, WriteData, AddEntry, RemoveEntry, IsChain, CanAdd, Removable;
    LayoutIsShaped(d, ss);
    match op
    case CreateFile(name, size) =>
      if Place(d, ss, size) != 0 {
        CreateKeepsLayout(d, ss, Place(d, ss, size), name, size);
      }
    case CreateDirectory(name) => CreationKeepsLayout(d, ss, name);
    case Delete(s) => ReleaseKeepsLayout(d, ss, s);
    case Overwrite(s, data) => OwnWriteStaysInside(d, ss, s, data);
    case SetHeader(s, offset, bytes) => HeaderEditKeepsLayout(d, ss, s, offset, bytes);
    case AddFile(hs, f) => AdditionKeepsLayout(d, hs, f);
    case RemoveFile(hs, f, i, j) => RemovalKeepsLayout(d, hs, i, j);
  }

  /** The file at sector t is the one that a call changes, or part of the directory it changes. */
  ghost predicate Touches(d: Disk, ss: nat, op: Op, t: nat)
    requires Layout(d, ss) && Enabled(d, ss, op)
  {
    match op
    case CreateFile(name, size) => false
    case CreateDirectory(name) => false
    case Delete(s) => t == s
    case Overwrite(s, data) => t == s
    case SetHeader(s, offset, bytes) => t == s
    case AddFile(hs, f) => t in hs
    case RemoveFile(hs, f, i, j) => t in hs || t == Contents(d, hs)[i][j] / SS
  }

  lemma ReleaseSpares(d: Disk, ss: nat, s: nat, t: nat, k: nat)
    requires Layout(d, ss) && IsLive(d, ss, s) && InBlock(d, ss, t, k) && t != s
    ensures k < |d| && Release(d, ss, s)[k] == d[k]
  {
    ReleaseKeepsLayout(d, ss, s);
    DecompositionIsUnique(d, ss, k);
  }

  lemma WriteSpares(d: Disk, ss: nat, s: nat, data: seq<Byte>, t: nat, k: nat)
    requires Layout(d, ss) && IsLive(d, ss, s) && InBlock(d, ss, t, k) && t != s
    requires InOwnBlock(d, ss, s, |data|)
    ensures HasRoom(d, ss, s, |data|) && k < |d| && WriteData(d, ss, s, data)[k] == d[k]
  {
    hide WriteData;
    OwnWriteStaysInside(d, ss, s, data);
    DecompositionIsUnique(d, ss, k);
  }

  lemma OwnSector(d: Disk, ss: nat, s: nat, t: nat, k: nat)
    requires Layout(d, ss) && IsLive(d, ss, s) && InBlock(d, ss, t, k) && t != s
    ensures k < |d| && k != s
  {
    DecompositionIsUnique(d, ss, k);
    assert InBlock(d, ss, s, s);
  }

  lemma BlockIsInside(d: Disk, ss: nat, t: nat, k: nat)
    requires Layout(d, ss) && InBlock(d, ss, t, k)
    ensures k < |d| && InBlock(d, ss, t, t)
  {
  }

  /** A call changes no sector of a file that it does not touch. */
  lemma StepKeepsSector(d: Disk, ss: nat, op: Op, t: nat, k: nat)
    requires Layout(d, ss) && Enabled(d, ss, op) && !Touches(d, ss, op, t) && InBlock(d, ss, t, k)
    ensures k < |d| == |Applied(d, ss, op)| && Applied(d, ss, op)[k] == d[k]
  {
    hide Layout, InBlock, Place, CreateAt, DirectoryAt, Release, WriteData,
      AddEntry, RemoveEntry, IsChain, CanAdd, Removable;
    LayoutIsShaped(d, ss);
    StepKeepsLayout(d, ss, op);
    BlockIsInside(d, ss, t, k);
    match op
    case CreateFile(name, size) =>
      if Place(d, ss, size) != 0 {
        CreateKeepsLayout(d, ss, Place(d, ss, size), name, size);
      }
    case CreateDirectory(name) => CreationKeepsLayout(d, ss, name);
    case Delete(s) => ReleaseSpares(d, ss, s, t, k);
    case Overwrite(s, data) => WriteSpares(d, ss, s, data, t, k);
    case SetHeader(s, offset, bytes) => OwnSector(d, ss, s, t, k);
    case AddFile(hs, f) => AddEntryFrame(d, hs, f);
    case RemoveFile(hs, f, i, j) => RemoveEntryKeepsFiles(d, hs, i, j, t, k);
  }

  /** A file that a call does not touch stays alive, keeps its sectors, and keeps their bytes. */
  lemma StepKeepsFile(d: Disk, ss: nat, op: Op, t: nat)
    requires Layout(d, ss) && Enabled(d, ss, op) && !Touches(d, ss, op, t) && IsLive(d, ss, t)
    ensures var e := Applied(d, ss, op);
      && Layout(e, ss) && IsLive(e, ss, t) && BlockEnd(e, ss, t) == BlockEnd(d, ss, t) <= |d| == |e|
      && forall k :: t <= k < BlockEnd(d, ss, t) ==> e[k] == d[k]
  {
    hide Applied;
    StepKeepsLayout(d, ss, op);
    forall k | t <= k < BlockEnd(d, ss, t)
      ensures Applied(d, ss, op)[k] == d[k]
    {
      assert InBlock(d, ss, t, k);
      StepKeepsSector(d, ss, op, t, k);
    }
  }

  // Which calls change markers.

  /** The files alive after a call: only creations and deletions make a difference. */
  ghost predicate AliveAfter(d: Disk, ss: nat, op: Op, t: nat)
    requires Layout(d, ss) && Enabled(d, ss, op)
  {
    match op
    case CreateFile(name, size) => IsLive(d, ss, t) || (t != 0 && t == Place(d, ss, size))
    case CreateDirectory(name) => IsLive(d, ss, t) || (t != 0 && t == Place(d, ss, DIRECTORY_SIZE))
    case Delete(s) => IsLive(d, ss, t) && t != s
    case Overwrite(s, data) => IsLive(d, ss, t)
    case SetHeader(s, offset, bytes) => IsLive(d, ss, t)
    case AddFile(hs, f) =>
      IsLive(d, ss, t) || (NeedsExtent(Contents(d, hs)) && t == Place(d, ss, DIRECTORY_SIZE))
    case RemoveFile(hs, f, i, j) =>
      && IsLive(d, ss, t) && t != Contents(d, hs)[i][j] / SS
      && !(Unlinks(Contents(d, hs), i) && t == hs[i])
  }

  lemma AddedLives(d: Disk, hs: seq<nat>, f: Word, t: nat)
    requires IsChain(d, hs) && CanAdd(d, hs)
    ensures Shaped(AddEntry(d, hs, f).0, SS)
    ensures IsLive(AddEntry(d, hs, f).0, SS, t) <==> AliveAfter(d, SS, AddFile(hs, f), t)
  {
    hide Store, Linked, Place, NeedsExtent, CanAdd, NodeAt, Contents, TailOverflow;
    AddEntryFrame(d, hs, f);
    if NeedsExtent(Contents(d, hs)) {
      NewExtentIsNew(d, hs);
    }
  }

  lemma NewExtentIsNew(d: Disk, hs: seq<nat>)
    requires IsChain(d, hs) && CanAdd(d, hs) && NeedsExtent(Contents(d, hs))
    ensures HasPlace(d, Place(d, SS, DIRECTORY_SIZE)) && Place(d, SS, DIRECTORY_SIZE) !in hs
  {
    var i := Place(d, SS, DIRECTORY_SIZE);
    PlaceIsFree(d, i);
    forall k | 0 <= k < |hs|
      ensures hs[k] != i
    {
      assert NodeAt(d, hs, k);
      NodeBlock(d, hs[k]);
    }
  }

  lemma RemovedLives(d: Disk, hs: seq<nat>, i: nat, j: nat, t: nat)
    requires IsChain(d, hs) && Removable(d, hs, i, j)
    ensures Shaped(RemoveEntry(d, hs, i, j).0, SS)
    ensures IsLive(RemoveEntry(d, hs, i, j).0, SS, t) <==>
              && IsLive(d, SS, t) && t != Contents(d, hs)[i][j] / SS
              && !(Unlinks(Contents(d, hs), i) && t == hs[i])
  {
    hide Freed, Unlinked, Contents, Unlinks, IsLive;
    RemoveEntryFrame(d, hs, i, j);
    if Unlinks(Contents(d, hs), i) {
      WithoutIsDistinct(hs, i);
      assert t in hs && t != hs[i] ==> t in Without(hs, i);
    }
  }

  /** A call brings to life and ends exactly the files that it says. */
  lemma StepLives(d: Disk, ss: nat, op: Op, t: nat)
    requires Layout(d, ss) && Enabled(d, ss, op)
    ensures Layout(Applied(d, ss, op), ss)
    ensures IsLive(Applied(d, ss, op), ss, t) <==> AliveAfter(d, ss, op, t)
  {
    hide Layout, IsLive, Place, CreateAt, DirectoryAt, Release, WriteData,
      AddEntry, RemoveEntry, IsChain, CanAdd, Removable;
    LayoutIsShaped(d, ss);
    StepKeepsLayout(d, ss, op);
    match op
    case CreateFile(name, size) =>
      if Place(d, ss, size) != 0 {
        CreateKeepsLayout(d, ss, Place(d, ss, size), name, size);
      }
    case CreateDirectory(name) => CreationKeepsLayout(d, ss, name);
    case Delete(s) => ReleaseKeepsLayout(d, ss, s);
    case Overwrite(s, data) => OwnWriteStaysInside(d, ss, s, data);
    case SetHeader(s, offset, bytes) => HeaderEditKeepsLayout(d, ss, s, offset, bytes);
    case AddFile(hs, f) => AddedLives(d, hs, f, t);
    case RemoveFile(hs, f, i, j) => RemovedLives(d, hs, i, j, t);
  }

  lemma NodeSize(d: Disk, hs: seq<nat>, t: nat)
    requires IsChain(d, hs) && t in hs
    ensures IsNode(d, t)
  {
    var k :| 0 <= k < |hs| && hs[k] == t;
    assert NodeAt(d, hs, k);
  }

  lemma AddedSizes(d: Disk, hs: seq<nat>, f: Word, t: nat)
    requires IsChain(d, hs) && CanAdd(d, hs) && t in hs
    ensures Shaped(AddEntry(d, hs, f).0, SS) && t < |d|
    ensures SizeOf(AddEntry(d, hs, f).0, SS, t) == SizeOf(d, SS, t)
  {
    hide Store, Extended, CanAdd, Contents, NodeAt;
    var (x, gs) := Extended(d, hs);
    ExtendedKeepsChain(d, hs);
    NodeSize(d, hs, t);
    var i := Target(Contents(d, hs));
    TargetIsInside(x, gs, i);
    var s := gs[i];
    var k :| 0 <= k < |hs| && hs[k] == t;
    assert gs[..|hs|][k] == gs[k];
    NodeSize(x, gs, t);
    NodeSize(x, gs, s);
    NodeBlock(x, s);
    StoreKeepsLayout(x, s, f);
  }

  lemma TargetIsInside(x: Disk, gs: seq<nat>, i: nat)
    requires IsChain(x, gs) && i < |Contents(x, gs)|
    ensures i < |gs|
  {
  }

  lemma RemovedSizes(d: Disk, hs: seq<nat>, i: nat, j: nat, t: nat)
    requires IsChain(d, hs) && Removable(d, hs, i, j) && t in hs && t in RemoveEntry(d, hs, i, j).1
    ensures Shaped(RemoveEntry(d, hs, i, j).0, SS) && t < |d| == |RemoveEntry(d, hs, i, j).0|
    ensures SizeOf(RemoveEntry(d, hs, i, j).0, SS, t) == SizeOf(d, SS, t)
  {
    hide RemoveEntry, Removable, Contents, NodeAt;
    RemoveEntryRemoves(d, hs, i, j);
    RemoveEntryFrame(d, hs, i, j);
    NodeSize(d, hs, t);
    NodeSize(RemoveEntry(d, hs, i, j).0, RemoveEntry(d, hs, i, j).1, t);
  }

  /** A file that is alive before and after a call keeps its size. */
  lemma StepKeepsSize(d: Disk, ss: nat, op: Op, t: nat)
    requires Layout(d, ss) && Enabled(d, ss, op) && IsLive(d, ss, t)
    requires Layout(Applied(d, ss, op), ss) && IsLive(Applied(d, ss, op), ss, t)
    ensures |Applied(d, ss, op)| == |d| && SizeOf(Applied(d, ss, op), ss, t) == SizeOf(d, ss, t)
  {
    hide Layout, WordAt, Place, CreateAt, DirectoryAt, Release, WriteData,
      AddEntry, IsChain, CanAdd, Removable, Contents;
    LayoutIsShaped(d, ss);
    StepKeepsLayout(d, ss, op);
    if !Touches(d, ss, op, t) {
      StepKeepsFile(d, ss, op, t);
    } else {
      match op
      case Delete(s) => ReleaseKeepsLayout(d, ss, s);
      case Overwrite(s, data) => OwnWriteStaysInside(d, ss, s, data);
      case SetHeader(s, offset, bytes) => WordFrame(d[s], Patch(d[s], offset, bytes), OFFSET_SIZE);
      case AddFile(hs, f) => AddedSizes(d, hs, f, t);
      case RemoveFile(hs, f, i, j) =>
        RemoveEntryFrame(d, hs, i, j);
        RemovedSizes(d, hs, i, j, t);
    }
  }

  /**
   * A marker changes only where the call allocates a block that covers the sector or frees the
   * one that did: no write, header edit or directory update moves any other marker.
   */
  lemma OnlyAllocationMovesMarkers(d: Disk, ss: nat, op: Op, k: nat)
    requires Layout(d, ss) && Enabled(d, ss, op) && 1 <= k < |d|
    ensures var e := Applied(d, ss, op);
      && Layout(e, ss) && |e| == |d|
      && (e[k][0] != d[k][0] ==>
            exists t: nat ::
              || (InBlock(d, ss, t, k) && !AliveAfter(d, ss, op, t))
              || (InBlock(e, ss, t, k) && AliveAfter(d, ss, op, t) && !IsLive(d, ss, t)))
  {
    hide Applied, Enabled, AliveAfter;
    var e := Applied(d, ss, op);
    StepKeepsLayout(d, ss, op);
    forall t: nat | IsLive(d, ss, t)
      ensures IsLive(e, ss, t) ==> BlockEnd(e, ss, t) == BlockEnd(d, ss, t)
    {
      if IsLive(e, ss, t) {
        StepKeepsSize(d, ss, op, t);
      }
    }
    forall t: nat
      ensures IsLive(e, ss, t) <==> AliveAfter(d, ss, op, t)
    {
      StepLives(d, ss, op, t);
    }
    MarkerDecides(d, e, ss, k);
  }

  lemma MarkerDecides(d: Disk, e: Disk, ss: nat, k: nat)
    requires Layout(d, ss) && Layout(e, ss) && |e| == |d| && 1 <= k < |d|
    requires forall t: nat :: IsLive(d, ss, t) && IsLive(e, ss, t) ==> BlockEnd(e, ss, t) == BlockEnd(d, ss, t)
    ensures e[k][0] != d[k][0] ==>
              exists t: nat ::
                || (InBlock(d, ss, t, k) && !IsLive(e, ss, t))
                || (InBlock(e, ss, t, k) && !IsLive(d, ss, t))
  {
    hide DataSectors, SizeOf;
    DecompositionIsUnique(d, ss, k);
    DecompositionIsUnique(e, ss, k);
    if d[k][0] != SECTOR_FREE {
      var t: nat :| InBlock(d, ss, t, k);
      assert IsLive(e, ss, t) ==> InBlock(e, ss, t, k);
    } else if e[k][0] != SECTOR_FREE {
      var t: nat :| InBlock(e, ss, t, k);
      assert !InBlock(d, ss, t, k);
    }
  }

  // What whole runs keep.

  /** Every call of the run is made where it is enabled. */
  ghost predicate Legal(d: Disk, ss: nat, run: seq<Op>)
    requires Layout(d, ss)
    decreases |run|
  {
    run == [] ||
    (Enabled(d, ss, run[0]) &&
     (StepKeepsLayout(d, ss, run[0]);
      Legal(Applied(d, ss, run[0]), ss, run[1..])))
  }

  ghost function After(d: Disk, ss: nat, run: seq<Op>): (e: Disk)
    requires Layout(d, ss) && Legal(d, ss, run)
    decreases |run|
  {
    if run == [] then d
    else
      StepKeepsLayout(d, ss, run[0]);
      After(Applied(d, ss, run[0]), ss, run[1..])
  }

  lemma {:induction false} LayoutOverRuns(d: Disk, ss: nat, run: seq<Op>)
    requires Layout(d, ss) && Legal(d, ss, run)
    ensures Layout(After(d, ss, run), ss) && |After(d, ss, run)| == |d|
    decreases |run|
  {
    hide Layout, Applied, Enabled;
    if run != [] {
      StepKeepsLayout(d, ss, run[0]);
      LayoutOverRuns(Applied(d, ss, run[0]), ss, run[1..]);
    }
  }

  /**
   * After any run the markers decompose in exactly one way into free sectors and disjoint blocks
   * that lie in the partition, and free and taken sectors add up to all but the first.
   */
  lemma RunKeepsLayout(d: Disk, ss: nat, run: seq<Op>)
    requires Layout(d, ss) && Legal(d, ss, run)
    ensures var e := After(d, ss, run);
      && Layout(e, ss) && |e| == |d|
      && (forall k :: 1 <= k < |e| && e[k][0] != SECTOR_FREE ==> exists s :: InBlock(e, ss, s, k))
      && (forall k, s, t :: 1 <= k < |e| && InBlock(e, ss, s, k) && InBlock(e, ss, t, k) ==> s == t)
      && FreeSectors(e, ss, 1) + BlockSectors(e, ss, 1) == |d| - 1
  {
    hide After, Legal, InBlock;
    var e := After(d, ss, run);
    LayoutOverRuns(d, ss, run);
    SectorsAreConserved(e, ss);
    forall k | 1 <= k < |e|
      ensures e[k][0] != SECTOR_FREE ==> exists s :: InBlock(e, ss, s, k)
      ensures forall s, t :: InBlock(e, ss, s, k) && InBlock(e, ss, t, k) ==> s == t
    {
      DecompositionIsUnique(e, ss, k);
    }
  }

  /** The same from a freshly formatted device. */
  lemma FormattedRuns(d: Disk, ss: Word, capacity: Word, root: Word, run: seq<Op>)
    requires Shaped(d, ss) && |d| >= 3
    ensures var f := Formatted(d, ss, capacity, root);
      && Layout(f, ss) && |f| == |d|
      && (Legal(f, ss, run) ==>
            && Layout(After(f, ss, run), ss)
            && FreeSectors(After(f, ss, run), ss, 1) + BlockSectors(After(f, ss, run), ss, 1) == |d| - 1)
  {
    hide Formatted;
    FormattedLayout(d, ss, capacity, root);
    if Legal(Formatted(d, ss, capacity, root), ss, run) {
      RunKeepsLayout(Formatted(d, ss, capacity, root), ss, run);
    }
  }

  /** No call of the run touches the file at sector t. */
  ghost predicate Spared(d: Disk, ss: nat, run: seq<Op>, t: nat)
    requires Layout(d, ss) && Legal(d, ss, run)
    decreases |run|
  {
    run == [] ||
    (!Touches(d, ss, run[0], t) &&
     (StepKeepsLayout(d, ss, run[0]);
      Spared(Applied(d, ss, run[0]), ss, run[1..], t)))
  }

  /** Across any run that does not touch it a file keeps its header and reads back as before. */
  lemma {:induction false} RunKeepsFile(d: Disk, ss: nat, run: seq<Op>, t: nat, n: nat)
    requires Layout(d, ss) && Legal(d, ss, run) && Spared(d, ss, run, t)
    requires IsLive(d, ss, t) && (n > 0 ==> t + DataSectors(n - 1, ss) < BlockEnd(d, ss, t))
    ensures var e := After(d, ss, run);
      && Layout(e, ss) && IsLive(e, ss, t) && e[t] == d[t]
      && HasRoom(d, ss, t, n) && HasRoom(e, ss, t, n) && ReadData(e, ss, t, n) == ReadData(d, ss, t, n)
    decreases |run|
  {
    hide Applied, ReadData;
    if run != [] {
      var x := Applied(d, ss, run[0]);
      StepKeepsFile(d, ss, run[0], t);
      RunKeepsFile(x, ss, run[1..], t, n);
      SameBytes(d, x, ss, t, n);
    }
  }

  /** What a write stores is read back, even after any run that does not touch the file. */
  lemma WrittenDataSurvives(d: Disk, ss: nat, s: nat, data: seq<Byte>, run: seq<Op>)
    requires Layout(d, ss) && Enabled(d, ss, Overwrite(s, data))
    requires var e := Applied(d, ss, Overwrite(s, data));
      Layout(e, ss) && Legal(e, ss, run) && Spared(e, ss, run, s)
    ensures var e := After(Applied(d, ss, Overwrite(s, data)), ss, run);
      && Layout(e, ss) && IsLive(e, ss, s) && e[s] == d[s] && HasRoom(e, ss, s, |data|)
      && ReadData(e, ss, s, |data|) == data
  {
    hide WriteData, ReadData, Legal, Spared, After, BlockEnd, Applied, Enabled, DataSectors;
    WriteIsStored(d, ss, s, data);
    RunKeepsFile(Applied(d, ss, Overwrite(s, data)), ss, run, s, |data|);
  }

  /** Data written is read back at once, and lies in the block of its file. */
  lemma WriteIsStored(d: Disk, ss: nat, s: nat, data: seq<Byte>)
    requires Layout(d, ss) && Enabled(d, ss, Overwrite(s, data))
    ensures var e := Applied(d, ss, Overwrite(s, data));
      && Layout(e, ss) && IsLive(e, ss, s) && e[s] == d[s]
      && HasRoom(e, ss, s, |data|) && ReadData(e, ss, s, |data|) == data
      && (|data| > 0 ==> s + DataSectors(|data| - 1, ss) < BlockEnd(e, ss, s))
  {
    hide WriteData, ReadData, DataSectors, BlockEnd, HasRoom;
    OwnWriteStaysInside(d, ss, s, data);
    ReadBack(d, ss, s, data);
    SameEnd(d, WriteData(d, ss, s, data), ss, s);
    SameRoom(d, WriteData(d, ss, s, data), ss, s, |data|);
  }

  lemma SameEnd(d: Disk, e: Disk, ss: nat, s: nat)
    requires Shaped(d, ss) && Shaped(e, ss) && IsLive(d, ss, s) && IsLive(e, ss, s) && e[s] == d[s]
    ensures BlockEnd(e, ss, s) == BlockEnd(d, ss, s)
  {
  }

  lemma SameRoom(d: Disk, e: Disk, ss: nat, s: nat, n: nat)
    requires Shaped(d, ss) && Shaped(e, ss) && |d| == |e| && HasRoom(d, ss, s, n)
    ensures HasRoom(e, ss, s, n)
  {
  }

  lemma SameBytes(d: Disk, e: Disk, ss: nat, t: nat, n: nat)
    requires Layout(d, ss) && Layout(e, ss) && |d| == |e| && IsLive(d, ss, t)
    requires n > 0 ==> t + DataSectors(n - 1, ss) < BlockEnd(d, ss, t)
    requires forall k :: t <= k < BlockEnd(d, ss, t) ==> e[k] == d[k]
    ensures HasRoom(d, ss, t, n) && HasRoom(e, ss, t, n)
    ensures ReadData(e, ss, t, n) == ReadData(d, ss, t, n)
  {
    hide ReadData;
    forall i | 0 <= i < n
      ensures ReadData(e, ss, t, n)[i] == ReadData(d, ss, t, n)[i]
    {
      SectorsGrow(i, n - 1, ss);
      PlaceInRange(i, ss);
    }
  }

  /** Allocating after a block was allocated and freed finds the place it would have found before. */
  lemma PlaceIsStable(d: Disk, ss: nat, size: Word, next: Word)
    requires Layout(d, ss) && Place(d, ss, size) != 0
    ensures var i := Place(d, ss, size);
      var e := Release(Allocate(d, ss, i, size), ss, i);
      Layout(e, ss) && Place(e, ss, next) == Place(d, ss, next)
  {
    hide Allocate, Release, Place, DataSectors;
    var i := Place(d, ss, size);
    AllocateKeepsLayout(d, ss, i, size);
    ReleaseKeepsLayout(Allocate(d, ss, i, size), ss, i);
    ReleaseUndoesAllocate(d, ss, i, size);
    PlaceOfMarks(d, Release(Allocate(d, ss, i, size), ss, i), ss, next);
  }

  lemma PlaceOfMarks(d: Disk, e: Disk, ss: nat, size: Word)
    requires Shaped(d, ss) && Shaped(e, ss) && |d| == |e| && Marks(d) == Marks(e)
    ensures Place(d, ss, size) == Place(e, ss, size)
  {
  }
}
