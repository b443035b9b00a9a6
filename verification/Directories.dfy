/**
 * Adding to and removing from a directory, as transformations of the device: each keeps the
 * chain well formed and does to its contents what the list of handles says, and neither
 * touches a file that is not part of it.
 */
module Directories {
  import opened Words
  import opened FirstFit
  import opened Sectors
  import opened Blocks
  import opened Allocator
  import opened Extents
  import opened Chains

  // Adding.

  /** Where an extent is needed, there is room to make one. */
  ghost predicate CanAdd(d: Disk, hs: seq<nat>)
    requires IsChain(d, hs)
  {
    NeedsExtent(Contents(d, hs)) ==> Place(d, SS, DIRECTORY_SIZE) != 0
  }

  /** The device and the chain after an extent is made where one is needed. */
  ghost function Extended(d: Disk, hs: seq<nat>): (r: (Disk, seq<nat>))
    requires IsChain(d, hs) && CanAdd(d, hs)
    ensures |r.0| == |d|
  {
    if NeedsExtent(Contents(d, hs)) then
      assert NodeAt(d, hs, |hs| - 1);
      var i := Place(d, SS, DIRECTORY_SIZE);
      (Linked(d, hs[|hs| - 1], i), hs + [i])
    else (d, hs)
  }

  lemma PlaceIsFree(d: Disk, i: nat)
    requires Formed(d) && HasPlace(d, i)
    ensures i > 0 && i + 1 < |d|
    ensures forall t, k :: InBlock(d, SS, t, k) ==> k != i && k != i + 1
  {
    assert DataSectors(DIRECTORY_SIZE, SS) == 1;
    assert Marks(d)[i] == SECTOR_FREE && Marks(d)[i + 1] == SECTOR_FREE;
    DecompositionIsUnique(d, SS, i);
    DecompositionIsUnique(d, SS, i + 1);
  }

  /** Files outside the chain are untouched when an extent is linked. */
  lemma LinkedFrame(d: Disk, last: nat, i: nat, t: nat, k: nat)
    requires Formed(d) && IsNode(d, last) && HasPlace(d, i) && InBlock(d, SS, t, k) && t != last
    ensures k < |d| && t != i && Linked(d, last, i)[k] == d[k]
  {
    hide Linked, ExtentAt, InBlock;
    PlaceIsFree(d, i);
    HeaderInBlock(d, t, k);
    LinkedIs(d, last, i);
    NotInOther(d, last, t, k);
    ExtentIsNode(d, i, SS * last, 0);
  }

  lemma HeaderInBlock(d: Disk, t: nat, k: nat)
    requires Formed(d) && InBlock(d, SS, t, k)
    ensures InBlock(d, SS, t, t)
  {
  }

  lemma NotInOther(d: Disk, s: nat, t: nat, k: nat)
    requires Formed(d) && IsLive(d, SS, s) && InBlock(d, SS, t, k) && t != s
    ensures k < |d| && k != s
  {
    DecompositionIsUnique(d, SS, k);
    assert InBlock(d, SS, s, s);
  }

  /** A file whose header sector is the same has the same block. */
  lemma BlockFrame(d: Disk, e: Disk, t: nat, k: nat)
    requires Shaped(d, SS) && Shaped(e, SS) && |d| == |e| && InBlock(d, SS, t, k) && e[t] == d[t]
    ensures InBlock(e, SS, t, k)
  {
  }

  lemma ExtendedKeepsChain(d: Disk, hs: seq<nat>)
    requires IsChain(d, hs) && CanAdd(d, hs)
    ensures var (e, gs) := Extended(d, hs);
      && IsChain(e, gs) && |hs| <= |gs| && gs[..|hs|] == hs
      && Contents(e, gs) == Grown(Contents(d, hs))
      && (forall t :: IsLive(e, SS, t) <==> IsLive(d, SS, t) || (t in gs && t !in hs))
  {
    forall m | 0 <= m < |hs|
      ensures IsNode(d, hs[m])
    {
      assert NodeAt(d, hs, m);
    }
    if NeedsExtent(Contents(d, hs)) {
      LinkedKeepsChain(d, hs, Place(d, SS, DIRECTORY_SIZE));
    }
  }

  lemma OutsideChain(d: Disk, hs: seq<nat>, t: nat, k: nat)
    requires IsChain(d, hs) && InBlock(d, SS, t, k) && t !in hs
    ensures k < |d| && NodeAt(d, hs, |hs| - 1) && t != hs[|hs| - 1]
  {
    assert NodeAt(d, hs, |hs| - 1);
    NotInOther(d, hs[|hs| - 1], t, k);
  }

  lemma ExtendedFrame(d: Disk, hs: seq<nat>, t: nat, k: nat)
    requires IsChain(d, hs) && CanAdd(d, hs) && InBlock(d, SS, t, k) && t !in hs
    ensures k < |d| && t !in Extended(d, hs).1 && Extended(d, hs).0[k] == d[k]
  {
    hide Linked, Place, NeedsExtent, IsNode, Contents, InBlock;
    OutsideChain(d, hs, t, k);
    if NeedsExtent(Contents(d, hs)) {
      LinkedFrame(d, hs[|hs| - 1], Place(d, SS, DIRECTORY_SIZE), t, k);
    }
  }

  /** The device and the chain after a handle is added to a directory. */
  ghost function AddEntry(d: Disk, hs: seq<nat>, f: Word): (r: (Disk, seq<nat>))
    requires IsChain(d, hs) && CanAdd(d, hs)
    ensures |r.0| == |d|
  {
    var (x, gs) := Extended(d, hs);
    ExtendedKeepsChain(d, hs);
    var t := Target(Contents(d, hs));
    assert NodeAt(x, gs, t);
    (Store(x, gs[t], f), gs)
  }

  /** Short of a tail overflow the chain stays well formed and its contents are as expected. */
  lemma AddEntryAdds(d: Disk, hs: seq<nat>, f: Word)
    requires IsChain(d, hs) && CanAdd(d, hs) && !TailOverflow(Contents(d, hs))
    ensures var (e, gs) := AddEntry(d, hs, f);
      IsChain(e, gs) && |hs| <= |gs| && gs[..|hs|] == hs && Contents(e, gs) == Added(Contents(d, hs), f)
  {
    var (x, gs) := Extended(d, hs);
    ExtendedKeepsChain(d, hs);
    OverflowIff(Contents(d, hs));
    StoreKeepsChain(x, gs, Target(Contents(d, hs)), f);
  }

  /** Adding keeps the chain well formed exactly when it does not overflow the tail. */
  lemma AddEntryKeepsChainIff(d: Disk, hs: seq<nat>, f: Word)
    requires IsChain(d, hs) && CanAdd(d, hs)
    ensures var (e, gs) := AddEntry(d, hs, f);
      IsChain(e, gs) <==> !TailOverflow(Contents(d, hs))
  {
    if TailOverflow(Contents(d, hs)) {
      var (x, gs) := Extended(d, hs);
      var t := Target(Contents(d, hs));
      ExtendedKeepsChain(d, hs);
      OverflowIff(Contents(d, hs));
      assert NodeAt(x, gs, t);
      StoreKeepsLayout(x, gs[t], f);
      assert !NodeAt(AddEntry(d, hs, f).0, gs, t);
    } else {
      AddEntryAdds(d, hs, f);
    }
  }

  lemma StoreFrame(d: Disk, s: nat, f: Word)
    requires Formed(d) && IsNode(d, s)
    ensures forall t, k :: InBlock(d, SS, t, k) && t != s ==> k < |d| && Store(d, s, f)[k] == d[k]
  {
    StoreKeepsLayout(d, s, f);
    NodeBlock(d, s);
    forall t, k | InBlock(d, SS, t, k) && t != s
      ensures k != s && k != s + 1
    {
      DecompositionIsUnique(d, SS, k);
    }
  }

  lemma TargetNode(d: Disk, hs: seq<nat>)
    requires IsChain(d, hs) && CanAdd(d, hs)
    ensures var ((x, gs), t) := (Extended(d, hs), Target(Contents(d, hs)));
      Formed(d) && Formed(x) && |x| == |d| && t < |gs| && IsNode(x, gs[t])
  {
    hide CanAdd, Extended;
    ExtendedKeepsChain(d, hs);
    assert NodeAt(Extended(d, hs).0, Extended(d, hs).1, Target(Contents(d, hs)));
  }

  lemma AddEntryIs(d: Disk, hs: seq<nat>, f: Word)
    requires IsChain(d, hs) && CanAdd(d, hs)
    ensures var ((x, gs), t) := (Extended(d, hs), Target(Contents(d, hs)));
      && Formed(x) && t < |gs| && IsNode(x, gs[t])
      && AddEntry(d, hs, f) == (Store(x, gs[t], f), gs)
  {
    hide Extended, CanAdd, IsChain, Store;
    TargetNode(d, hs);
  }

  lemma AddEntryLives(d: Disk, hs: seq<nat>, f: Word)
    requires IsChain(d, hs) && CanAdd(d, hs)
    ensures var (e, gs) := AddEntry(d, hs, f);
      && Formed(e)
      && (forall t :: IsLive(e, SS, t) <==> IsLive(d, SS, t) || (t in gs && t !in hs))
  {
    hide Extended, CanAdd, IsChain, Store, IsNode, Contents, IsLive;
    var (x, gs) := Extended(d, hs);
    TargetNode(d, hs);
    AddEntryIs(d, hs, f);
    ExtendedKeepsChain(d, hs);
    StoreKeepsLayout(x, gs[Target(Contents(d, hs))], f);
  }

  lemma OutsideIsKept(d: Disk, hs: seq<nat>, f: Word, t: nat, k: nat)
    requires IsChain(d, hs) && CanAdd(d, hs) && InBlock(d, SS, t, k) && t !in hs
    ensures k < |d| && AddEntry(d, hs, f).0[k] == d[k]
  {
    hide Extended, CanAdd, IsChain, Store, IsNode, Contents, InBlock, AddEntry;
    var (x, gs) := Extended(d, hs);
    TargetNode(d, hs);
    AddEntryIs(d, hs, f);
    StoreFrame(x, gs[Target(Contents(d, hs))], f);
    ExtendedFrame(d, hs, t, k);
    HeaderInBlock(d, t, k);
    ExtendedFrame(d, hs, t, t);
    BlockFrame(d, x, t, k);
  }

  /**
   * Adding, overflow or not, allocates at most the one extent and leaves every sector of
   * every file outside the directory as it was.
   */
  lemma AddEntryFrame(d: Disk, hs: seq<nat>, f: Word)
    requires IsChain(d, hs) && CanAdd(d, hs)
    ensures var (e, gs) := AddEntry(d, hs, f);
      && Formed(e)
      && (forall t :: IsLive(e, SS, t) <==> IsLive(d, SS, t) || (t in gs && t !in hs))
      && (forall t, k :: InBlock(d, SS, t, k) && t !in hs ==> k < |d| && e[k] == d[k])
  {
    hide AddEntry, CanAdd, Contents, NodeAt;
    AddEntryLives(d, hs, f);
    forall t, k | InBlock(d, SS, t, k) && t !in hs
      ensures k < |d| && AddEntry(d, hs, f).0[k] == d[k]
    {
      OutsideIsKept(d, hs, f, t, k);
    }
  }

  // Adding without room for the extent that is called for.

  /** An extent is called for behind others, and there is no room to make one. */
  ghost predicate LacksRoom(d: Disk, hs: seq<nat>)
    requires IsChain(d, hs)
  {
    |hs| > 1 && NeedsExtent(Contents(d, hs)) && Place(d, SS, DIRECTORY_SIZE) == 0
  }

  /**
   * The device after a handle is added all the same: the fields of the extent land in the device
   * header, the last extent is linked to nothing, as before, and takes the handle.
   */
  ghost function AddWithoutRoom(d: Disk, hs: seq<nat>, f: Word): (e: Disk)
    requires IsChain(d, hs) && LacksRoom(d, hs)
    ensures |e| == |d|
  {
    FailedLink(d, hs);
    Store(Linked(d, hs[|hs| - 1], 0), hs[|hs| - 1], f)
  }

  /** The device and the chain once an extent is made where one is called for and there is room. */
  ghost function Widened(d: Disk, hs: seq<nat>): (r: (Disk, seq<nat>))
    requires IsChain(d, hs) && (CanAdd(d, hs) || LacksRoom(d, hs))
    ensures |r.0| == |d|
  {
    if LacksRoom(d, hs) then
      FailedLink(d, hs);
      (Linked(d, hs[|hs| - 1], 0), hs)
    else Extended(d, hs)
  }

  lemma SameLink(x: Sector)
    requires |x| == SS && WordAt(x, OFFSET_NEXT) == 0
    ensures PatchWord(x, OFFSET_NEXT, 0) == x
  {
    var b := [x[OFFSET_NEXT], x[OFFSET_NEXT + 1], x[OFFSET_NEXT + 2], x[OFFSET_NEXT + 3]];
    BytesRoundTrip(b);
    assert ToBytes(0) == b;
    var y := PatchWord(x, OFFSET_NEXT, 0);
    forall i | 0 <= i < SS
      ensures y[i] == x[i]
    {
      assert OFFSET_NEXT <= i ==> y[i] == b[i - OFFSET_NEXT];
    }
  }

  /** A link to an extent that was not made changes the device header only. */
  lemma FailedLink(d: Disk, hs: seq<nat>)
    requires IsChain(d, hs)
    ensures var last := hs[|hs| - 1];
      && 0 < last < |d| && SS * |d| <= WORD_SPACE
      && var e := Linked(d, last, 0);
      && Formed(e) && IsChain(e, hs) && Contents(e, hs) == Contents(d, hs) && IsNode(e, last)
      && (forall k :: 1 <= k < |d| ==> e[k] == d[k])
  {
    hide Linked, Contents, IsNode, Entries;
    var n, last := |hs| - 1, hs[|hs| - 1];
    assert NodeAt(d, hs, n);
    NodeIsLive(d, hs, n);
    FailedExtent(d, last);
    var e := Linked(d, last, 0);
    forall i | 0 <= i < |hs| && NodeAt(d, hs, i)
      ensures hs[i] > 0 && hs[i] + 1 < |d|
    {
      NodeIsLive(d, hs, i);
    }
    ChainFrame(d, e, hs);
    assert NodeAt(e, hs, n);
  }

  lemma NodeIsLive(d: Disk, hs: seq<nat>, i: nat)
    requires Shaped(d, SS) && NodeAt(d, hs, i)
    ensures IsLive(d, SS, hs[i]) && hs[i] + 1 < |d|
  {
  }

  lemma FailedExtent(d: Disk, last: nat)
    requires Formed(d) && IsLive(d, SS, last) && Field(d, last, OFFSET_NEXT) == 0
    ensures var e := Linked(d, last, 0);
      Formed(e) && forall k :: 1 <= k < |d| ==> e[k] == d[k]
  {
    hide PatchWord, WordAt, DataSectors;
    SameLink(d[last]);
    LayoutFrame(d, Linked(d, last, 0), SS);
  }

  /** The chain then stays well formed exactly when the last extent had not counted seven entries. */
  lemma AddWithoutRoomIff(d: Disk, hs: seq<nat>, f: Word)
    requires IsChain(d, hs) && LacksRoom(d, hs)
    ensures var e, n := AddWithoutRoom(d, hs, f), |hs| - 1;
      && Layout(e, SS)
      && (IsChain(e, hs) <==> |Contents(d, hs)[n]| < CAPACITY)
      && (IsChain(e, hs) ==> Contents(e, hs) == Contents(d, hs)[n := Contents(d, hs)[n] + [f]])
  {
    hide Linked, Store;
    var n, x := |hs| - 1, Linked(d, hs[|hs| - 1], 0);
    FailedLink(d, hs);
    StoreKeepsLayout(x, hs[n], f);
    if |Contents(d, hs)[n]| < CAPACITY {
      StoreKeepsChain(x, hs, n, f);
    } else {
      assert NodeAt(x, hs, n);
      assert !NodeAt(Store(x, hs[n], f), hs, n);
    }
  }

  /** Any number of additions, one after the other. */
  ghost function AddEntries(d: Disk, hs: seq<nat>, fs: seq<Word>): (r: (Disk, seq<nat>))
    requires IsChain(d, hs) && Packed(Contents(d, hs)) && RoomForAll(d, hs, fs)
    decreases |fs|
  {
    if fs == [] then (d, hs)
    else
      var (e, gs) := AddEntry(d, hs, fs[0]);
      AddEntryAdds(d, hs, fs[0]);
      AddedAppends(Contents(d, hs), fs[0]);
      AddEntries(e, gs, fs[1..])
  }

  /** Every extent that the additions call for can be allocated. */
  ghost predicate RoomForAll(d: Disk, hs: seq<nat>, fs: seq<Word>)
    requires IsChain(d, hs) && Packed(Contents(d, hs))
    decreases |fs|
  {
    fs == [] ||
    (CanAdd(d, hs) &&
     var (e, gs) := AddEntry(d, hs, fs[0]);
     AddedAppends(Contents(d, hs), fs[0]);
     AddEntryAdds(d, hs, fs[0]);
     RoomForAll(e, gs, fs[1..]))
  }

  lemma OneByOne(before: seq<Word>, fs: seq<Word>)
    requires fs != []
    ensures before + [fs[0]] + fs[1..] == before + fs
  {
  }

  lemma NodesAreBounded(d: Disk, hs: seq<nat>)
    requires IsChain(d, hs)
    ensures |Contents(d, hs)| == |hs| > 0
    ensures forall i :: 0 <= i < |hs| ==> |Contents(d, hs)[i]| <= CAPACITY
  {
    forall i | 0 <= i < |hs|
      ensures |Contents(d, hs)[i]| <= CAPACITY
    {
      assert NodeAt(d, hs, i);
    }
  }

  lemma FirstStays(gs: seq<nat>, hs: seq<nat>)
    requires 0 < |hs| <= |gs| && gs[..|hs|] == hs
    ensures gs[0] == hs[0]
  {
  }

  /** A directory that is only added to is an append-only list, however many extents it takes. */
  lemma {:induction false} DirectoryIsAppendOnly(d: Disk, hs: seq<nat>, fs: seq<Word>)
    requires IsChain(d, hs) && Packed(Contents(d, hs)) && RoomForAll(d, hs, fs)
    ensures var (e, gs) := AddEntries(d, hs, fs);
      && IsChain(e, gs) && Packed(Contents(e, gs)) && gs[0] == hs[0]
      && Flat(Contents(e, gs)) == Flat(Contents(d, hs)) + fs
      && forall i :: 0 <= i < |gs| ==> |Contents(e, gs)[i]| <= CAPACITY
    decreases |fs|
  {
    hide IsChain, Contents, AddEntry, CanAdd, Added, Packed, Flat, TailOverflow;
    NodesAreBounded(d, hs);
    if fs != [] {
      var (e, gs) := AddEntry(d, hs, fs[0]);
      AddedAppends(Contents(d, hs), fs[0]);
      AddEntryAdds(d, hs, fs[0]);
      FirstStays(gs, hs);
      DirectoryIsAppendOnly(e, gs, fs[1..]);
      OneByOne(Flat(Contents(d, hs)), fs);
    }
  }
}
