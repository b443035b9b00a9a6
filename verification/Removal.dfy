/**
 * Removing a handle from a directory, as a transformation of the device: the file goes, the
 * last entry of its extent takes its place, and an emptied extent is unlinked and freed.
 */
module Removal {
  import opened Words
  import opened Counting
  import opened Sectors
  import opened Blocks
  import opened Files
  import opened Extents
  import opened Chains
  import opened Directories

  const BLANKS: seq<Byte> := [SPACE, SPACE, SPACE, SPACE]

  // Within one node.

  /** The body of a node after entry j is overwritten by the last of its r entries. */
  ghost function SwappedBody(x: Sector, r: nat, j: nat): (y: Sector)
    requires |x| == SS && j < r <= CAPACITY
    ensures |y| == SS && y[0] == x[0]
    ensures forall i :: 1 + 4 * (r - 1) <= i < 1 + 4 * r ==> y[i] == ' ' as int
    ensures forall i :: 1 + 4 * r <= i < SS ==> y[i] == x[i]
  {
    Patch(PatchWord(x, 1 + 4 * j, WordAt(x, 1 + 4 * (r - 1))), 1 + 4 * (r - 1), BLANKS)
  }

  lemma SwappedWord(x: Sector, r: nat, j: nat, k: nat)
    requires |x| == SS && j < r <= CAPACITY && k < r - 1
    ensures WordAt(SwappedBody(x, r, j), 1 + 4 * k) == WordAt(x, 1 + 4 * (if k == j then r - 1 else k))
  {
    var moved := PatchWord(x, 1 + 4 * j, WordAt(x, 1 + 4 * (r - 1)));
    WordFrame(moved, SwappedBody(x, r, j), 1 + 4 * k);
    if k != j {
      WordFrame(x, moved, 1 + 4 * k);
    }
  }

  /** The disk after entry j of a node is taken out of it. */
  ghost function TakenOut(d: Disk, s: nat, j: nat): (e: Disk)
    requires Shaped(d, SS) && IsNode(d, s) && j < Field(d, s, OFFSET_REF_COUNT)
    ensures |e| == |d|
  {
    var r := Field(d, s, OFFSET_REF_COUNT);
    d[s + 1 := SwappedBody(d[s + 1], r, j)]
     [s := PatchWord(d[s], OFFSET_REF_COUNT, r - 1)]
  }

  lemma TakenOutKeepsLayout(d: Disk, s: nat, j: nat)
    requires Formed(d) && IsNode(d, s) && j < Field(d, s, OFFSET_REF_COUNT)
    ensures var e := TakenOut(d, s, j);
      && Formed(e) && IsNode(e, s)
      && (forall t :: IsLive(e, SS, t) <==> IsLive(d, SS, t))
      && (forall k :: 0 <= k < |d| && k != s && k != s + 1 ==> e[k] == d[k])
      && Field(e, s, OFFSET_NEXT) == Field(d, s, OFFSET_NEXT)
      && Field(e, s, OFFSET_PARENT) == Field(d, s, OFFSET_PARENT)
  {
    var e := TakenOut(d, s, j);
    NodeBlock(d, s);
    WordFrame(d[s], e[s], OFFSET_SIZE);
    WordFrame(d[s], e[s], OFFSET_NEXT);
    WordFrame(d[s], e[s], OFFSET_PARENT);
    LayoutFrame(d, e, SS);
  }

  lemma TakenOutSwaps(d: Disk, s: nat, j: nat)
    requires Formed(d) && IsNode(d, s) && j < Field(d, s, OFFSET_REF_COUNT)
    ensures var e := TakenOut(d, s, j);
      Shaped(e, SS) && IsNode(e, s) && Entries(e, s) == SwappedOut(Entries(d, s), j)
  {
    TakenOutKeepsLayout(d, s, j);
    var e, r := TakenOut(d, s, j), Field(d, s, OFFSET_REF_COUNT);
    assert e[s + 1] == SwappedBody(d[s + 1], r, j);
    forall k | 0 <= k < r - 1
      ensures Entry(e, s, k) == Entry(d, s, if k == j then r - 1 else k)
    {
      SwappedWord(d[s + 1], r, j, k);
    }
  }

  lemma TakenOutKeepsChain(d: Disk, hs: seq<nat>, i: nat, j: nat)
    requires IsChain(d, hs) && i < |hs| && j < |Contents(d, hs)[i]|
    ensures NodeAt(d, hs, i)
    ensures var e := TakenOut(d, hs[i], j);
      && IsChain(e, hs)
      && Contents(e, hs) == Contents(d, hs)[i := SwappedOut(Contents(d, hs)[i], j)]
  {
    assert NodeAt(d, hs, i);
    TakenOutKeepsLayout(d, hs[i], j);
    TakenOutSwaps(d, hs[i], j);
    NodeUpdateKeepsChain(d, TakenOut(d, hs[i], j), hs, i);
  }

  // Unlinking an extent.

  /**
   * The disk after the node before s and the node behind it point past it. When there is no
   * node behind it, the back link lands in unused bytes of the device header.
   */
  ghost function Bypassed(d: Disk, s: nat): (e: Disk)
    requires Shaped(d, SS) && s < |d|
    requires Field(d, s, OFFSET_PARENT) / SS < |d| && Field(d, s, OFFSET_NEXT) / SS < |d|
    ensures |e| == |d|
  {
    var next, parent := Field(d, s, OFFSET_NEXT), Field(d, s, OFFSET_PARENT);
    var x := d[parent / SS := PatchWord(d[parent / SS], OFFSET_NEXT, next)];
    x[next / SS := PatchWord(x[next / SS], OFFSET_PARENT, parent)]
  }

  ghost function Without(hs: seq<nat>, i: nat): (gs: seq<nat>)
    requires i < |hs|
    ensures |gs| == |hs| - 1
    ensures forall k :: 0 <= k < |gs| ==> gs[k] == hs[if k < i then k else k + 1]
  {
    hs[..i] + hs[i + 1..]
  }

  /** The fields that Bypassed works on, for a node in the chain. */
  lemma BypassedLinks(d: Disk, hs: seq<nat>, i: nat)
    requires IsChain(d, hs) && 0 < i < |hs|
    ensures NodeAt(d, hs, i) && NodeAt(d, hs, i - 1) && (i + 1 < |hs| ==> NodeAt(d, hs, i + 1))
    ensures Field(d, hs[i], OFFSET_PARENT) / SS == hs[i - 1] < |d|
    ensures Field(d, hs[i], OFFSET_NEXT) / SS == (if i + 1 < |hs| then hs[i + 1] else 0) < |d|
  {
    assert NodeAt(d, hs, i) && NodeAt(d, hs, i - 1);
    assert i + 1 < |hs| ==> NodeAt(d, hs, i + 1);
  }

  /** Nodes keep their entries, and all links but those around node i stay. */
  ghost predicate Skips(d: Disk, e: Disk, hs: seq<nat>, i: nat)
    requires IsChain(d, hs) && 0 < i < |hs|
  {
    var q := if i + 1 < |hs| then hs[i + 1] else 0;
    && Formed(e) && |e| == |d| && q < |d| && hs[i - 1] < |d| && hs[i] < |d|
    && (forall s :: IsLive(e, SS, s) <==> IsLive(d, SS, s))
    && (forall s :: IsNode(d, s) ==> IsNode(e, s) && Entries(e, s) == Entries(d, s))
    && (forall k :: 0 <= k < |d| && k != hs[i - 1] && k != q ==> e[k] == d[k])
    && Field(e, hs[i - 1], OFFSET_NEXT) == Field(d, hs[i], OFFSET_NEXT)
    && Field(e, hs[i - 1], OFFSET_PARENT) == Field(d, hs[i - 1], OFFSET_PARENT)
    && Field(e, q, OFFSET_PARENT) == SS * hs[i - 1]
    && Field(e, q, OFFSET_NEXT) == Field(d, q, OFFSET_NEXT)
  }

  lemma BypassedSkips(d: Disk, hs: seq<nat>, i: nat)
    requires IsChain(d, hs) && 0 < i < |hs|
    ensures NodeAt(d, hs, i)
    ensures Field(d, hs[i], OFFSET_PARENT) / SS < |d| && Field(d, hs[i], OFFSET_NEXT) / SS < |d|
    ensures Skips(d, Bypassed(d, hs[i]), hs, i)
  {
    BypassedLinks(d, hs, i);
    var next, parent := Field(d, hs[i], OFFSET_NEXT), Field(d, hs[i], OFFSET_PARENT);
    var p, q := hs[i - 1], if i + 1 < |hs| then hs[i + 1] else 0;
    assert p != q && q != hs[i];
    RelinkKeepsNodes(d, p, OFFSET_NEXT, next);
    RelinkKeepsNodes(d[p := PatchWord(d[p], OFFSET_NEXT, next)], q, OFFSET_PARENT, parent);
  }

  lemma SkippedNodeAt(d: Disk, e: Disk, hs: seq<nat>, i: nat, k: nat)
    requires IsChain(d, hs) && 0 < i < |hs| && k < |hs| - 1 && Skips(d, e, hs, i)
    ensures var m := if k < i then k else k + 1;
      NodeAt(d, hs, m) && NodeAt(e, Without(hs, i), k) && Entries(e, Without(hs, i)[k]) == Entries(d, hs[m])
  {
    hide Entries, WordAt, SizeOf, InBlock;
    var m := if k < i then k else k + 1;
    assert NodeAt(d, hs, m) && NodeAt(d, hs, i) && NodeAt(d, hs, i - 1);
    assert m != i - 1 ==> hs[m] != hs[i - 1];
    assert i + 1 < |hs| && m != i + 1 ==> hs[m] != hs[i + 1];
  }

  lemma WithoutIsDistinct(hs: seq<nat>, i: nat)
    requires Distinct(hs) && i < |hs|
    ensures Distinct(Without(hs, i)) && hs[i] !in Without(hs, i)
  {
  }

  lemma SkippedIsChain(d: Disk, e: Disk, hs: seq<nat>, i: nat)
    requires IsChain(d, hs) && 0 < i < |hs| && Skips(d, e, hs, i)
    ensures IsChain(e, Without(hs, i))
  {
    WithoutIsDistinct(hs, i);
    forall k | 0 <= k < |hs| - 1
      ensures NodeAt(e, Without(hs, i), k)
    {
      SkippedNodeAt(d, e, hs, i, k);
    }
  }

  /** Past a bypassed extent the chain is well formed and holds everything else. */
  lemma SkippedChain(d: Disk, e: Disk, hs: seq<nat>, i: nat)
    requires IsChain(d, hs) && 0 < i < |hs| && Skips(d, e, hs, i)
    ensures IsChain(e, Without(hs, i)) && hs[i] !in Without(hs, i)
    ensures Contents(e, Without(hs, i)) == Contents(d, hs)[..i] + Contents(d, hs)[i + 1..]
  {
    SkippedIsChain(d, e, hs, i);
    WithoutIsDistinct(hs, i);
    var dir, rest := Contents(d, hs), Contents(e, Without(hs, i));
    forall k | 0 <= k < |rest|
      ensures rest[k] == dir[if k < i then k else k + 1]
    {
      SkippedNodeAt(d, e, hs, i, k);
    }
    OneLess(dir, rest, i);
  }

  lemma OneLess(dir: seq<Extent>, rest: seq<Extent>, i: nat)
    requires i < |dir| == |rest| + 1
    requires forall k :: 0 <= k < |rest| ==> rest[k] == dir[if k < i then k else k + 1]
    ensures rest == dir[..i] + dir[i + 1..]
  {
  }

  // The whole removal.

  /** The handle that entry j of node i holds names a file outside the directory. */
  ghost predicate Removable(d: Disk, hs: seq<nat>, i: nat, j: nat)
    requires IsChain(d, hs)
  {
    && i < |hs| && j < |Contents(d, hs)[i]|
    && var f := Contents(d, hs)[i][j];
      f == SS * (f / SS) && IsLive(d, SS, f / SS) && f / SS !in hs
  }

  /** Freeing a file outside a chain leaves the chain alone. */
  lemma ReleaseOutside(d: Disk, hs: seq<nat>, t: nat)
    requires IsChain(d, hs) && IsLive(d, SS, t) && t !in hs
    ensures IsChain(Release(d, SS, t), hs)
    ensures Contents(Release(d, SS, t), hs) == Contents(d, hs)
  {
    ReleaseKeepsLayout(d, SS, t);
    forall i | 0 <= i < |hs| && NodeAt(d, hs, i)
      ensures !InBlock(d, SS, t, hs[i]) && !InBlock(d, SS, t, hs[i] + 1)
    {
      NodeBlock(d, hs[i]);
      DecompositionIsUnique(d, SS, hs[i]);
      DecompositionIsUnique(d, SS, hs[i] + 1);
    }
    ChainFrame(d, Release(d, SS, t), hs);
  }

  /** The device after the file is freed and its entry taken out. */
  ghost function Freed(d: Disk, hs: seq<nat>, i: nat, j: nat): (e: Disk)
    requires IsChain(d, hs) && Removable(d, hs, i, j)
    ensures IsChain(e, hs) && |e| == |d|
    ensures Contents(e, hs) == Contents(d, hs)[i := SwappedOut(Contents(d, hs)[i], j)]
  {
    var t := Contents(d, hs)[i][j] / SS;
    ReleaseOutside(d, hs, t);
    TakenOutKeepsChain(Release(d, SS, t), hs, i, j);
    TakenOut(Release(d, SS, t), hs[i], j)
  }

  /** The device after node i of a chain is unlinked and freed. */
  ghost function Unlinked(d: Disk, hs: seq<nat>, i: nat): (e: Disk)
    requires IsChain(d, hs) && 0 < i < |hs|
    ensures |e| == |d|
  {
    BypassedSkips(d, hs, i);
    Release(Bypassed(d, hs[i]), SS, hs[i])
  }

  /** The device and the chain after entry j of node i is removed and its file deleted. */
  ghost function RemoveEntry(d: Disk, hs: seq<nat>, i: nat, j: nat): (r: (Disk, seq<nat>))
    requires IsChain(d, hs) && Removable(d, hs, i, j)
  {
    var x := Freed(d, hs, i, j);
    if Unlinks(Contents(d, hs), i) then (Unlinked(x, hs, i), Without(hs, i)) else (x, hs)
  }

  lemma UnlinkedExtent(x: Disk, hs: seq<nat>, i: nat)
    requires IsChain(x, hs) && 0 < i < |hs|
    ensures var e, gs := Unlinked(x, hs, i), Without(hs, i);
      IsChain(e, gs) && Contents(e, gs) == Contents(x, hs)[..i] + Contents(x, hs)[i + 1..]
  {
    BypassedSkips(x, hs, i);
    var y := Bypassed(x, hs[i]);
    SkippedChain(x, y, hs, i);
    ReleaseOutside(y, Without(hs, i), hs[i]);
  }

  /** The chain stays well formed, and its contents lose exactly the entry. */
  lemma RemoveEntryRemoves(d: Disk, hs: seq<nat>, i: nat, j: nat)
    requires IsChain(d, hs) && Removable(d, hs, i, j)
    ensures var (e, gs) := RemoveEntry(d, hs, i, j);
      IsChain(e, gs) && gs[0] == hs[0] && Contents(e, gs) == Removed(Contents(d, hs), i, j)
  {
    hide Freed, Unlinked, IsChain, Contents;
    var dir, x := Contents(d, hs), Freed(d, hs, i, j);
    if Unlinks(dir, i) {
      UnlinkedExtent(x, hs, i);
      assert Contents(x, hs)[..i] == dir[..i] && Contents(x, hs)[i + 1..] == dir[i + 1..];
    }
  }

  /**
   * Removing frees the file and, when it empties one, the extent; no other file disappears,
   * and no sector of a file outside the directory changes.
   */
  lemma RemoveEntryFrame(d: Disk, hs: seq<nat>, i: nat, j: nat)
    requires IsChain(d, hs) && Removable(d, hs, i, j)
    ensures var (e, gs), f := RemoveEntry(d, hs, i, j), Contents(d, hs)[i][j];
      && Shaped(e, SS) && |e| == |d|
      && (forall t :: IsLive(e, SS, t) <==> IsLive(d, SS, t) && t != f / SS && (t in hs ==> t in gs))
  {
    var dir, x := Contents(d, hs), Freed(d, hs, i, j);
    var t := dir[i][j] / SS;
    ReleaseOutside(d, hs, t);
    ReleaseKeepsLayout(d, SS, t);
    assert NodeAt(Release(d, SS, t), hs, i);
    TakenOutKeepsLayout(Release(d, SS, t), hs[i], j);
    if Unlinks(dir, i) {
      BypassedSkips(x, hs, i);
      ReleaseKeepsLayout(Bypassed(x, hs[i]), SS, hs[i]);
      WithoutIsDistinct(hs, i);
      assert forall s :: s in hs && s != hs[i] ==> s in Without(hs, i);
    }
  }

  /** A sector of a file outside a chain is none of the two sectors of a node of it. */
  lemma NoNodeSector(d: Disk, hs: seq<nat>, i: nat, t: nat, k: nat)
    requires IsChain(d, hs) && i < |hs| && InBlock(d, SS, t, k) && t !in hs
    ensures 0 < k < |d| && k != hs[i] && k != hs[i] + 1 && !InBlock(d, SS, hs[i], k)
  {
    assert NodeAt(d, hs, i);
    NodeBlock(d, hs[i]);
    DecompositionIsUnique(d, SS, k);
  }

  lemma FreedKeepsFiles(d: Disk, hs: seq<nat>, i: nat, j: nat, t: nat, k: nat)
    requires IsChain(d, hs) && Removable(d, hs, i, j)
    requires InBlock(d, SS, t, k) && t !in hs && t != Contents(d, hs)[i][j] / SS
    ensures k < |d| && Freed(d, hs, i, j)[k] == d[k]
  {
    var f := Contents(d, hs)[i][j] / SS;
    NoNodeSector(d, hs, i, t, k);
    DecompositionIsUnique(d, SS, k);
    ReleaseKeepsLayout(d, SS, f);
    ReleaseOutside(d, hs, f);
    assert NodeAt(Release(d, SS, f), hs, i);
    TakenOutKeepsLayout(Release(d, SS, f), hs[i], j);
  }

  lemma UnlinkedKeepsFiles(x: Disk, hs: seq<nat>, i: nat, t: nat, k: nat)
    requires IsChain(x, hs) && 0 < i < |hs| && InBlock(x, SS, t, k) && t !in hs
    ensures k < |x| && Unlinked(x, hs, i)[k] == x[k]
  {
    hide Bypassed, Unlinked, Release, IsChain, InBlock, Skips;
    UnlinkedIs(x, hs, i);
    BypassedKeeps(x, hs, i, t, k);
    ReleaseKeepsLayout(Bypassed(x, hs[i]), SS, hs[i]);
  }

  lemma UnlinkedIs(x: Disk, hs: seq<nat>, i: nat)
    requires IsChain(x, hs) && 0 < i < |hs|
    ensures Formed(x) && NodeAt(x, hs, i)
    ensures Field(x, hs[i], OFFSET_PARENT) / SS < |x| && Field(x, hs[i], OFFSET_NEXT) / SS < |x|
    ensures var y := Bypassed(x, hs[i]);
      Formed(y) && IsLive(y, SS, hs[i]) && Unlinked(x, hs, i) == Release(y, SS, hs[i])
  {
    BypassedSkips(x, hs, i);
  }

  /** Bypassing an extent touches no other file, and leaves such a sector out of its block. */
  lemma BypassedKeeps(x: Disk, hs: seq<nat>, i: nat, t: nat, k: nat)
    requires IsChain(x, hs) && 0 < i < |hs| && InBlock(x, SS, t, k) && t !in hs
    requires NodeAt(x, hs, i)
    requires Field(x, hs[i], OFFSET_PARENT) / SS < |x| && Field(x, hs[i], OFFSET_NEXT) / SS < |x|
    ensures var y := Bypassed(x, hs[i]);
      k < |x| && Formed(y) && y[k] == x[k] && !InBlock(y, SS, hs[i], k)
  {
    hide Bypassed, IsNode, Entries, InBlock;
    BypassedSkips(x, hs, i);
    NoNodeSector(x, hs, i - 1, t, k);
    NoNodeSector(x, hs, i, t, k);
    if i + 1 < |hs| {
      NoNodeSector(x, hs, i + 1, t, k);
    }
    OwnBlock(Bypassed(x, hs[i]), hs[i], k);
  }

  lemma OwnBlock(y: Disk, s: nat, k: nat)
    requires Formed(y) && IsNode(y, s) && k != s && k != s + 1
    ensures !InBlock(y, SS, s, k)
  {
    NodeBlock(y, s);
  }

  /** Removing changes no sector of a file that neither is removed nor belongs to the directory. */
  lemma RemoveEntryKeepsFiles(d: Disk, hs: seq<nat>, i: nat, j: nat, t: nat, k: nat)
    requires IsChain(d, hs) && Removable(d, hs, i, j)
    requires InBlock(d, SS, t, k) && t !in hs && t != Contents(d, hs)[i][j] / SS
    ensures k < |d| == |RemoveEntry(d, hs, i, j).0| && RemoveEntry(d, hs, i, j).0[k] == d[k]
  {
    var x := Freed(d, hs, i, j);
    FreedKeepsFiles(d, hs, i, j, t, k);
    if Unlinks(Contents(d, hs), i) {
      assert InBlock(d, SS, t, t);
      FreedKeepsFiles(d, hs, i, j, t, t);
      BlockFrame(d, x, t, k);
      BypassedSkips(x, hs, i);
      UnlinkedKeepsFiles(x, hs, i, t, k);
    }
  }

  // What removing can leave behind.

  /** An extent whose last entry is removed stays in the chain, empty, exactly when it is a 256th one. */
  lemma EmptiedExtentStaysIff(d: Disk, hs: seq<nat>, i: nat)
    requires IsChain(d, hs) && Removable(d, hs, i, 0) && |Contents(d, hs)[i]| == 1
    ensures var (e, gs) := RemoveEntry(d, hs, i, 0);
      && IsChain(e, gs)
      && (gs == hs <==> i % 0x100 == 0)
      && (gs == hs ==> Contents(e, gs)[i] == [])
  {
    hide IsChain, Contents, Removable, RemoveEntry;
    RemovedChain(d, hs, i, 0);
    RemoveEntryRemoves(d, hs, i, 0);
    ContentsLength(RemoveEntry(d, hs, i, 0).0, RemoveEntry(d, hs, i, 0).1);
    EmptiedStaysIff(Contents(d, hs), i);
  }

  lemma RemovedChain(d: Disk, hs: seq<nat>, i: nat, j: nat)
    requires IsChain(d, hs) && Removable(d, hs, i, j)
    ensures RemoveEntry(d, hs, i, j).1 == if Unlinks(Contents(d, hs), i) then Without(hs, i) else hs
    ensures i < |Contents(d, hs)| == |hs|
  {
  }

  /**
   * On every directory of two full extents and a third with one entry, removing that entry makes
   * the next addition break the chain.
   */
  lemma RemovalThenAdditionBreaks(d: Disk, hs: seq<nat>, f: Word)
    requires IsChain(d, hs) && |hs| == 3 && Removable(d, hs, 2, 0)
    requires var dir := Contents(d, hs);
      |dir| == 3 && |dir[0]| == |dir[1]| == CAPACITY && |dir[2]| == 1
    ensures var (e, gs) := RemoveEntry(d, hs, 2, 0);
      && IsChain(e, gs)
      && (CanAdd(e, gs) ==> !IsChain(AddEntry(e, gs, f).0, AddEntry(e, gs, f).1))
  {
    hide IsChain, Contents, Removable, RemoveEntry, CanAdd, AddEntry;
    var (e, gs) := RemoveEntry(d, hs, 2, 0);
    RemoveEntryRemoves(d, hs, 2, 0);
    var dir := Contents(d, hs);
    RemovalCanLeaveOverflow(dir[0], dir[1], dir[2][0]);
    assert dir[2] == [dir[2][0]];
    assert dir == [dir[0], dir[1], [dir[2][0]]];
    if CanAdd(e, gs) {
      AddEntryKeepsChainIff(e, gs, f);
    }
  }
}
