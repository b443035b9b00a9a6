/**
 * Directories on the device: a chain of 30-byte files, linked in both directions through
 * their headers, each holding handles in its one data sector. Sectors have 32 bytes.
 */
module Chains {
  import opened Words
  import opened Counting
  import opened FirstFit
  import opened Sectors
  import opened Blocks
  import opened Files
  import opened Extents

  const SS := 32
  const DIRECTORY_SIZE: Word := 30

  const NAME_EXTENT: seq<Byte> :=
    ['E' as int, 'X' as int, 'T' as int, 'E' as int, 'N' as int, 'T' as int]
  const ATTRIBUTES_DIRECTORY: seq<Byte> := [' ' as int, 'r' as int, 'w' as int, 'd' as int]
  const ATTRIBUTES_EXTENT: seq<Byte> := [' ' as int, 'r' as int, 'w' as int, 'E' as int]

  /** A well-formed device with 32-byte sectors, all of whose handles fit a word. */
  ghost predicate Formed(d: Disk) {
    Layout(d, SS) && SS * |d| <= WORD_SPACE
  }

  ghost function Field(d: Disk, s: nat, offset: nat): Word
    requires Shaped(d, SS) && s < |d| && offset + 4 <= SS
  {
    WordAt(d[s], offset)
  }

  /** A live file of directory size that counts no more entries than it holds. */
  ghost predicate IsNode(d: Disk, s: nat)
    requires Shaped(d, SS)
  {
    && IsLive(d, SS, s) && s + 1 < |d|
    && SizeOf(d, SS, s) == DIRECTORY_SIZE
    && Field(d, s, OFFSET_REF_COUNT) <= CAPACITY
  }

  ghost function Entry(d: Disk, s: nat, j: nat): Word
    requires Shaped(d, SS) && s + 1 < |d| && j < CAPACITY
  {
    WordAt(d[s + 1], 1 + 4 * j)
  }

  /** The handles that a node holds. */
  ghost function Entries(d: Disk, s: nat): (x: Extent)
    requires Shaped(d, SS) && IsNode(d, s)
    ensures |x| == Field(d, s, OFFSET_REF_COUNT)
    ensures forall j :: 0 <= j < |x| ==> x[j] == Entry(d, s, j)
  {
    seq(Field(d, s, OFFSET_REF_COUNT), j requires 0 <= j < CAPACITY => Entry(d, s, j))
  }

  /** Node i of the list hs is well formed and linked to its neighbours. */
  ghost predicate NodeAt(d: Disk, hs: seq<nat>, i: int)
    requires Shaped(d, SS)
  {
    && 0 <= i < |hs| && IsNode(d, hs[i])
    && Field(d, hs[i], OFFSET_NEXT) == (if i + 1 < |hs| then SS * hs[i + 1] else 0)
    && (i > 0 ==> Field(d, hs[i], OFFSET_PARENT) == SS * hs[i - 1])
  }

  /** The sectors hs are the headers of a directory and its extents, linked both ways. */
  ghost predicate IsChain(d: Disk, hs: seq<nat>) {
    Formed(d) && |hs| > 0 && Distinct(hs) && forall i :: 0 <= i < |hs| ==> NodeAt(d, hs, i)
  }

  ghost function Contents(d: Disk, hs: seq<nat>): (dir: seq<Extent>)
    requires IsChain(d, hs)
    ensures |dir| == |hs|
    ensures forall i :: 0 <= i < |hs| ==> NodeAt(d, hs, i) && dir[i] == Entries(d, hs[i])
  {
    assert forall i :: 0 <= i < |hs| ==> NodeAt(d, hs, i);
    seq(|hs|, i requires 0 <= i < |hs| && NodeAt(d, hs, i) => Entries(d, hs[i]))
  }

  lemma ContentsLength(d: Disk, hs: seq<nat>)
    requires IsChain(d, hs)
    ensures Layout(d, SS) && |Contents(d, hs)| == |hs| > 0
  {
  }

  /** The links alone determine the chain that starts at a directory. */
  lemma {:induction false} ChainIsUnique(d: Disk, hs: seq<nat>, gs: seq<nat>, n: nat)
    requires IsChain(d, hs) && IsChain(d, gs) && hs[0] == gs[0]
    ensures n < |hs| ==> n < |gs| && hs[n] == gs[n]
    ensures n < |gs| ==> n < |hs| && hs[n] == gs[n]
  {
    if n > 0 {
      ChainIsUnique(d, hs, gs, n - 1);
      if n - 1 < |hs| {
        assert NodeAt(d, hs, n - 1) && NodeAt(d, gs, n - 1);
        assert n < |hs| ==> NodeAt(d, hs, n);
        assert n < |gs| ==> NodeAt(d, gs, n);
      }
    }
  }

  /** A chain has no more nodes than the device has sectors: every walk along it ends. */
  lemma ChainLength(d: Disk, hs: seq<nat>)
    requires IsChain(d, hs)
    ensures |hs| <= |d|
    ensures |Flat(Contents(d, hs))| <= CAPACITY * |d| < WORD_SPACE
  {
    forall i | 0 <= i < |hs|
      ensures hs[i] < |d|
    {
      assert NodeAt(d, hs, i);
    }
    DistinctBelow(|d|, hs);
    FlatSize(Contents(d, hs));
  }

  /** Both sectors of a node lie in its own block, and in no other node. */
  lemma NodeBlock(d: Disk, s: nat)
    requires Formed(d) && IsNode(d, s)
    ensures BlockEnd(d, SS, s) == s + 2 && InBlock(d, SS, s, s) && InBlock(d, SS, s, s + 1)
    ensures d[s + 1][0] == SECTOR_USED && !IsLive(d, SS, s + 1)
    ensures forall t :: IsLive(d, SS, t) && t != s ==> t != s + 1 && t + 1 != s
  {
    assert DataSectors(DIRECTORY_SIZE, SS) == 1;
    assert InBlock(d, SS, s, s + 1);
    forall t | IsLive(d, SS, t) && t != s
      ensures t + 1 != s
    {
      assert InBlock(d, SS, t, t + 1);
    }
  }

  /** A node depends on its two sectors only. */
  lemma NodeFrame(d: Disk, e: Disk, s: nat)
    requires Shaped(d, SS) && Shaped(e, SS) && |e| == |d| && IsNode(d, s)
    requires e[s] == d[s] && e[s + 1] == d[s + 1]
    ensures IsNode(e, s) && Entries(e, s) == Entries(d, s)
  {
  }

  // Storing an entry in a node.

  /**
   * The disk after a handle is stored as the last entry of a node. The body that is written
   * back has 29 bytes, so of an eighth entry only the first byte arrives.
   */
  ghost function Store(d: Disk, s: nat, f: Word): (e: Disk)
    requires Shaped(d, SS) && IsNode(d, s)
    ensures |e| == |d|
  {
    var r := Field(d, s, OFFSET_REF_COUNT);
    var kept := if r < CAPACITY then 4 else 1;
    d[s := PatchWord(d[s], OFFSET_REF_COUNT, r + 1)]
     [s + 1 := Patch(d[s + 1], 1 + 4 * r, ToBytes(f)[..kept])]
  }

  lemma StoreKeepsLayout(d: Disk, s: nat, f: Word)
    requires Formed(d) && IsNode(d, s)
    ensures var e := Store(d, s, f);
      && Formed(e)
      && (forall t :: IsLive(e, SS, t) <==> IsLive(d, SS, t))
      && (forall k :: 0 <= k < |d| && k != s && k != s + 1 ==> e[k] == d[k])
      && Field(e, s, OFFSET_REF_COUNT) == Field(d, s, OFFSET_REF_COUNT) + 1
      && Field(e, s, OFFSET_NEXT) == Field(d, s, OFFSET_NEXT)
      && Field(e, s, OFFSET_PARENT) == Field(d, s, OFFSET_PARENT)
      && SizeOf(e, SS, s) == SizeOf(d, SS, s)
  {
    var e := Store(d, s, f);
    NodeBlock(d, s);
    WordFrame(d[s], e[s], OFFSET_SIZE);
    WordFrame(d[s], e[s], OFFSET_NEXT);
    WordFrame(d[s], e[s], OFFSET_PARENT);
    LayoutFrame(d, e, SS);
  }

  lemma StoreAppends(d: Disk, s: nat, f: Word)
    requires Formed(d) && IsNode(d, s) && Field(d, s, OFFSET_REF_COUNT) < CAPACITY
    ensures var e := Store(d, s, f);
      Shaped(e, SS) && IsNode(e, s) && Entries(e, s) == Entries(d, s) + [f]
  {
    var e, r := Store(d, s, f), Field(d, s, OFFSET_REF_COUNT);
    StoreKeepsLayout(d, s, f);
    assert ToBytes(f)[..4] == ToBytes(f);
    forall j | 0 <= j < r
      ensures Entry(e, s, j) == Entry(d, s, j)
    {
      WordFrame(d[s + 1], e[s + 1], 1 + 4 * j);
    }
    assert Entry(e, s, r) == f by {
      var x, o := e[s + 1], 1 + 4 * r;
      assert [x[o], x[o + 1], x[o + 2], x[o + 3]] == ToBytes(f);
      WordRoundTrip(f);
    }
  }

  /** Rewriting the two sectors of one node, but not its links, changes that node alone. */
  lemma NodeUpdateKeepsChain(d: Disk, e: Disk, hs: seq<nat>, i: nat)
    requires IsChain(d, hs) && Formed(e) && |e| == |d|
    requires NodeAt(d, hs, i) && IsNode(e, hs[i])
    requires Field(e, hs[i], OFFSET_NEXT) == Field(d, hs[i], OFFSET_NEXT)
    requires Field(e, hs[i], OFFSET_PARENT) == Field(d, hs[i], OFFSET_PARENT)
    requires forall k :: 0 <= k < |d| && k != hs[i] && k != hs[i] + 1 ==> e[k] == d[k]
    ensures IsChain(e, hs)
    ensures Contents(e, hs) == Contents(d, hs)[i := Entries(e, hs[i])]
  {
    forall k | 0 <= k < |hs|
      ensures NodeAt(d, hs, k) && NodeAt(e, hs, k)
      ensures k != i ==> Entries(e, hs[k]) == Entries(d, hs[k])
    {
      assert NodeAt(d, hs, k);
      if k != i {
        NodeBlock(d, hs[i]);
        NodeFrame(d, e, hs[k]);
      }
    }
  }

  /** Storing in node i of a chain appends to the contents of that node alone. */
  lemma StoreKeepsChain(d: Disk, hs: seq<nat>, i: nat, f: Word)
    requires IsChain(d, hs) && i < |hs| && |Contents(d, hs)[i]| < CAPACITY
    ensures var e := Store(d, hs[i], f);
      && IsChain(e, hs)
      && Contents(e, hs) == Contents(d, hs)[i := Contents(d, hs)[i] + [f]]
  {
    assert NodeAt(d, hs, i);
    StoreKeepsLayout(d, hs[i], f);
    StoreAppends(d, hs[i], f);
    NodeUpdateKeepsChain(d, Store(d, hs[i], f), hs, i);
  }

  // Adding an extent to the end of a chain.

  /** The header of a new extent, over that of the file it starts as. */
  ghost function ExtentHeader(x: Sector, parent: Word, next: Word): (y: Sector)
    requires |x| == SS
    ensures |y| == SS && y[0] == x[0]
    ensures WordAt(y, OFFSET_SIZE) == WordAt(x, OFFSET_SIZE)
    ensures WordAt(y, OFFSET_REF_COUNT) == 0
    ensures WordAt(y, OFFSET_NEXT) == next && WordAt(y, OFFSET_PARENT) == parent
  {
    var counted := PatchWord(x, OFFSET_REF_COUNT, 0);
    var attributed := Patch(counted, OFFSET_ATTRIBUTES, ATTRIBUTES_EXTENT);
    var linked := PatchWord(attributed, OFFSET_NEXT, next);
    var y := PatchWord(linked, OFFSET_PARENT, parent);
    WordFrame(y, x, OFFSET_SIZE);
    WordFrame(y, counted, OFFSET_REF_COUNT);
    WordFrame(y, linked, OFFSET_NEXT);
    y
  }

  /** An extent has its own last attribute, and links in the eight bytes at the end. */
  lemma ExtentHeaderBytes(x: Sector, parent: Word, next: Word, i: nat)
    requires |x| == SS && i < SS
    ensures var y := ExtentHeader(x, parent, next);
      && WordAt(y, 24) == parent && WordAt(y, 28) == next
      && (i < 24 ==> y[i] == if i == 15 then ' ' as int
                             else if i == 16 then 'r' as int
                             else if i == 17 then 'w' as int
                             else if i == 18 then 'E' as int
                             else if 19 <= i < 23 then 0
                             else x[i])
  {
    ZeroBytes(PatchWord(x, OFFSET_REF_COUNT, 0), OFFSET_REF_COUNT);
  }

  /**
   * The disk after an extent is created at sector i, before anything points to it. Sector 0
   * stands for an allocation that failed, which is not checked for.
   */
  ghost function ExtentAt(d: Disk, i: nat, parent: Word, next: Word): (e: Disk)
    requires Shaped(d, SS) && i < |d|
    ensures |e| == |d| && Shaped(e, SS)
  {
    var c := if i == 0 then d else CreateAt(d, SS, i, NAME_EXTENT, DIRECTORY_SIZE);
    c[i := ExtentHeader(c[i], parent, next)]
  }

  /** The disk after an extent at sector i is created and linked behind the last node. */
  ghost function Linked(d: Disk, last: nat, i: nat): (e: Disk)
    requires Shaped(d, SS) && SS * |d| <= WORD_SPACE && i < |d| && last < |d|
    ensures |e| == |d|
  {
    hide ExtentAt;
    var x := ExtentAt(d, i, SS * last, 0);
    x[last := PatchWord(x[last], OFFSET_NEXT, SS * i)]
  }

  ghost predicate HasPlace(d: Disk, i: nat)
    requires Shaped(d, SS)
  {
    i < |d| && Fits(Marks(d), i, DataSectors(DIRECTORY_SIZE, SS))
  }

  /** A new extent is an empty node, made of sectors that no block held. */
  lemma ExtentIsNode(d: Disk, i: nat, parent: Word, next: Word)
    requires Formed(d) && HasPlace(d, i)
    ensures var e := ExtentAt(d, i, parent, next);
      && Formed(e) && i > 0 && IsNode(e, i) && Entries(e, i) == []
      && (forall t :: IsLive(e, SS, t) <==> IsLive(d, SS, t) || t == i)
      && (forall k :: 0 <= k < |d| && k != i && k != i + 1 ==> e[k] == d[k])
      && (forall t, k :: InBlock(d, SS, t, k) ==> k < |d| && e[k] == d[k])
      && Field(e, i, OFFSET_NEXT) == next && Field(e, i, OFFSET_PARENT) == parent
  {
    hide CreateAt, ExtentHeader, DataSectors;
    var c, e := CreateAt(d, SS, i, NAME_EXTENT, DIRECTORY_SIZE), ExtentAt(d, i, parent, next);
    CreateKeepsLayout(d, SS, i, NAME_EXTENT, DIRECTORY_SIZE);
    LayoutFrame(c, e, SS);
    OneDataSector();
    forall t, k | InBlock(d, SS, t, k)
      ensures k < |d| && e[k] == d[k]
    {
      assert c[i][0] == SECTOR_HEADER;
    }
  }

  lemma OneDataSector()
    ensures DataSectors(DIRECTORY_SIZE, SS) == 1
  {
  }

  /** Changing a link of a header changes no node but for that link. */
  lemma RelinkKeepsNodes(d: Disk, t: nat, offset: nat, v: Word)
    requires Formed(d) && (t == 0 || IsLive(d, SS, t)) && offset in {OFFSET_NEXT, OFFSET_PARENT}
    ensures var e := d[t := PatchWord(d[t], offset, v)];
      && Formed(e)
      && (forall s :: IsLive(e, SS, s) <==> IsLive(d, SS, s))
      && (forall s :: IsNode(d, s) ==> IsNode(e, s) && Entries(e, s) == Entries(d, s))
      && Field(e, t, offset) == v
      && Field(e, t, OFFSET_NEXT + OFFSET_PARENT - offset) == Field(d, t, OFFSET_NEXT + OFFSET_PARENT - offset)
  {
    var e := d[t := PatchWord(d[t], offset, v)];
    WordFrame(d[t], e[t], OFFSET_SIZE);
    WordFrame(d[t], e[t], OFFSET_REF_COUNT);
    WordFrame(d[t], e[t], OFFSET_NEXT + OFFSET_PARENT - offset);
    LayoutFrame(d, e, SS);
    forall s: nat | IsNode(d, s)
      ensures IsNode(e, s) && Entries(e, s) == Entries(d, s)
    {
      NodeBlock(d, s);
    }
  }

  /** A chain depends on the sectors of its nodes only. */
  lemma ChainFrame(d: Disk, e: Disk, hs: seq<nat>)
    requires IsChain(d, hs) && Formed(e) && |e| == |d|
    requires forall i :: 0 <= i < |hs| && NodeAt(d, hs, i) ==>
               e[hs[i]] == d[hs[i]] && e[hs[i] + 1] == d[hs[i] + 1]
    ensures IsChain(e, hs) && Contents(e, hs) == Contents(d, hs)
  {
    forall i | 0 <= i < |hs|
      ensures NodeAt(e, hs, i) && Entries(e, hs[i]) == Entries(d, hs[i])
    {
      assert NodeAt(d, hs, i);
      NodeFrame(d, e, hs[i]);
    }
  }

  /** Pointing the last node of a chain to a node that points back makes it the last one. */
  lemma AttachKeepsChain(d: Disk, hs: seq<nat>, i: nat)
    requires IsChain(d, hs) && IsNode(d, i) && i !in hs
    requires Field(d, i, OFFSET_NEXT) == 0 && Field(d, i, OFFSET_PARENT) == SS * hs[|hs| - 1]
    ensures var last := hs[|hs| - 1];
      NodeAt(d, hs, |hs| - 1) &&
      var e := d[last := PatchWord(d[last], OFFSET_NEXT, SS * i)];
      IsChain(e, hs + [i]) && Contents(e, hs + [i]) == Contents(d, hs) + [Entries(d, i)]
  {
    var n, gs := |hs| - 1, hs + [i];
    assert NodeAt(d, hs, n);
    var e := d[hs[n] := PatchWord(d[hs[n]], OFFSET_NEXT, SS * i)];
    RelinkKeepsNodes(d, hs[n], OFFSET_NEXT, SS * i);
    forall k | 0 <= k < |gs|
      ensures NodeAt(e, gs, k) && Entries(e, gs[k]) == Entries(d, gs[k])
    {
      assert k < |hs| ==> NodeAt(d, hs, k);
    }
  }

  lemma LastNode(d: Disk, hs: seq<nat>)
    requires IsChain(d, hs)
    ensures Formed(d) && |hs| > 0 && NodeAt(d, hs, |hs| - 1) && hs[|hs| - 1] < |d|
    ensures IsLive(d, SS, hs[|hs| - 1])
  {
    assert NodeAt(d, hs, |hs| - 1);
  }

  lemma LinkedIs(d: Disk, last: nat, i: nat)
    requires Formed(d) && i < |d| && last < |d|
    ensures var x := ExtentAt(d, i, SS * last, 0);
      Linked(d, last, i) == x[last := PatchWord(x[last], OFFSET_NEXT, SS * i)]
  {
  }

  /** The sectors of a node are not where a new extent goes. */
  lemma NodeIsTaken(d: Disk, hs: seq<nat>, k: nat, i: nat)
    requires IsChain(d, hs) && HasPlace(d, i) && NodeAt(d, hs, k)
    ensures hs[k] != i && InBlock(d, SS, hs[k], hs[k]) && InBlock(d, SS, hs[k], hs[k] + 1)
  {
    assert Marks(d)[i] == SECTOR_FREE;
    NodeBlock(d, hs[k]);
  }

  lemma NoneOfNodes(d: Disk, hs: seq<nat>, i: nat)
    requires IsChain(d, hs) && forall k :: 0 <= k < |hs| && NodeAt(d, hs, k) ==> hs[k] != i
    ensures i !in hs
  {
    forall k | 0 <= k < |hs|
      ensures hs[k] != i
    {
      assert NodeAt(d, hs, k);
    }
  }

  /** Linking a new extent behind a chain adds an empty extent to the contents. */
  lemma LinkedKeepsChain(d: Disk, hs: seq<nat>, i: nat)
    requires IsChain(d, hs) && HasPlace(d, i)
    ensures NodeAt(d, hs, |hs| - 1)
    ensures var e := Linked(d, hs[|hs| - 1], i);
      && IsChain(e, hs + [i])
      && Contents(e, hs + [i]) == Contents(d, hs) + [[]]
      && (forall t :: IsLive(e, SS, t) <==> IsLive(d, SS, t) || t == i)
      && (forall k :: 0 <= k < |d| && k != i && k != i + 1 && k != hs[|hs| - 1] ==> e[k] == d[k])
  {
    hide IsChain, Contents, ExtentAt, Linked, Entries, InBlock, SizeOf, Field;
    var n := |hs| - 1;
    LastNode(d, hs);
    var last := hs[n];
    var x := ExtentAt(d, i, SS * last, 0);
    LinkedIs(d, last, i);
    ExtentIsNode(d, i, SS * last, 0);
    forall k | 0 <= k < |hs| && NodeAt(d, hs, k)
      ensures hs[k] != i && x[hs[k]] == d[hs[k]] && x[hs[k] + 1] == d[hs[k] + 1]
    {
      NodeIsTaken(d, hs, k, i);
    }
    ChainFrame(d, x, hs);
    LastNode(x, hs);
    NoneOfNodes(d, hs, i);
    AttachKeepsChain(x, hs, i);
    RelinkKeepsNodes(x, last, OFFSET_NEXT, SS * i);
  }
}
