/**
 * Where the bytes of a file lie among the marker bytes of its sectors, and what a write to
 * a file does to the device.
 */
module FileData {
  import opened Words
  import opened Arithmetic
  import opened FirstFit
  import opened Sectors
  import opened Blocks

  /** The data sector, counted from 0, that holds byte i of a file. */
  ghost function SectorOf(i: nat, ss: nat): nat
    requires ss >= 2
  {
    DataSectors(i, ss) - 1
  }

  /** The position of byte i among the data bytes of its sector. */
  ghost function PlaceOf(i: nat, ss: nat): (r: int)
    requires ss >= 2
  {
    i - Start(ss - 1, SectorOf(i, ss))
  }

  lemma {:induction false} PlaceInRange(i: nat, ss: nat)
    requires ss >= 2
    ensures 0 <= PlaceOf(i, ss) < ss - 1
  {
    if i >= ss - 1 {
      PlaceInRange(i - (ss - 1), ss);
      StartOfSum(ss - 1, 1, SectorOf(i - (ss - 1), ss));
    }
  }

  /** Sector and place of a byte are the only ones that add up to its index. */
  lemma {:induction false} PlaceIsUnique(i: nat, ss: nat, q: nat, r: nat)
    requires ss >= 2 && i == Start(ss - 1, q) + r && r < ss - 1
    ensures SectorOf(i, ss) == q && PlaceOf(i, ss) == r
  {
    PlaceInRange(i, ss);
    var p := SectorOf(i, ss);
    if p < q {
      StartsApart(ss - 1, p, q);
    } else if q < p {
      StartsApart(ss - 1, q, p);
    }
  }

  lemma SectorsGrow(i: nat, j: nat, ss: nat)
    requires ss >= 2 && i <= j
    ensures DataSectors(i, ss) <= DataSectors(j, ss)
  {
    PlaceInRange(i, ss);
    PlaceInRange(j, ss);
    if SectorOf(j, ss) < SectorOf(i, ss) {
      StartsApart(ss - 1, SectorOf(j, ss), SectorOf(i, ss));
    }
  }

  /** Sector and place of a byte are the quotient and the remainder by a sector's payload. */
  lemma PlaceIsRemainder(i: nat, ss: nat)
    requires ss >= 2
    ensures SectorOf(i, ss) == i / (ss - 1) && PlaceOf(i, ss) == i % (ss - 1)
  {
    var q := SectorOf(i, ss);
    PlaceInRange(i, ss);
    StartIsProduct(ss - 1, q);
    QuotientIs(i, ss - 1, q, PlaceOf(i, ss));
  }

  lemma {:induction false} StartWithMarkers(ss: nat, q: nat)
    requires ss >= 1
    ensures Start(ss, q) == Start(ss - 1, q) + q
  {
    if q > 0 {
      StartWithMarkers(ss, q - 1);
    }
  }

  /**
   * The distance of byte i from the start of the header, as the transfer loops compute it
   * from a running sector counter, is one full sector, the full sectors before it, the
   * marker, and its place: it is never a marker and no two bytes share it.
   */
  lemma PositionOfByte(i: nat, ss: nat)
    requires ss >= 2
    ensures ss + (i + SectorOf(i, ss)) + 1 == Start(ss, 1 + SectorOf(i, ss)) + 1 + PlaceOf(i, ss)
    ensures 1 <= 1 + PlaceOf(i, ss) < ss
  {
    PlaceInRange(i, ss);
    StartWithMarkers(ss, SectorOf(i, ss));
  }

  /** The same position in closed form. */
  lemma PositionInClosedForm(i: nat, ss: nat)
    requires ss >= 2
    ensures ss + (i + SectorOf(i, ss)) + 1 == ss * (1 + i / (ss - 1)) + 1 + i % (ss - 1)
  {
    PositionOfByte(i, ss);
    PlaceIsRemainder(i, ss);
    StartIsProduct(ss, 1 + SectorOf(i, ss));
  }

  /** Byte i of the file whose header is sector s. */
  ghost function DataByte(d: Disk, ss: nat, s: nat, i: nat): Byte
    requires Shaped(d, ss) && s + DataSectors(i, ss) < |d|
  {
    PlaceInRange(i, ss);
    d[s + DataSectors(i, ss)][1 + PlaceOf(i, ss)]
  }

  ghost predicate HasRoom(d: Disk, ss: nat, s: nat, n: nat)
    requires ss >= 2
  {
    s < |d| && (n > 0 ==> s + DataSectors(n - 1, ss) < |d|)
  }

  /** The disk after the first bytes of the file at sector s are overwritten. */
  ghost function WriteData(d: Disk, ss: nat, s: nat, data: seq<Byte>): (e: Disk)
    requires Shaped(d, ss) && HasRoom(d, ss, s, |data|)
    ensures Shaped(e, ss) && |e| == |d|
  {
    if data == [] then d
    else
      var n := |data| - 1;
      PlaceInRange(n, ss);
      RoomShrinks(d, ss, s, |data|);
      Put(WriteData(d, ss, s, data[..n]), s + DataSectors(n, ss), 1 + PlaceOf(n, ss), data[n])
  }

  lemma RoomShrinks(d: Disk, ss: nat, s: nat, n: nat)
    requires ss >= 2 && n > 0 && HasRoom(d, ss, s, n)
    ensures HasRoom(d, ss, s, n - 1)
    ensures forall i :: 0 <= i < n ==> DataSectors(i, ss) <= DataSectors(n - 1, ss)
  {
    forall i | 0 <= i < n
      ensures DataSectors(i, ss) <= DataSectors(n - 1, ss)
    {
      SectorsGrow(i, n - 1, ss);
    }
  }

  lemma RoomForPrefixes(d: Disk, ss: nat, s: nat, n: nat)
    requires ss >= 2 && HasRoom(d, ss, s, n)
    ensures forall i :: 0 <= i <= n ==> HasRoom(d, ss, s, i)
  {
    forall i | 0 < i <= n
      ensures HasRoom(d, ss, s, i)
    {
      SectorsGrow(i - 1, n - 1, ss);
    }
  }

  /** Writing one byte more is writing and then putting that byte in its place. */
  lemma WriteStep(d: Disk, ss: nat, s: nat, data: seq<Byte>, i: nat)
    requires Shaped(d, ss) && i < |data| && HasRoom(d, ss, s, i) && HasRoom(d, ss, s, i + 1)
    ensures s + DataSectors(i, ss) < |d| && 0 <= PlaceOf(i, ss) < ss - 1
    ensures WriteData(d, ss, s, data[..i + 1])
         == Put(WriteData(d, ss, s, data[..i]), s + DataSectors(i, ss), 1 + PlaceOf(i, ss), data[i])
  {
    PlaceInRange(i, ss);
    assert data[..i + 1][..i] == data[..i];
  }

  /** The first n bytes of the file at sector s. */
  ghost function ReadData(d: Disk, ss: nat, s: nat, n: nat): (data: seq<Byte>)
    requires Shaped(d, ss) && HasRoom(d, ss, s, n)
    ensures |data| == n
    ensures forall i :: 0 <= i < n ==> s + DataSectors(i, ss) < |d| && data[i] == DataByte(d, ss, s, i)
  {
    if n == 0 then []
    else
      RoomShrinks(d, ss, s, n);
      ReadData(d, ss, s, n - 1) + [DataByte(d, ss, s, n - 1)]
  }

  /** A write changes exactly the bytes it covers. */
  lemma {:induction false} WrittenBytes(d: Disk, ss: nat, s: nat, data: seq<Byte>, i: nat)
    requires Shaped(d, ss) && HasRoom(d, ss, s, |data|) && s + DataSectors(i, ss) < |d|
    ensures DataByte(WriteData(d, ss, s, data), ss, s, i)
         == if i < |data| then data[i] else DataByte(d, ss, s, i)
  {
    if data != [] {
      var n := |data| - 1;
      RoomShrinks(d, ss, s, |data|);
      WrittenBytes(d, ss, s, data[..n], i);
      PlaceInRange(i, ss);
      PlaceInRange(n, ss);
    }
  }

  /** What is written is what is read back. */
  lemma ReadBack(d: Disk, ss: nat, s: nat, data: seq<Byte>)
    requires Shaped(d, ss) && HasRoom(d, ss, s, |data|)
    ensures ReadData(WriteData(d, ss, s, data), ss, s, |data|) == data
  {
    var e := WriteData(d, ss, s, data);
    forall i | 0 <= i < |data|
      ensures ReadData(e, ss, s, |data|)[i] == data[i]
    {
      SectorsGrow(i, |data| - 1, ss);
      WrittenBytes(d, ss, s, data, i);
    }
  }

  /** A write changes no marker, no header, and no sector past the last byte written. */
  lemma {:induction false} WriteFrame(d: Disk, ss: nat, s: nat, data: seq<Byte>)
    requires Shaped(d, ss) && HasRoom(d, ss, s, |data|)
    ensures var e := WriteData(d, ss, s, data);
      && (forall k :: 0 <= k < |d| ==> e[k][0] == d[k][0])
      && (forall k :: 0 <= k < |d| && (k <= s || data == [] || k > s + DataSectors(|data| - 1, ss)) ==>
            e[k] == d[k])
  {
    if data != [] {
      var n := |data| - 1;
      RoomShrinks(d, ss, s, |data|);
      WriteFrame(d, ss, s, data[..n]);
      PlaceInRange(n, ss);
      if n > 0 {
        SectorsGrow(n - 1, n, ss);
      }
    }
  }

  /** The transfer guard: size - 1 bytes are moved when that is below the file size plus 2. */
  ghost predicate Accepts(size: Word, fileSize: Word) {
    Wrap(size - 1) < Wrap(fileSize + 2)
  }

  /** What the guard accepts: any size up to the file size plus 2, unless that wraps. */
  lemma AcceptedSizes(size: Word, fileSize: Word)
    ensures Accepts(size, fileSize) <==>
              size > 0 && size - 1 < (if fileSize + 2 < WORD_SPACE then fileSize + 2 else fileSize + 2 - WORD_SPACE)
  {
  }

  /** The first n bytes of the file at sector s lie in its own block. */
  ghost predicate InOwnBlock(d: Disk, ss: nat, s: nat, n: nat)
    requires Shaped(d, ss) && s < |d|
  {
    n > 0 ==> s + DataSectors(n - 1, ss) < BlockEnd(d, ss, s)
  }

  /** A write in the file's own block keeps all other blocks, all markers and all headers. */
  lemma OwnWriteStaysInside(d: Disk, ss: nat, s: nat, data: seq<Byte>)
    requires Layout(d, ss) && IsLive(d, ss, s) && InOwnBlock(d, ss, s, |data|)
    ensures HasRoom(d, ss, s, |data|)
    ensures var e := WriteData(d, ss, s, data);
      && Layout(e, ss)
      && (forall k :: 0 <= k < |d| && !InBlock(d, ss, s, k) ==> e[k] == d[k])
      && (forall t :: IsLive(d, ss, t) ==> e[t] == d[t])
      && (forall t :: IsLive(e, ss, t) <==> IsLive(d, ss, t))
  {
    hide WriteData, DataSectors;
    WriteFrame(d, ss, s, data);
    var e := WriteData(d, ss, s, data);
    forall t | IsLive(d, ss, t)
      ensures e[t] == d[t]
    {
      assert InBlock(d, ss, t, t);
      DecompositionIsUnique(d, ss, t);
      assert t > s ==> !InBlock(d, ss, s, t);
    }
    LayoutFrame(d, e, ss);
  }

  // A transfer is accepted by the size that was recorded when the file was opened.

  /** The write has room and changes no sector outside the block of its file. */
  ghost predicate StaysInside(d: Disk, ss: nat, s: nat, data: seq<Byte>)
    requires Shaped(d, ss)
  {
    && HasRoom(d, ss, s, |data|)
    && forall k :: 0 <= k < |d| && !InBlock(d, ss, s, k) ==> WriteData(d, ss, s, data)[k] == d[k]
  }

  /** The recorded size takes no more sectors than the file has, or admits no byte at all. */
  ghost predicate IsSafe(d: Disk, ss: nat, s: nat, recorded: Word)
    requires Shaped(d, ss) && s < |d|
  {
    recorded + 2 >= WORD_SPACE || DataSectors(recorded, ss) <= DataSectors(SizeOf(d, ss, s), ss)
  }

  lemma SafeIsOwn(d: Disk, ss: nat, s: nat, recorded: Word, size: Word)
    requires Shaped(d, ss) && s < |d| && IsSafe(d, ss, s, recorded) && Accepts(size, recorded)
    ensures size > 0 && InOwnBlock(d, ss, s, size - 1)
  {
    hide DataSectors;
    AcceptedSizes(size, recorded);
    if size > 1 {
      SectorsGrow(size - 2, recorded, ss);
    }
  }

  /** Data of which every byte differs from the given one. */
  lemma OtherBytes(n: nat, b: Byte) returns (data: seq<Byte>)
    ensures |data| == n && forall i :: 0 <= i < n ==> data[i] != b
  {
    var c: Byte := if b == 0 then 1 else 0;
    data := seq(n, _ => c);
  }

  /** A byte that a write can change. */
  lemma WriteCanChange(d: Disk, ss: nat, s: nat, n: nat, i: nat) returns (data: seq<Byte>)
    requires Shaped(d, ss) && i < n && HasRoom(d, ss, s, n)
    ensures |data| == n && s + DataSectors(i, ss) < |d|
    ensures WriteData(d, ss, s, data)[s + DataSectors(i, ss)] != d[s + DataSectors(i, ss)]
  {
    hide WriteData;
    SectorsGrow(i, n - 1, ss);
    data := OtherBytes(n, DataByte(d, ss, s, i));
    WrittenBytes(d, ss, s, data, i);
  }

  /**
   * Every write that a slot with this recorded size accepts stays in the block of its file, if
   * and only if the recorded size takes no more sectors than the size that the header holds.
   */
  lemma SlotStaysInsideIff(d: Disk, ss: nat, s: nat, recorded: Word)
    requires Layout(d, ss) && IsLive(d, ss, s)
    ensures (forall size: Word, data: seq<Byte> :: Accepts(size, recorded) && |data| == size - 1 ==>
               StaysInside(d, ss, s, data))
       <==> IsSafe(d, ss, s, recorded)
  {
    hide Accepts, DataSectors, WriteData;
    if IsSafe(d, ss, s, recorded) {
      forall size: Word, data: seq<Byte> | Accepts(size, recorded) && |data| == size - 1
        ensures StaysInside(d, ss, s, data)
      {
        SafeIsOwn(d, ss, s, recorded, size);
        OwnWriteStaysInside(d, ss, s, data);
      }
    } else {
      var size: Word := recorded + 2;
      AcceptedSizes(size, recorded);
      var n := size - 1;
      if HasRoom(d, ss, s, n) {
        var data := WriteCanChange(d, ss, s, n, recorded);
        assert !InBlock(d, ss, s, s + DataSectors(recorded, ss));
        assert !StaysInside(d, ss, s, data);
      } else {
        var data := OtherBytes(n, 0);
        assert !StaysInside(d, ss, s, data);
      }
    }
  }

  /** The write changes no sector of any other block. */
  ghost predicate SparesOthers(d: Disk, ss: nat, s: nat, data: seq<Byte>)
    requires Shaped(d, ss) && HasRoom(d, ss, s, |data|)
  {
    forall t, k :: InBlock(d, ss, t, k) && t != s && k < |d| ==> WriteData(d, ss, s, data)[k] == d[k]
  }

  /** Sector k is one of those that the first n bytes of the file at sector s take. */
  ghost predicate IsCovered(ss: nat, s: nat, n: nat, k: int)
    requires ss >= 2
  {
    n > 0 && s < k <= s + DataSectors(n - 1, ss)
  }

  lemma SectorHasByte(n: nat, q: nat, ss: nat) returns (i: nat)
    requires ss >= 2 && n > 0 && 1 <= q <= DataSectors(n - 1, ss)
    ensures i < n && DataSectors(i, ss) == q
  {
    i := Start(ss - 1, q - 1);
    PlaceIsUnique(i, ss, q - 1, 0);
    PlaceInRange(n - 1, ss);
    if q - 1 < SectorOf(n - 1, ss) {
      StartsApart(ss - 1, q - 1, SectorOf(n - 1, ss));
    }
  }

  /**
   * A write of n bytes at sector s, whatever stands there now, spares every other block for all
   * data, if and only if each sector that it covers is free or in the block of s itself.
   */
  lemma WriteSparesOthersIff(d: Disk, ss: nat, s: nat, n: nat)
    requires Layout(d, ss) && HasRoom(d, ss, s, n)
    ensures (forall data: seq<Byte> :: |data| == n ==> SparesOthers(d, ss, s, data))
       <==> forall k :: IsCovered(ss, s, n, k) ==> d[k][0] == SECTOR_FREE || InBlock(d, ss, s, k)
  {
    hide DataSectors, WriteData;
    if k :| IsCovered(ss, s, n, k) && d[k][0] != SECTOR_FREE && !InBlock(d, ss, s, k) {
      DecompositionIsUnique(d, ss, k);
      var t :| InBlock(d, ss, t, k);
      var i := SectorHasByte(n, k - s, ss);
      var data := WriteCanChange(d, ss, s, n, i);
      assert !SparesOthers(d, ss, s, data);
    } else {
      forall data: seq<Byte>, t, k | |data| == n && InBlock(d, ss, t, k) && t != s && k < |d|
        ensures WriteData(d, ss, s, data)[k] == d[k]
      {
        DecompositionIsUnique(d, ss, k);
        assert !IsCovered(ss, s, n, k);
        WriteFrame(d, ss, s, data);
      }
    }
  }
}
