/**
 * A device as the file system sees it: sectors of equal size, each led by a marker byte.
 */
module Sectors {
  import opened Words

  type Sector = seq<Byte>
  type Disk = seq<Sector>

  // Header fields of a file or directory, by their offset in its first sector.
  const OFFSET_NAME := 1
  const OFFSET_SIZE := 11
  const OFFSET_ATTRIBUTES := 15
  const OFFSET_REF_COUNT := 19
  const OFFSET_FLAG := 23
  const OFFSET_PARENT := 24
  const OFFSET_NEXT := 28

  const NAME_LENGTH := 10

  /** The byte at which sector s starts, counted from the first sector: its handle. */
  ghost function Start(ss: nat, s: nat): (h: nat) {
    if s == 0 then 0 else Start(ss, s - 1) + ss
  }

  lemma {:induction false} StartIsProduct(ss: nat, s: nat)
    ensures Start(ss, s) == s * ss
  {
    if s > 0 {
      StartIsProduct(ss, s - 1);
      assert s * ss == (s - 1) * ss + ss;
    }
  }

  /** A sector ends before any later one starts. */
  lemma {:induction false} StartsApart(ss: nat, s: nat, k: nat)
    requires s < k
    ensures Start(ss, s) + ss <= Start(ss, k)
  {
    if s < k - 1 {
      StartsApart(ss, s, k - 1);
    }
  }

  lemma {:induction false} StartOfSum(ss: nat, s: nat, k: nat)
    ensures Start(ss, s + k) == Start(ss, s) + Start(ss, k)
  {
    if k > 0 {
      StartOfSum(ss, s, k - 1);
    }
  }

  /** Header fields reach up to byte 31, so a sector holds at least 32 bytes. */
  ghost predicate Shaped(d: Disk, ss: nat) {
    ss >= 32 && |d| > 0 && forall k :: 0 <= k < |d| ==> |d[k]| == ss
  }

  ghost function Put(d: Disk, s: nat, offset: nat, b: Byte): (e: Disk)
    requires s < |d| && offset < |d[s]|
  {
    var x: Sector := d[s][offset := b];
    d[s := x]
  }

  /** The sector with some bytes replaced from an offset on. */
  function Patch(x: Sector, offset: nat, bytes: seq<Byte>): (y: Sector)
    requires offset + |bytes| <= |x|
    ensures |y| == |x|
    ensures forall i :: 0 <= i < |x| ==>
              y[i] == if offset <= i < offset + |bytes| then bytes[i - offset] else x[i]
  {
    x[..offset] + bytes + x[offset + |bytes|..]
  }

  /** Patching one byte more is the same as patching and then replacing that byte. */
  lemma PatchStep(x: Sector, offset: nat, bytes: seq<Byte>, i: nat)
    requires offset + |bytes| <= |x| && i <= |bytes|
    ensures Patch(x, offset, bytes[..0]) == x
    ensures i < |bytes| ==>
              Patch(x, offset, bytes[..i + 1]) == Patch(x, offset, bytes[..i])[offset + i := bytes[i]]
  {
  }

  function WordAt(x: Sector, offset: nat): Word
    requires offset + 4 <= |x|
  {
    FromBytes([x[offset], x[offset + 1], x[offset + 2], x[offset + 3]])
  }

  function PatchWord(x: Sector, offset: nat, v: Word): (y: Sector)
    requires offset + 4 <= |x|
    ensures |y| == |x|
    ensures WordAt(y, offset) == v
    ensures forall i :: 0 <= i < |x| && !(offset <= i < offset + 4) ==> y[i] == x[i]
  {
    var y := Patch(x, offset, ToBytes(v));
    assert [y[offset], y[offset + 1], y[offset + 2], y[offset + 3]] == ToBytes(v);
    WordRoundTrip(v);
    y
  }

  /** A word keeps its value when none of its four bytes changes. */
  lemma WordFrame(x: Sector, y: Sector, offset: nat)
    requires |x| == |y| && offset + 4 <= |x|
    requires forall i :: offset <= i < offset + 4 ==> x[i] == y[i]
    ensures WordAt(x, offset) == WordAt(y, offset)
  {
  }

  /** The disk with the marker byte of len sectors from sector first on replaced. */
  ghost function MarkRun(d: Disk, first: nat, len: nat, b: Byte): (e: Disk)
    requires forall k :: 0 <= k < |d| ==> |d[k]| > 0
    ensures |e| == |d|
    ensures forall k :: 0 <= k < |d| ==>
              e[k] == if first <= k < first + len then d[k][0 := b] else d[k]
  {
    seq(|d|, k requires 0 <= k < |d| => if first <= k < first + len then d[k][0 := b] else d[k])
  }

  /** Marking one sector more is writing its marker byte. */
  lemma MarkStep(d: Disk, first: nat, i: nat, b: Byte)
    requires forall k :: 0 <= k < |d| ==> |d[k]| > 0
    ensures MarkRun(d, first, 0, b) == d
    ensures first + i < |d| ==>
              MarkRun(d, first, i + 1, b) == Put(MarkRun(d, first, i, b), first + i, 0, b)
  {
  }

  ghost function Marks(d: Disk): (marks: seq<Byte>)
    requires forall k :: 0 <= k < |d| ==> |d[k]| > 0
    ensures |marks| == |d|
    ensures forall k :: 0 <= k < |d| ==> marks[k] == d[k][0]
  {
    seq(|d|, k requires 0 <= k < |d| => d[k][0])
  }
}
