/**
 * The search of the allocator over the marker bytes that stand at the sector boundaries
 * of a device: where it finds a run of free sectors, and when what it reports is the
 * lowest run of the partition.
 */
module FirstFit {
  import opened Words
  import opened Arithmetic

  const SECTOR_FREE: Byte := '?' as int
  const SECTOR_HEADER: Byte := 'U' as int
  const SECTOR_USED: Byte := 'D' as int

  datatype Option<+T> = None | Some(value: T)

  /** A block of one header sector and n data sectors fits at sector i. */
  ghost predicate Fits(marks: seq<Byte>, i: nat, n: nat) {
    i + n < |marks| && forall k :: i <= k <= i + n ==> marks[k] == SECTOR_FREE
  }

  /** The lowest sector of from..upto where a block of n data sectors fits. */
  ghost function LeastFit(marks: seq<Byte>, n: nat, from: nat, upto: nat): (r: Option<nat>)
    requires from <= upto
    ensures r.Some? ==> from <= r.value < upto && Fits(marks, r.value, n)
    ensures forall j :: from <= j < (if r.Some? then r.value else upto) ==> !Fits(marks, j, n)
    decreases upto - from
  {
    if from == upto then None
    else if Fits(marks, from, n) then Some(from)
    else LeastFit(marks, n, from + 1, upto)
  }

  /** The bounds of LeastFit determine it. */
  lemma LeastFitIs(marks: seq<Byte>, n: nat, from: nat, upto: nat, i: nat)
    requires from <= i < upto && Fits(marks, i, n)
    requires forall j :: from <= j < i ==> !Fits(marks, j, n)
    ensures LeastFit(marks, n, from, upto) == Some(i)
  {
  }

  /** The handle of the lowest run of the partition's own sectors, or 0 when there is none. */
  ghost function FirstFitHandle(marks: seq<Byte>, n: nat, ss: nat): int {
    match LeastFit(marks, n, 0, |marks|)
    case Some(i) => i * ss
    case None => 0
  }

  /** The address of boundary i, from the start of the partition, as 32 bits hold it. */
  function AddressOf(i: nat, ss: nat): Word {
    Wrap(i * ss)
  }

  /**
   * The address the search loop leaves behind when it looks at one boundary for each BYTE
   * of the partition: that of the lowest run among all of them, and when there is none the
   * value that the last boundary it looked at put there.
   */
  ghost function SearchAddress(marks: seq<Byte>, n: nat, blockSize: nat, ss: nat): Word
    requires blockSize <= |marks|
  {
    match LeastFit(marks, n, 0, blockSize)
    case Some(i) => AddressOf(i, ss)
    case None => if blockSize > 0 && marks[blockSize - 1] == SECTOR_FREE then 1 else 0
  }

  // When the search is right.

  /** Boundaries with the same address hold the same byte. */
  ghost predicate Consistent(marks: seq<Byte>, ss: nat) {
    forall i, k :: 0 <= i < |marks| && 0 <= k < |marks| && AddressOf(i, ss) == AddressOf(k, ss) ==>
      marks[i] == marks[k]
  }

  /** The block fits in the first count sectors. */
  ghost predicate FitsInside(marks: seq<Byte>, n: nat, count: nat) {
    exists i :: 0 <= i && i + n < count && Fits(marks, i, n)
  }

  /**
   * Beyond the partition nothing attracts the search: no free run behind sector 0 reaches its
   * end or starts after it, and the last boundary looked at does not read as free.
   */
  ghost predicate Quiet(marks: seq<Byte>, n: nat, count: nat, blockSize: nat)
    requires 0 < blockSize <= |marks|
  {
    && marks[blockSize - 1] != SECTOR_FREE
    && forall i :: 0 < i < blockSize && count <= i + n ==> !Fits(marks, i, n)
  }

  lemma AddressShift(i: nat, k: nat, ss: nat)
    requires AddressOf(i, ss) == 0
    ensures AddressOf(i + k, ss) == AddressOf(k, ss)
  {
    var q := i * ss / WORD_SPACE;
    assert i * ss == WORD_SPACE * q;
    assert (i + k) * ss == k * ss + i * ss;
    ModShift(k * ss, q, WORD_SPACE);
  }

  /** A run at an address that wraps to zero is a run at sector 0. */
  lemma WrappedFit(marks: seq<Byte>, i: nat, n: nat, ss: nat)
    requires Consistent(marks, ss) && Fits(marks, i, n) && AddressOf(i, ss) == 0
    ensures Fits(marks, 0, n)
  {
    forall k | 0 <= k <= n
      ensures marks[k] == SECTOR_FREE
    {
      AddressShift(i, k, ss);
      assert marks[i + k] == SECTOR_FREE;
    }
  }

  lemma FrontFits(marks: seq<Byte>, n: nat, count: nat, i: nat)
    requires count <= |marks|
    ensures Fits(marks[..count], i, n) <==> Fits(marks, i, n) && i + n < count
  {
  }

  lemma RoomIsFound(marks: seq<Byte>, n: nat, count: nat)
    requires count <= |marks|
    ensures LeastFit(marks[..count], n, 0, count).Some? <==> FitsInside(marks, n, count)
    ensures var r := LeastFit(marks[..count], n, 0, count);
      r.Some? ==> Fits(marks, r.value, n) && forall j: nat :: j < r.value ==> !Fits(marks, j, n)
  {
    hide Fits;
    forall i: nat
      ensures Fits(marks[..count], i, n) <==> Fits(marks, i, n) && i + n < count
    {
      FrontFits(marks, n, count, i);
    }
  }

  /**
   * The search reports the lowest run of the partition, or 0 when it has none, exactly when the
   * partition has room, or a run at the header itself stops the search, or it is quiet beyond.
   */
  lemma SearchIsFirstFitIff(marks: seq<Byte>, n: nat, count: nat, blockSize: nat, ss: nat)
    requires 0 < count <= blockSize && blockSize + n <= |marks| && 0 < ss && count * ss <= WORD_SPACE
    requires Consistent(marks, ss)
    ensures SearchAddress(marks, n, blockSize, ss) == FirstFitHandle(marks[..count], n, ss)
       <==> FitsInside(marks, n, count) || Fits(marks, 0, n) || Quiet(marks, n, count, blockSize)
  {
    hide FitsInside, Fits, Consistent;
    var inner, outer := LeastFit(marks[..count], n, 0, count), LeastFit(marks, n, 0, blockSize);
    RoomIsFound(marks, n, count);
    if inner.Some? {
      LeastFitIs(marks, n, 0, blockSize, inner.value);
      Scaled(inner.value, count, ss);
    } else if outer.Some? {
      if AddressOf(outer.value, ss) == 0 {
        WrappedFit(marks, outer.value, n, ss);
      }
      NoRoomMeansLate(marks, n, count, outer.value);
    }
  }

  lemma NoRoomMeansLate(marks: seq<Byte>, n: nat, count: nat, i: nat)
    requires !FitsInside(marks, n, count) && Fits(marks, i, n)
    ensures count <= i + n
  {
  }

  lemma Scaled(i: nat, count: nat, ss: nat)
    requires i < count
    ensures i * ss <= count * ss
    ensures ss > 0 ==> i * ss < count * ss
  {
  }

  lemma ShortIsConsistent(marks: seq<Byte>)
    requires |marks| * 32 <= WORD_SPACE
    ensures Consistent(marks, 32)
  {
    forall i, k | 0 <= i < |marks| && 0 <= k < |marks| && AddressOf(i, 32) == AddressOf(k, 32)
      ensures i == k
    {
      SmallMod(i * 32, WORD_SPACE);
      SmallMod(k * 32, WORD_SPACE);
    }
  }

  /**
   * Two partitions of 64 bytes, a header and one taken sector of 32 bytes each, on which it is
   * not: a run behind the partition is reported, and the stale address 1.
   */
  lemma SearchCanStray()
    ensures exists marks: seq<Byte> ::
              && |marks| == 65 && Consistent(marks, 32)
              && SearchAddress(marks, 1, 64, 32) == 64 && FirstFitHandle(marks[..2], 1, 32) == 0
    ensures exists marks: seq<Byte> ::
              && |marks| == 65 && Consistent(marks, 32)
              && SearchAddress(marks, 1, 64, 32) == 1 && FirstFitHandle(marks[..2], 1, 32) == 0
  {
    var stray: seq<Byte> := seq<Byte>(65, k => if k == 2 || k == 3 then SECTOR_FREE else SECTOR_USED);
    assert stray[0] == stray[1] == SECTOR_USED && Fits(stray, 2, 1);
    LeastFitIs(stray, 1, 0, 64, 2);
    var stale: seq<Byte> := seq<Byte>(65, k => if k == 63 then SECTOR_FREE else SECTOR_USED);
    forall i: nat
      ensures !Fits(stale, i, 1)
    {
      if i < 65 {
        NoFitAcross(stale, i, 1, if i == 63 then 64 else i);
      }
    }
    ShortIsConsistent(stray);
    ShortIsConsistent(stale);
  }

  /** From boundary k on the same bytes follow as from sector j on, up to the end of the partition. */
  ghost predicate Mirrors(marks: seq<Byte>, k: nat, j: nat, count: nat) {
    j < count && forall s :: j <= s <= count && s < |marks| && k + (s - j) < |marks| ==> marks[k + (s - j)] == marks[s]
  }

  /**
   * Each boundary beyond the partition is not free or sees the partition again, and neither the
   * first nor the last of them is free.
   */
  ghost predicate Shielded(marks: seq<Byte>, count: nat, blockSize: nat) {
    && 0 < count < blockSize <= |marks|
    && marks[count] != SECTOR_FREE && marks[blockSize - 1] != SECTOR_FREE
    && forall k :: count <= k < blockSize ==> marks[k] != SECTOR_FREE || exists j :: Mirrors(marks, k, j, count)
  }

  /** A run that sees the partition again is a run of the partition. */
  lemma ShieldedIsQuiet(marks: seq<Byte>, n: nat, count: nat, blockSize: nat)
    requires Shielded(marks, count, blockSize) && blockSize + n <= |marks| && !FitsInside(marks, n, count)
    ensures Quiet(marks, n, count, blockSize)
  {
    forall i | 0 < i < blockSize && count <= i + n
      ensures !Fits(marks, i, n)
    {
      if i < count {
        NoFitAcross(marks, i, n, count);
      } else if marks[i] == SECTOR_FREE {
        var j :| Mirrors(marks, i, j, count);
        MirroredFit(marks, i, j, n, count);
      }
    }
  }

  lemma NoFitAcross(marks: seq<Byte>, i: nat, n: nat, k: nat)
    requires i <= k <= i + n && k < |marks| && marks[k] != SECTOR_FREE
    ensures !Fits(marks, i, n)
  {
  }

  lemma MirroredFit(marks: seq<Byte>, i: nat, j: nat, n: nat, count: nat)
    requires Mirrors(marks, i, j, count) && count < |marks| && marks[count] != SECTOR_FREE
    requires count <= i && i + n < |marks| && !FitsInside(marks, n, count)
    ensures !Fits(marks, i, n)
  {
    if count - j <= n {
      assert marks[i + (count - j)] == marks[count];
      NoFitAcross(marks, i, n, i + (count - j));
    } else {
      assert !Fits(marks, j, n);
      var s :| j <= s <= j + n && marks[s] != SECTOR_FREE;
      assert marks[i + (s - j)] == marks[s];
      NoFitAcross(marks, i, n, i + (s - j));
    }
  }

  /** Under the shield the search is a correct and complete first fit of the partition. */
  lemma SearchUnderShield(marks: seq<Byte>, n: nat, count: nat, blockSize: nat, ss: nat)
    requires Shielded(marks, count, blockSize) && blockSize + n <= |marks| && 0 < ss && count * ss <= WORD_SPACE
    requires Consistent(marks, ss)
    ensures SearchAddress(marks, n, blockSize, ss) == FirstFitHandle(marks[..count], n, ss)
  {
    hide Shielded, FitsInside, Quiet, Consistent;
    if !FitsInside(marks, n, count) {
      ShieldedIsQuiet(marks, n, count, blockSize);
    }
    InShield(marks, count, blockSize);
    SearchIsFirstFitIff(marks, n, count, blockSize, ss);
  }

  lemma InShield(marks: seq<Byte>, count: nat, blockSize: nat)
    requires Shielded(marks, count, blockSize)
    ensures 0 < count < blockSize <= |marks|
  {
  }
}
