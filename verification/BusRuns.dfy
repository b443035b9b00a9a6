/**
 * Whole runs of the cached bus: any interleaving of reads and writes, from the power-on
 * state or any later one, answers as plain memory would.
 */
module BusRuns {
  import opened Words
  import opened Counting
  import opened BusCache

  datatype Access = Read(address: Word) | Write(address: Word, value: Byte)

  predicate Hits(a: Access, p: nat, n: nat)
    requires n > 0
  {
    a.Write? && a.address % n == p
  }

  /** Plain memory after one access. */
  function Stored(m: seq<Byte>, a: Access): (m': seq<Byte>)
    requires |m| > 0
    ensures |m'| == |m|
  {
    if a.Write? then m[a.address % |m| := a.value] else m
  }

  /** Plain memory after a run of accesses. */
  function MemoryAfter(m: seq<Byte>, run: seq<Access>): (m': seq<Byte>)
    requires |m| > 0
    ensures |m'| == |m|
  {
    if run == [] then m else Stored(MemoryAfter(m, run[..|run| - 1]), run[|run| - 1])
  }

  /** Access i is the last of the run that writes cell p. */
  predicate IsLastWrite(run: seq<Access>, i: int, p: nat, n: nat)
    requires n > 0
  {
    0 <= i < |run| && Hits(run[i], p, n) && forall j :: i < j < |run| ==> !Hits(run[j], p, n)
  }

  /** After any run a cell holds the value last written to it, or else its initial value. */
  lemma {:induction false} LastWriteWins(m: seq<Byte>, run: seq<Access>, p: nat)
    requires p < |m|
    ensures if exists i :: IsLastWrite(run, i, p, |m|)
            then exists i :: IsLastWrite(run, i, p, |m|) && MemoryAfter(m, run)[p] == run[i].value
            else MemoryAfter(m, run)[p] == m[p] && forall i :: 0 <= i < |run| ==> !Hits(run[i], p, |m|)
  {
    if run != [] {
      var n, front := |run| - 1, run[..|run| - 1];
      LastWriteWins(m, front, p);
      if Hits(run[n], p, |m|) {
        assert IsLastWrite(run, n, p, |m|);
      } else if i :| IsLastWrite(front, i, p, |m|) && MemoryAfter(m, front)[p] == front[i].value {
        assert IsLastWrite(run, i, p, |m|);
      } else {
        assert forall i :: 0 <= i < n ==> run[i] == front[i];
      }
    }
  }

  // What a run does to the window and to the RAM behind it.

  /** The window after one access. */
  ghost function Accessed(w: Window, a: Access, n: nat): Window
    requires n > 0
  {
    var found := Fetched(w, a.address);
    if a.Write? then found.(written := found.written + {a.address % n}) else found
  }

  /** The window after a run of accesses. */
  ghost function WindowAfter(w: Window, run: seq<Access>, n: nat): Window
    requires n > 0
  {
    if run == [] then w else Accessed(WindowAfter(w, run[..|run| - 1], n), run[|run| - 1], n)
  }

  /** The address of the last access that missed, told from the addresses alone, or -1. */
  ghost function LastMiss(run: seq<Access>): int {
    if run == [] then -1
    else
      var b, a := LastMiss(run[..|run| - 1]), run[|run| - 1].address;
      if 0 <= b <= a < b + 32 < 0x1_0000_0000 then b else a
  }

  /**
   * From power on an access hits exactly when its address is one of the 32 from that of the last
   * miss on; a window that reaches the end of the address space is never hit.
   */
  lemma {:induction false} HitIff(run: seq<Access>, address: Word, n: nat)
    requires n > 0
    ensures var w, b := WindowAfter(Window(0, 0, {}), run, n), LastMiss(run);
      && (b < 0 ==> run == [] && w.begin == w.end == 0)
      && (b >= 0 ==> w.begin == b && w.end == (b + 32) % 0x1_0000_0000)
      && (Covers(w, address) <==> 0 <= b <= address < b + 32 < 0x1_0000_0000)
  {
    hide Accessed;
    if run != [] {
      HitIff(run[..|run| - 1], run[|run| - 1].address, n);
      WindowMoves(WindowAfter(Window(0, 0, {}), run[..|run| - 1], n), run[|run| - 1], n);
      EndOfWindow(LastMiss(run));
    }
  }

  lemma WindowMoves(w: Window, a: Access, n: nat)
    requires n > 0
    ensures var v := Accessed(w, a, n);
      if Covers(w, a.address) then v.begin == w.begin && v.end == w.end
      else v.begin == a.address && v.end == (a.address + 32) % 0x1_0000_0000
  {
  }

  lemma EndOfWindow(b: int)
    ensures 0 <= b < 0x1_0000_0000 ==>
              (b + 32) % 0x1_0000_0000 == if b + 32 < 0x1_0000_0000 then b + 32 else b + 32 - 0x1_0000_0000
  {
  }

  /** The raw writes of a run, each by its cell. */
  ghost function RawWritesOf(w: Window, run: seq<Access>, n: nat): seq<nat>
    requires n > 0
  {
    if run == [] then []
    else
      var front := run[..|run| - 1];
      RawWritesOf(w, front, n) + WrittenBack(WindowAfter(w, front, n), run[|run| - 1].address, n)
  }

  /** Access i of the run moves the window. */
  ghost predicate Misses(w: Window, run: seq<Access>, i: int, n: nat)
    requires n > 0
  {
    0 <= i < |run| && !Covers(WindowAfter(w, run[..i], n), run[i].address)
  }

  /** Access j writes cell p, and the window has not moved since. */
  ghost predicate IsOwed(w: Window, run: seq<Access>, j: int, p: nat, n: nat)
    requires n > 0
  {
    0 <= j < |run| && Hits(run[j], p, n) && forall k :: j < k < |run| ==> !Misses(w, run, k, n)
  }

  lemma MissesPrefix(w: Window, run: seq<Access>, n: nat)
    requires n > 0 && run != []
    ensures forall k :: 0 <= k < |run| - 1 ==> (Misses(w, run, k, n) <==> Misses(w, run[..|run| - 1], k, n))
  {
    var front := run[..|run| - 1];
    forall k | 0 <= k < |run| - 1
      ensures Misses(w, run, k, n) <==> Misses(w, front, k, n)
    {
      assert front[..k] == run[..k];
    }
  }

  /** After an access that does not write the cell, what is owed stays so unless the window moves. */
  lemma OwedStep(w: Window, run: seq<Access>, j: int, p: nat, n: nat)
    requires n > 0 && run != [] && !Hits(run[|run| - 1], p, n)
    ensures IsOwed(w, run, j, p, n)
       <==> IsOwed(w, run[..|run| - 1], j, p, n) && !Misses(w, run, |run| - 1, n)
  {
    MissesPrefix(w, run, n);
    var m := |run| - 1;
    if IsOwed(w, run, j, p, n) {
      assert j < m && !Misses(w, run, m, n) && run[..m][j] == run[j];
      forall k | j < k < m
        ensures !Misses(w, run[..m], k, n)
      {
        assert !Misses(w, run, k, n);
      }
    }
    if IsOwed(w, run[..m], j, p, n) && !Misses(w, run, m, n) {
      forall k | j < k < |run|
        ensures !Misses(w, run, k, n)
      {
        assert k < m ==> !Misses(w, run[..m], k, n);
      }
      assert run[j] == run[..m][j];
    }
  }

  /** What one access does to the cells written. */
  lemma WrittenStep(w: Window, a: Access, p: nat, n: nat)
    requires n > 0
    ensures p in Accessed(w, a, n).written <==> Hits(a, p, n) || (Covers(w, a.address) && p in w.written)
  {
  }

  /** From an empty window on, the window holds as written exactly what is owed to the RAM. */
  lemma {:induction false} WrittenIsOwed(w: Window, run: seq<Access>, p: nat, n: nat)
    requires n > 0 && w.written == {}
    ensures p in WindowAfter(w, run, n).written <==> exists j :: IsOwed(w, run, j, p, n)
  {
    hide Accessed, Covers;
    if run != [] {
      var m, front := |run| - 1, run[..|run| - 1];
      WrittenIsOwed(w, front, p, n);
      WrittenStep(WindowAfter(w, front, n), run[m], p, n);
      if Hits(run[m], p, n) {
        assert IsOwed(w, run, m, p, n);
      } else {
        forall j: int
          ensures IsOwed(w, run, j, p, n) <==> IsOwed(w, front, j, p, n) && !Misses(w, run, m, n)
        {
          OwedStep(w, run, j, p, n);
        }
      }
    }
  }

  /** The cell lies behind a position of the window. */
  ghost predicate Lies(w: Window, p: nat, n: nat)
    requires n > 0
  {
    exists i :: 0 <= i < CACHE_SIZE && p == Cell(w.begin, i, n)
  }

  predicate Unloaded(w: Window) {
    w.begin == w.end == 0
  }

  /** What every window of the bus is: all cells written lie in it, and it is loaded or empty. */
  ghost predicate IsWindow(w: Window, n: nat)
    requires n > 0
  {
    && (forall p :: p in w.written ==> Lies(w, p, n))
    && (Unloaded(w) || w.end == Wrap(w.begin + CACHE_SIZE))
  }

  lemma AccessKeepsWindow(w: Window, a: Access, n: nat)
    requires n > 0 && IsWindow(w, n)
    ensures IsWindow(Accessed(w, a, n), n)
  {
    var found, v := Fetched(w, a.address), Accessed(w, a, n);
    forall p | p in v.written
      ensures Lies(v, p, n)
    {
      if p in found.written {
        assert Lies(w, p, n);
      } else {
        var i := if Covers(found, a.address) then a.address - found.begin else 0;
        assert 0 <= i < CACHE_SIZE && p == Cell(found.begin, i, n);
      }
    }
  }

  lemma {:induction false} StaysWindow(w: Window, run: seq<Access>, n: nat)
    requires n > 0 && IsWindow(w, n)
    ensures IsWindow(WindowAfter(w, run, n), n)
  {
    hide IsWindow, Accessed;
    if run != [] {
      StaysWindow(w, run[..|run| - 1], n);
      AccessKeepsWindow(WindowAfter(w, run[..|run| - 1], n), run[|run| - 1], n);
    }
  }

  /**
   * From power on, an access raw-writes a cell exactly when it moves the window and the cell is
   * owed: some access wrote it after the window was last moved. It does so once.
   */
  lemma RawWritesAreOwed(run: seq<Access>, a: Access, p: nat, n: nat)
    requires n >= CACHE_SIZE
    ensures var w := Window(0, 0, {});
      var log := WrittenBack(WindowAfter(w, run, n), a.address, n);
      && Distinct(log)
      && (p in log <==> Misses(w, run + [a], |run|, n) && exists j :: IsOwed(w, run, j, p, n))
  {
    hide Picked;
    var w := Window(0, 0, {});
    var v := WindowAfter(w, run, n);
    assert (run + [a])[..|run|] == run;
    StaysWindow(w, run, n);
    WrittenIsOwed(w, run, p, n);
    PickedOnce(v.begin, v.written, n, CACHE_SIZE);
    PickedMembers(v.begin, v.written, n, CACHE_SIZE, p);
    assert p in v.written ==> Lies(v, p, n);
  }

  /** So every raw write of a whole run repeats, for its cell, a write of the run. */
  lemma {:induction false} OnlyWritesAreRawWritten(run: seq<Access>, p: nat, n: nat)
    requires n >= CACHE_SIZE && p in RawWritesOf(Window(0, 0, {}), run, n)
    ensures exists j :: 0 <= j < |run| && Hits(run[j], p, n)
  {
    hide WrittenBack, IsOwed;
    var m, front := |run| - 1, run[..|run| - 1];
    if p in RawWritesOf(Window(0, 0, {}), front, n) {
      OnlyWritesAreRawWritten(front, p, n);
      var j :| 0 <= j < |front| && Hits(front[j], p, n);
      assert Hits(run[j], p, n);
    } else {
      RawWritesAreOwed(front, run[m], p, n);
      var j :| IsOwed(Window(0, 0, {}), front, j, p, n);
      OwedIsWritten(Window(0, 0, {}), front, j, p, n);
      assert Hits(run[j], p, n);
    }
  }

  lemma OwedIsWritten(w: Window, run: seq<Access>, j: int, p: nat, n: nat)
    requires n > 0 && IsOwed(w, run, j, p, n)
    ensures 0 <= j < |run| && Hits(run[j], p, n)
  {
  }

  /** Serves one access; a write is answered by what it writes. */
  method ServeOne(bus: CachedBus, a: Access) returns (answer: Byte)
    requires bus.Valid()
    modifies bus, bus.ram, bus.cache, bus.dirtyBits
    ensures bus.Valid() && |old(bus.Mem)| == bus.ram.Length >= CACHE_SIZE
    ensures bus.Mem == Stored(old(bus.Mem), a)
    ensures bus.View() == Accessed(old(bus.View()), a, bus.ram.Length)
    ensures bus.RawWrites == old(bus.RawWrites) + WrittenBack(old(bus.View()), a.address, bus.ram.Length)
    ensures a.Read? ==> answer == old(bus.Mem)[a.address % |old(bus.Mem)|]
  {
    hide WrittenBack, Fetched;
    match a
    case Read(address) =>
      answer := bus.ReadMemory(address);
    case Write(address, value) =>
      bus.WriteMemory(address, value);
      answer := value;
  }

  /**
   * Serves a run of accesses through the cache. Every read answers with what plain memory
   * holds at that moment, across all the window moves in between, and the RAM is written
   * exactly when and where the window says.
   */
  method Serve(bus: CachedBus, run: seq<Access>) returns (answers: seq<Byte>)
    requires bus.Valid()
    modifies bus, bus.ram, bus.cache, bus.dirtyBits
    ensures bus.Valid() && |answers| == |run|
    ensures bus.Mem == MemoryAfter(old(bus.Mem), run)
    ensures bus.View() == WindowAfter(old(bus.View()), run, bus.ram.Length)
    ensures bus.RawWrites == old(bus.RawWrites) + RawWritesOf(old(bus.View()), run, bus.ram.Length)
    ensures forall i :: 0 <= i < |run| && run[i].Read? ==>
              answers[i] == MemoryAfter(old(bus.Mem), run[..i])[run[i].address % |old(bus.Mem)|]
  {
    hide CachedBus.Valid, WrittenBack, Accessed, Stored;
    NonEmpty(bus);
    answers := [];
    assert run[..0] == [];
    for i := 0 to |run|
      invariant bus.Valid() && |answers| == i
      invariant bus.Mem == MemoryAfter(old(bus.Mem), run[..i])
      invariant bus.View() == WindowAfter(old(bus.View()), run[..i], bus.ram.Length)
      invariant bus.RawWrites == old(bus.RawWrites) + RawWritesOf(old(bus.View()), run[..i], bus.ram.Length)
      invariant forall j :: 0 <= j < i && run[j].Read? ==>
                  answers[j] == MemoryAfter(old(bus.Mem), run[..j])[run[j].address % |old(bus.Mem)|]
    {
      assert run[..i + 1][..i] == run[..i];
      var answer := ServeOne(bus, run[i]);
      answers := answers + [answer];
    }
    assert run[..|run|] == run;
  }

  lemma NonEmpty(bus: CachedBus)
    requires bus.Valid()
    ensures |bus.Mem| == bus.ram.Length >= CACHE_SIZE
  {
  }
}
