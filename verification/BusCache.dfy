/**
 * The external memory bus of the selected board: a 32-byte window of RAM is kept in
 * a write-back cache with one dirty flag a byte, and any access outside the window
 * moves it.
 *
 * Addresses are 32-bit and wrap. The RAM decodes an address modulo its own size, so
 * addresses that differ by a multiple of that size name the same cell.
 */
module BusCache {
  import opened Words
  import opened Arithmetic
  import opened Counting

  const CACHE_SIZE := 32

  /** The cell behind position i of a window that begins at address begin. */
  function Cell(begin: int, i: int, n: nat): (p: nat)
    requires n > 0
    ensures p < n
  {
    (begin + i) % n
  }

  /** No two positions of a window share a cell. */
  lemma CellInjective(begin: int, i: int, j: int, n: nat)
    requires 0 <= i < n && 0 <= j < n
    requires Cell(begin, i, n) == Cell(begin, j, n)
    ensures i == j
  {
    SameRemainder(begin + i, begin + j, n);
  }

  /** Wrapping an offset to 32 bits first does not change the cell. */
  lemma CellOfWrappedOffset(begin: int, x: int, n: nat)
    requires n > 0 && WORD_SPACE % n == 0
    ensures Cell(begin, Wrap(x), n) == Cell(begin, x, n)
  {
    var q := x / WORD_SPACE;
    var k := WORD_SPACE / n;
    assert begin + x == begin + Wrap(x) + n * (k * q) by {
      assert WORD_SPACE == n * k;
      assert WORD_SPACE * q == n * (k * q);
    }
    ModShift(begin + Wrap(x), k * q, n);
  }

  /** Wrapping an address to 32 bits first does not change the cell. */
  lemma CellOfWrapped(a: int, n: nat)
    requires n > 0 && WORD_SPACE % n == 0
    ensures Wrap(a) % n == a % n
  {
    CellOfWrappedOffset(0, a, n);
  }

  /** Where the window lies, and the cells written through it since it was fetched. */
  datatype Window = Window(begin: Word, end: Word, written: set<nat>)

  predicate Covers(w: Window, address: Word) {
    w.begin <= address < w.end
  }

  /** The window after a read: the same on a hit, and a fresh one on a miss. */
  function Fetched(w: Window, address: Word): Window {
    if Covers(w, address) then w else Window(address, Wrap(address + CACHE_SIZE), {})
  }

  /** The cells behind the first k positions of a window that belong to a set, in order. */
  ghost function Picked(begin: int, cells: set<nat>, n: nat, k: nat): (log: seq<nat>)
    requires n > 0
  {
    if k == 0 then []
    else
      var p := Cell(begin, k - 1, n);
      Picked(begin, cells, n, k - 1) + if p in cells then [p] else []
  }

  /** What is picked: the cells of the set behind those positions. */
  lemma {:induction false} PickedMembers(begin: int, cells: set<nat>, n: nat, k: nat, p: nat)
    requires n > 0
    ensures p in Picked(begin, cells, n, k) <==> p in cells && exists i :: 0 <= i < k && p == Cell(begin, i, n)
  {
    if k > 0 {
      PickedMembers(begin, cells, n, k - 1, p);
      if i :| 0 <= i < k - 1 && p == Cell(begin, i, n) {
        assert 0 <= i < k;
      }
    }
  }

  /** No cell is picked twice from a window. */
  lemma {:induction false} PickedOnce(begin: int, cells: set<nat>, n: nat, k: nat)
    requires 0 < n && k <= n
    ensures Distinct(Picked(begin, cells, n, k))
  {
    if k > 0 {
      var p := Cell(begin, k - 1, n);
      PickedOnce(begin, cells, n, k - 1);
      PickedMembers(begin, cells, n, k - 1, p);
      if i :| 0 <= i < k - 1 && p == Cell(begin, i, n) {
        CellInjective(begin, i, k - 1, n);
      }
    }
  }

  /** The cells that an access writes back: none on a hit, the written ones of the old window on a miss. */
  ghost function WrittenBack(w: Window, address: Word, n: nat): seq<nat>
    requires n > 0
  {
    if Covers(w, address) then [] else Picked(w.begin, w.written, n, CACHE_SIZE)
  }

  class CachedBus {
    const ram: array<Byte>       // the device behind the raw accesses
    const cache: array<Byte>
    const dirtyBits: array<bool>
    var cacheBegin: Word
    var cacheEnd: Word

    /** The memory as the users of the bus see it. */
    ghost var Mem: seq<Byte>
    /** The cells written through the bus since the window was fetched. */
    ghost var Written: set<nat>
    /** Every raw write so far, by its cell. */
    ghost var RawWrites: seq<nat>

    ghost function View(): Window
      reads this
    {
      Window(cacheBegin, cacheEnd, Written)
    }

    ghost predicate Valid()
      reads this, ram, cache, dirtyBits
    {
      && cache.Length == dirtyBits.Length == CACHE_SIZE <= ram.Length
      && WORD_SPACE % ram.Length == 0
      && ram != cache
      && |Mem| == ram.Length
      && (forall p :: 0 <= p < ram.Length && p !in Written ==> ram[p] == Mem[p])
      && (forall p :: p in Written ==> InWindow(p))
      && (forall i :: 0 <= i < CACHE_SIZE ==>
            (dirtyBits[i] <==> Cell(cacheBegin, i, ram.Length) in Written))
      && (cacheBegin == cacheEnd == 0 ==> Written == {})
      && (!(cacheBegin == cacheEnd == 0) ==>
            && cacheEnd == Wrap(cacheBegin + CACHE_SIZE)
            && forall i :: 0 <= i < CACHE_SIZE ==> cache[i] == Mem[Cell(cacheBegin, i, ram.Length)])
    }

    ghost predicate InWindow(p: nat)
      requires ram.Length > 0
      reads this
    {
      exists i :: 0 <= i < CACHE_SIZE && p == Cell(cacheBegin, i, ram.Length)
    }

    /** Power on: an empty window over whatever the RAM holds. */
    constructor (ram: array<Byte>)
      requires CACHE_SIZE <= ram.Length && WORD_SPACE % ram.Length == 0
      ensures Valid() && this.ram == ram && fresh(cache) && fresh(dirtyBits)
      ensures Mem == ram[..] && ram[..] == old(ram[..])
      ensures View() == Window(0, 0, {}) && RawWrites == []
    {
      this.ram := ram;
      cache := new Byte[CACHE_SIZE](_ => 0);
      dirtyBits := new bool[CACHE_SIZE](_ => false);
      cacheBegin, cacheEnd := 0, 0;
      Mem, Written, RawWrites := ram[..], {}, [];
    }

    method RawRead(address: Word) returns (b: Byte)
      requires ram.Length > 0
      ensures b == ram[address % ram.Length]
    {
      b := ram[address % ram.Length];
    }

    method RawWrite(address: Word, b: Byte)
      requires ram.Length > 0
      modifies ram, this`RawWrites
      ensures ram[..] == old(ram[..])[address % ram.Length := b]
      ensures RawWrites == old(RawWrites) + [address % ram.Length]
    {
      ram[address % ram.Length] := b;
      RawWrites := RawWrites + [address % ram.Length];
    }

    /** Writes the byte behind position i back when it is modified, and no byte otherwise. */
    method WriteBackOne(i: nat)
      requires Valid() && i < CACHE_SIZE
      modifies ram, dirtyBits, this`Written, this`RawWrites
      ensures Valid() && !dirtyBits[i] && Written == old(Written) - {Cell(cacheBegin, i, ram.Length)}
      ensures forall j :: 0 <= j < CACHE_SIZE && j != i ==> dirtyBits[j] == old(dirtyBits[j])
      ensures forall p :: 0 <= p < ram.Length && p !in old(Written) ==> ram[p] == old(ram[p])
      ensures RawWrites == old(RawWrites) + if old(dirtyBits[i]) then [Cell(cacheBegin, i, ram.Length)] else []
    {
      var n := ram.Length;
      if dirtyBits[i] {
        CellOfWrapped(cacheBegin + i, n);
        ghost var p := Cell(cacheBegin, i, n);
        RawWrite(Wrap(cacheBegin + i), cache[i]);
        dirtyBits[i] := false;
        Written := Written - {p};
        forall j | 0 <= j < CACHE_SIZE && Cell(cacheBegin, j, n) == p
          ensures j == i
        {
          CellInjective(cacheBegin, i, j, n);
        }
      }
    }

    /** Writes every modified byte of the window back to the RAM, once and in order, and no other byte. */
    method WriteBack()
      requires Valid()
      modifies ram, dirtyBits, this`Written, this`RawWrites
      ensures Valid()
      ensures Written == {} && Mem == ram[..]
      ensures RawWrites == old(RawWrites) + Picked(cacheBegin, old(Written), ram.Length, CACHE_SIZE)
      ensures forall p :: 0 <= p < ram.Length && p !in old(Written) ==> ram[p] == old(ram[p])
    {
      for i := 0 to CACHE_SIZE
        invariant Valid() && Written <= old(Written)
        invariant forall j :: 0 <= j < i ==> !dirtyBits[j]
        invariant forall j :: i <= j < CACHE_SIZE ==> dirtyBits[j] == old(dirtyBits[j])
        invariant forall p :: 0 <= p < ram.Length && p !in old(Written) ==> ram[p] == old(ram[p])
        invariant RawWrites == old(RawWrites) + Picked(cacheBegin, old(Written), ram.Length, i)
      {
        WriteBackOne(i);
      }
      forall p: nat
        ensures p !in Written
      {
        CleanIsNotWritten(p);
      }
      assert Written == {};
    }

    lemma CleanIsNotWritten(p: nat)
      requires Valid() && forall j :: 0 <= j < CACHE_SIZE ==> !dirtyBits[j]
      ensures p !in Written
    {
    }

    /** Moves the window to begin at the given address. */
    method FlushCache(address: Word)
      requires Valid()
      modifies this`cacheBegin, this`cacheEnd, this`Written, this`RawWrites, ram, cache, dirtyBits
      ensures Valid()
      ensures View() == Window(address, Wrap(address + CACHE_SIZE), {}) && Mem == ram[..]
      ensures RawWrites == old(RawWrites) + Picked(old(cacheBegin), old(Written), ram.Length, CACHE_SIZE)
      ensures forall p :: 0 <= p < ram.Length && p !in old(Written) ==> ram[p] == old(ram[p])
    {
      hide Picked;
      WriteBack();
      Fetch(address);
    }

    /** Loads the window that begins at an address, once nothing is left to write back. */
    method Fetch(address: Word)
      requires Valid() && Written == {}
      modifies this`cacheBegin, this`cacheEnd, cache, dirtyBits
      ensures Valid()
      ensures View() == Window(address, Wrap(address + CACHE_SIZE), {})
    {
      var n := ram.Length;
      for i := 0 to CACHE_SIZE
        invariant forall j :: 0 <= j < i ==> !dirtyBits[j] && cache[j] == Mem[Cell(address, j, n)]
        invariant ram[..] == old(ram[..])
      {
        CellOfWrapped(address + i, n);
        cache[i] := RawRead(Wrap(address + i));
        dirtyBits[i] := false;
      }
      cacheBegin, cacheEnd := address, Wrap(address + CACHE_SIZE);
    }

    /** A read returns the byte users of the bus last put in that cell; no cell changes. */
    method ReadMemory(address: Word) returns (b: Byte)
      requires Valid()
      modifies this`cacheBegin, this`cacheEnd, this`Written, this`RawWrites, ram, cache, dirtyBits
      ensures Valid()
      ensures b == Mem[address % |Mem|]
      ensures View() == Fetched(old(View()), address)
      ensures RawWrites == old(RawWrites) + WrittenBack(old(View()), address, ram.Length)
    {
      hide Picked;
      if cacheBegin <= address < cacheEnd {
        assert Cell(cacheBegin, address - cacheBegin, ram.Length) == address % |Mem|;
        b := cache[address - cacheBegin];
      } else {
        FlushCache(address);
        assert Cell(cacheBegin, 0, ram.Length) == address % |Mem|;
        b := cache[0];
      }
    }

    /** Writes a byte of the loaded window. */
    method WriteCached(offset: nat, b: Byte)
      requires Valid() && !(cacheBegin == cacheEnd == 0) && offset < CACHE_SIZE
      modifies this`Mem, this`Written, cache, dirtyBits
      ensures Valid()
      ensures Mem == old(Mem)[Cell(cacheBegin, offset, ram.Length) := b]
      ensures Written == old(Written) + {Cell(cacheBegin, offset, ram.Length)}
    {
      ghost var p := Cell(cacheBegin, offset, ram.Length);
      forall j | 0 <= j < CACHE_SIZE && Cell(cacheBegin, j, ram.Length) == p
        ensures j == offset
      {
        CellInjective(cacheBegin, j, offset, ram.Length);
      }
      cache[offset] := b;
      dirtyBits[offset] := true;
      Mem, Written := Mem[p := b], Written + {p};
    }

    /** A write changes exactly the addressed cell, whichever window is loaded. */
    method WriteMemory(address: Word, b: Byte)
      requires Valid()
      modifies this, ram, cache, dirtyBits
      ensures Valid()
      ensures Mem == old(Mem)[address % |old(Mem)| := b]
      ensures var w := Fetched(old(View()), address);
        View() == w.(written := w.written + {address % |Mem|})
      ensures RawWrites == old(RawWrites) + WrittenBack(old(View()), address, ram.Length)
    {
      hide Picked;
      if cacheBegin <= address < cacheEnd {
        WriteCached(address - cacheBegin, b);
        return;
      }
      FlushCache(address);
      WriteCached(0, b);
    }
  }
}
