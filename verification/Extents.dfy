/**
 * A directory seen as the lists of handles that its extents hold: where an added handle
 * goes, and what removing one leaves.
 */
module Extents {
  import opened Words

  const CAPACITY := 7

  type Extent = seq<Word>

  /** All handles of a directory, in the order in which its extents are walked. */
  ghost function Flat(dir: seq<Extent>): seq<Word> {
    if dir == [] then [] else dir[0] + Flat(dir[1..])
  }

  lemma {:induction false} FlatAppend(a: seq<Extent>, b: seq<Extent>)
    ensures Flat(a + b) == Flat(a) + Flat(b)
  {
    if a == [] {
      assert a + b == b;
    } else {
      assert (a + b)[1..] == a[1..] + b;
      FlatAppend(a[1..], b);
    }
  }

  lemma FlatAround(dir: seq<Extent>, i: nat)
    requires i < |dir|
    ensures Flat(dir) == Flat(dir[..i]) + dir[i] + Flat(dir[i + 1..])
  {
    assert dir == dir[..i] + dir[i..];
    FlatAppend(dir[..i], dir[i..]);
    assert dir[i..][1..] == dir[i + 1..];
  }

  lemma AppendsLast(dir: seq<Extent>, f: Word)
    requires dir != []
    ensures var n := |dir| - 1; Flat(dir[n := dir[n] + [f]]) == Flat(dir) + [f]
  {
    var n := |dir| - 1;
    FlatAround(dir, n);
    FlatAround(dir[n := dir[n] + [f]], n);
    assert dir[n := dir[n] + [f]][..n] == dir[..n];
  }

  /** Extents of bounded length hold a bounded number of handles. */
  lemma {:induction false} FlatSize(dir: seq<Extent>)
    requires forall i :: 0 <= i < |dir| ==> |dir[i]| <= CAPACITY
    ensures |Flat(dir)| <= CAPACITY * |dir|
  {
    if dir != [] {
      FlatSize(dir[1..]);
    }
  }

  /** Entry i of extent n comes after all the entries of the extents before it. */
  lemma FlatIndex(dir: seq<Extent>, n: nat)
    requires n < |dir|
    ensures Flat(dir[..n + 1]) == Flat(dir[..n]) + dir[n]
    ensures |Flat(dir[..n + 1])| <= |Flat(dir)|
    ensures n + 1 == |dir| ==> dir[..n + 1] == dir
    ensures forall k :: |Flat(dir[..n])| <= k < |Flat(dir[..n + 1])| ==>
              k < |Flat(dir)| && Flat(dir)[k] == dir[n][k - |Flat(dir[..n])|]
  {
    FlatAround(dir, n);
    assert dir[..n + 1] == dir[..n] + [dir[n]];
    FlatAppend(dir[..n], [dir[n]]);
    assert Flat([dir[n]]) == dir[n];
  }

  /** The first extent from i on, i > 0, that the search for room does not pass over. */
  ghost function Roomy(dir: seq<Extent>, i: nat): (j: nat)
    requires i <= |dir|
    ensures i <= j <= |dir|
    ensures j < |dir| ==> |dir[j]| < CAPACITY - 1
    ensures forall k :: i <= k < j ==> |dir[k]| >= CAPACITY - 1
    decreases |dir| - i
  {
    if i == |dir| || |dir[i]| < CAPACITY - 1 then i else Roomy(dir, i + 1)
  }

  lemma RoomyStep(dir: seq<Extent>, i: nat)
    requires i < |dir|
    ensures Roomy(dir, i) == if |dir[i]| < CAPACITY - 1 then i else Roomy(dir, i + 1)
    ensures Roomy(dir, |dir|) == |dir|
  {
  }

  /** The first extent has no room left, and the search passes over all others. */
  ghost predicate NeedsExtent(dir: seq<Extent>)
    requires dir != []
  {
    |dir[0]| >= CAPACITY && Roomy(dir, 1) == |dir|
  }

  /** The extents after one is made where one is needed. */
  ghost function Grown(dir: seq<Extent>): (dir': seq<Extent>)
    requires dir != []
    ensures dir' != []
  {
    if NeedsExtent(dir) then dir + [[]] else dir
  }

  /**
   * The extent that an added handle goes to. A new extent behind other extents is made one
   * entry early: the handle still goes to the last old one.
   */
  ghost function Target(dir: seq<Extent>): (t: nat)
    requires dir != []
    ensures t < |Grown(dir)|
  {
    if |dir[0]| < CAPACITY then 0
    else if Roomy(dir, 1) < |dir| then Roomy(dir, 1)
    else if |dir| == 1 then 1
    else |dir| - 1
  }

  lemma LateTarget(dir: seq<Extent>)
    requires |dir| > 1 && NeedsExtent(dir)
    ensures Target(dir) == |dir| - 1
  {
  }

  /** The entry that goes with a new extent would be the eighth of the last old one. */
  ghost predicate TailOverflow(dir: seq<Extent>)
    requires dir != []
  {
    NeedsExtent(dir) && |dir| > 1 && |dir[|dir| - 1]| >= CAPACITY
  }

  /** A handle has no room where it goes only when the tail overflows. */
  lemma OverflowIff(dir: seq<Extent>)
    requires dir != []
    ensures TailOverflow(dir) <==> |Grown(dir)[Target(dir)]| >= CAPACITY
  {
  }

  /** The directory after a handle is added. */
  ghost function Added(dir: seq<Extent>, f: Word): (dir': seq<Extent>)
    requires dir != []
    ensures dir' != []
  {
    var g, t := Grown(dir), Target(dir);
    g[t := g[t] + [f]]
  }

  lemma AppendedAddsOne(dir: seq<Extent>, i: nat, f: Word)
    requires i < |dir|
    ensures multiset(Flat(dir[i := dir[i] + [f]])) == multiset(Flat(dir)) + multiset{f}
  {
    var up := dir[i := dir[i] + [f]];
    FlatAround(dir, i);
    FlatAround(up, i);
    assert up[..i] == dir[..i] && up[i + 1..] == dir[i + 1..];
  }

  /** Adding keeps every handle and adds exactly one, whatever removals came before. */
  lemma AddedAddsOne(dir: seq<Extent>, f: Word)
    requires dir != []
    ensures multiset(Flat(Added(dir, f))) == multiset(Flat(dir)) + multiset{f}
  {
    FlatAppend(dir, [[]]);
    assert Flat([[]]) == [];
    AppendedAddsOne(Grown(dir), Target(dir), f);
  }

  /** What only adding ever produces: full extents, and a last one with room for one more. */
  ghost predicate Packed(dir: seq<Extent>) {
    && |dir| > 0
    && (|dir| == 1 ==> |dir[0]| <= CAPACITY)
    && (|dir| > 1 ==>
          && (forall i :: 0 <= i < |dir| - 1 ==> |dir[i]| == CAPACITY)
          && |dir[|dir| - 1]| < CAPACITY)
  }

  lemma FlatWithEmpty(dir: seq<Extent>)
    ensures Flat([]) == Flat([[]]) == [] && Flat(dir + [[]]) == Flat(dir)
  {
    FlatAppend(dir, [[]]);
    assert Flat([[]]) == [] + Flat([]);
  }

  /** Appending to an extent that only empty ones follow appends to the walk order. */
  lemma LastAppends(dir: seq<Extent>, t: nat, f: Word)
    requires t < |dir| && Flat(dir[t + 1..]) == []
    ensures Flat(dir[t := dir[t] + [f]]) == Flat(dir) + [f]
  {
    var up := dir[t := dir[t] + [f]];
    FlatAround(dir, t);
    FlatAround(up, t);
    assert up[..t] == dir[..t] && up[t + 1..] == dir[t + 1..];
  }

  /** On a packed directory adding appends to the walk order, and never overflows. */
  lemma AddedAppends(dir: seq<Extent>, f: Word)
    requires Packed(dir)
    ensures Packed(Added(dir, f)) && !TailOverflow(dir)
    ensures Flat(Added(dir, f)) == Flat(dir) + [f]
  {
    hide Flat;
    var g, t := Grown(dir), Target(dir);
    FlatWithEmpty(dir);
    assert g[t + 1..] == [] || g[t + 1..] == [[]];
    LastAppends(g, t, f);
  }

  ghost function AddedAll(dir: seq<Extent>, fs: seq<Word>): (dir': seq<Extent>)
    requires dir != []
    ensures dir' != []
    decreases |fs|
  {
    if fs == [] then dir else AddedAll(Added(dir, fs[0]), fs[1..])
  }

  /** From an empty directory on, any number of additions reads back as the list added. */
  lemma {:induction false} AddingIsAppending(dir: seq<Extent>, fs: seq<Word>)
    requires Packed(dir)
    ensures Packed(AddedAll(dir, fs))
    ensures Flat(AddedAll(dir, fs)) == Flat(dir) + fs
    decreases |fs|
  {
    if fs != [] {
      AddedAppends(dir, fs[0]);
      AddingIsAppending(Added(dir, fs[0]), fs[1..]);
    }
  }

  /** The list with entry j replaced by the last entry, which goes. */
  function SwappedOut(x: Extent, j: nat): (y: Extent)
    requires j < |x|
    ensures |y| == |x| - 1
  {
    x[j := x[|x| - 1]][..|x| - 1]
  }

  lemma SwappedOutLosesOne(x: Extent, j: nat)
    requires j < |x|
    ensures multiset(SwappedOut(x, j)) == multiset(x) - multiset{x[j]}
  {
    var n := |x| - 1;
    assert x == x[..n] + [x[n]];
    if j < n {
      assert SwappedOut(x, j) == x[..n][j := x[n]];
    } else {
      assert SwappedOut(x, j) == x[..n];
    }
  }

  /**
   * Whether removing an entry of extent i unlinks the extent: it must become empty, and an
   * eight-bit counter of the extents passed must not be zero. So the first node always stays,
   * and so does every 256th after it.
   */
  predicate Unlinks(dir: seq<Extent>, i: nat)
    requires i < |dir|
  {
    i % 0x100 != 0 && |dir[i]| == 1
  }

  /** The directory after entry j of extent i is removed. */
  ghost function Removed(dir: seq<Extent>, i: nat, j: nat): (dir': seq<Extent>)
    requires i < |dir| && j < |dir[i]|
    ensures dir' != []
  {
    if Unlinks(dir, i) then dir[..i] + dir[i + 1..]
    else dir[i := SwappedOut(dir[i], j)]
  }

  /** Removing takes out exactly one occurrence of one handle. */
  lemma RemovedLosesOne(dir: seq<Extent>, i: nat, j: nat)
    requires i < |dir| && j < |dir[i]|
    ensures multiset(Flat(Removed(dir, i, j))) == multiset(Flat(dir)) - multiset{dir[i][j]}
  {
    hide Flat, SwappedOut;
    FlatAround(dir, i);
    if Unlinks(dir, i) {
      FlatAppend(dir[..i], dir[i + 1..]);
      OneLess(Flat(dir[..i]), dir[i], [], Flat(dir[i + 1..]), dir[i][j]);
    } else {
      var down := Removed(dir, i, j);
      FlatAround(down, i);
      assert down[..i] == dir[..i] && down[i + 1..] == dir[i + 1..];
      SwappedOutLosesOne(dir[i], j);
      OneLess(Flat(dir[..i]), dir[i], down[i], Flat(dir[i + 1..]), dir[i][j]);
    }
  }

  lemma OneLess(a: seq<Word>, b: seq<Word>, b': seq<Word>, c: seq<Word>, v: Word)
    requires v in b && (multiset(b') == multiset(b) - multiset{v} || (b == [v] && b' == []))
    ensures multiset(a + b' + c) == multiset(a + b + c) - multiset{v}
    ensures b' == [] ==> a + b' + c == a + c
  {
    if b' == [] {
      assert a + b' == a;
    }
    assert multiset(b') == multiset(b) - multiset{v};
    LessInTheMiddle(multiset(a), multiset(b), multiset(c), v);
  }

  lemma LessInTheMiddle(a: multiset<Word>, b: multiset<Word>, c: multiset<Word>, v: Word)
    requires v in b
    ensures a + (b - multiset{v}) + c == a + b + c - multiset{v}
  {
  }

  /** An extent that a removal empties stays exactly when its number is a multiple of 256. */
  lemma EmptiedStaysIff(dir: seq<Extent>, i: nat)
    requires i < |dir| && |dir[i]| == 1
    ensures |Removed(dir, i, 0)| == |dir| <==> i % 0x100 == 0
    ensures i % 0x100 == 0 ==> Removed(dir, i, 0) == dir[i := []]
  {
  }

  /** As in this directory of 257 extents, all of them full but the last. */
  lemma LongDirectoryKeepsEmpty(full: Extent, f: Word)
    requires |full| == CAPACITY
    ensures var dir := seq<Extent>(256, _ => full) + [[f]];
      Packed(dir) && Removed(dir, 256, 0) == seq<Extent>(256, _ => full) + [[]]
  {
    var front := seq<Extent>(256, _ => full);
    EmptiedStaysIff(front + [[f]], 256);
    assert (front + [[f]])[256 := []] == front + [[]];
  }

  /**
   * A removal can leave a directory on which the next addition overflows: here the last extent
   * goes, and what is then the last one is full.
   */
  lemma RemovalCanLeaveOverflow(a: Extent, b: Extent, f: Word)
    requires |a| == |b| == CAPACITY
    ensures Packed([a, b, [f]]) && Removed([a, b, [f]], 2, 0) == [a, b] && TailOverflow([a, b])
  {
    var dir := [a, b, [f]];
    assert Removed(dir, 2, 0) == dir[..2] + dir[3..];
    assert Roomy([a, b], 1) == Roomy([a, b], 2) == 2;
  }
}
