/**
 * Whole sessions of the file system with its table of open files. A transfer is accepted by the
 * size that was recorded when the file was opened, whatever has become of the file since.
 */
module Sessions {
  import opened Words
  import opened FirstFit
  import opened Sectors
  import opened Blocks
  import opened FileData
  import opened Allocator
  import opened Files
  import opened Extents
  import opened Chains
  import opened Format
  import opened Runs
  import opened DirectoryRuns

  /** An entry of the table: the header sector and the size, as they were when the file was opened. */
  datatype Slot = Closed | Opened(s: nat, size: Word)

  datatype State = State(disk: Disk, table: seq<Slot>)

  datatype Call =
    | Change(op: Op)
    | Open(s: nat)
    | Close(index: int)
    | Write(index: int, size: Word, data: seq<Byte>)

  predicate HasClosed(table: seq<Slot>) {
    exists i :: 0 <= i < |table| && table[i].Closed?
  }

  /** The slot that the next open takes. */
  function FirstClosed(table: seq<Slot>): (i: nat)
    requires HasClosed(table)
    ensures i < |table| && table[i].Closed? && forall j :: 0 <= j < i ==> table[j].Opened?
  {
    if table[0].Closed? then 0
    else
      assert forall i :: 0 < i < |table| ==> table[1..][i - 1] == table[i];
      1 + FirstClosed(table[1..])
  }

  /** The test of a transfer: the slot is open, and the size passes against the recorded one. */
  ghost predicate Passes(table: seq<Slot>, index: int, size: Word) {
    0 <= index < |table| && table[index].Opened? && Accepts(size, table[index].size)
  }

  /**
   * What each call asks of its arguments. Index 16, which lies behind the table, is left out. Data
   * is written through a slot only as far as the partition reaches.
   */
  ghost predicate Allowed(st: State, ss: nat, call: Call) {
    && Shaped(st.disk, ss) && |st.table| == MAX_OPEN_FILES
    && match call
       case Change(op) =>
         && !op.Overwrite? && Layout(st.disk, ss) && Enabled(st.disk, ss, op)
         && (op.AddFile? || op.RemoveFile? ==> HasClosed(st.table))
       case Open(s) => s < |st.disk| && HasClosed(st.table)
       case Close(index) => index != MAX_OPEN_FILES
       case Write(index, size, data) =>
         && index != MAX_OPEN_FILES
         && (Passes(st.table, index, size) ==>
               |data| == size - 1 && HasRoom(st.disk, ss, st.table[index].s, |data|))
  }

  ghost function Next(st: State, ss: nat, call: Call): State
    requires Allowed(st, ss, call)
  {
    match call
    case Change(op) => st.(disk := Applied(st.disk, ss, op))
    case Open(s) =>
      if st.disk[s][0] == SECTOR_FREE then st
      else st.(table := st.table[FirstClosed(st.table) := Opened(s, SizeOf(st.disk, ss, s))])
    case Close(index) => if 0 <= index < MAX_OPEN_FILES then st.(table := st.table[index := Closed]) else st
    case Write(index, size, data) =>
      if Passes(st.table, index, size) then st.(disk := WriteData(st.disk, ss, st.table[index].s, data)) else st
  }

  // What makes sessions safe.

  /** The slot, if it is open, names a live file and has its size on record. */
  ghost predicate IsHonest(d: Disk, ss: nat, slot: Slot)
    requires Shaped(d, ss)
  {
    slot.Opened? ==> IsLive(d, ss, slot.s) && slot.size == SizeOf(d, ss, slot.s)
  }

  ghost predicate Honest(st: State, ss: nat)
    requires Shaped(st.disk, ss)
  {
    forall i :: 0 <= i < |st.table| ==> IsHonest(st.disk, ss, st.table[i])
  }

  /** The call does not end the file that the slot names. */
  ghost predicate Sparing(d: Disk, ss: nat, op: Op, slot: Slot)
    requires Layout(d, ss) && Enabled(d, ss, op)
  {
    slot.Opened? ==> AliveAfter(d, ss, op, slot.s)
  }

  /** The call ends no file that an open slot names, and opens nothing but files. */
  ghost predicate Careful(st: State, ss: nat, call: Call)
    requires Allowed(st, ss, call)
  {
    match call
    case Change(op) => forall i :: 0 <= i < |st.table| ==> Sparing(st.disk, ss, op, st.table[i])
    case Open(s) => st.disk[s][0] == SECTOR_FREE || IsLive(st.disk, ss, s)
    case Close(index) => true
    case Write(index, size, data) => true
  }

  /** What a call does to the device, as a call on the device alone. */
  ghost function DeedOf(st: State, call: Call): (deed: seq<Op>)
    ensures |deed| <= 1
  {
    match call
    case Change(op) => [op]
    case Open(s) => []
    case Close(index) => []
    case Write(index, size, data) =>
      if Passes(st.table, index, size) then [Overwrite(st.table[index].s, data)] else []
  }

  /** An honest slot accepts only writes in the block of its own file. */
  lemma HonestDeed(st: State, ss: nat, call: Call)
    requires Layout(st.disk, ss) && Honest(st, ss) && Allowed(st, ss, call)
    ensures var deed := DeedOf(st, call);
      && (deed != [] ==> Enabled(st.disk, ss, deed[0]))
      && Next(st, ss, call).disk == if deed == [] then st.disk else Applied(st.disk, ss, deed[0])
  {
    hide Layout, Enabled, WriteData, Accepts, DataSectors;
    LayoutIsShaped(st.disk, ss);
    if call.Write? && Passes(st.table, call.index, call.size) {
      assert IsHonest(st.disk, ss, st.table[call.index]);
      SafeIsOwn(st.disk, ss, st.table[call.index].s, st.table[call.index].size, call.size);
      OverwriteIsEnabled(st.disk, ss, st.table[call.index].s, call.data);
    }
  }

  lemma OverwriteIsEnabled(d: Disk, ss: nat, s: nat, data: seq<Byte>)
    requires Layout(d, ss) && IsLive(d, ss, s) && InOwnBlock(d, ss, s, |data|)
    ensures Enabled(d, ss, Overwrite(s, data)) && HasRoom(d, ss, s, |data|)
    ensures Applied(d, ss, Overwrite(s, data)) == WriteData(d, ss, s, data)
  {
  }

  /**
   * From an honest table every call keeps the layout, and the table stays honest exactly when the
   * call is careful.
   */
  lemma StaysHonestIff(st: State, ss: nat, call: Call)
    requires Layout(st.disk, ss) && Honest(st, ss) && Allowed(st, ss, call)
    ensures var st' := Next(st, ss, call);
      && Layout(st'.disk, ss) && |st'.disk| == |st.disk| && |st'.table| == MAX_OPEN_FILES
      && (Honest(st', ss) <==> Careful(st, ss, call))
  {
    hide Layout, Honest, Enabled, Applied, WriteData;
    LayoutIsShaped(st.disk, ss);
    match call
    case Change(op) => ChangeStaysHonestIff(st, ss, op);
    case Open(s) => OpenStaysHonestIff(st, ss, s);
    case Close(index) => CloseStaysHonest(st, ss, index);
    case Write(index, size, data) =>
      HonestDeed(st, ss, call);
      if Passes(st.table, index, size) {
        WriteStaysHonest(st, ss, st.table[index].s, data);
      }
  }

  lemma SlotStaysHonestIff(d: Disk, ss: nat, op: Op, slot: Slot)
    requires Layout(d, ss) && Enabled(d, ss, op) && IsHonest(d, ss, slot)
    ensures Shaped(Applied(d, ss, op), ss)
    ensures IsHonest(Applied(d, ss, op), ss, slot) <==> Sparing(d, ss, op, slot)
  {
    hide Applied, Enabled, AliveAfter;
    StepKeepsLayout(d, ss, op);
    if slot.Opened? {
      StepLives(d, ss, op, slot.s);
      if IsLive(Applied(d, ss, op), ss, slot.s) {
        StepKeepsSize(d, ss, op, slot.s);
      }
    }
  }

  lemma ChangeStaysHonestIff(st: State, ss: nat, op: Op)
    requires Layout(st.disk, ss) && Honest(st, ss) && Allowed(st, ss, Change(op))
    ensures var e := Applied(st.disk, ss, op);
      && Layout(e, ss) && |e| == |st.disk|
      && (Honest(st.(disk := e), ss) <==> Careful(st, ss, Change(op)))
  {
    hide Layout, Enabled, Applied, IsHonest, Sparing;
    LayoutIsShaped(st.disk, ss);
    StepKeepsLayout(st.disk, ss, op);
    LayoutIsShaped(Applied(st.disk, ss, op), ss);
    forall i | 0 <= i < |st.table|
      ensures IsHonest(Applied(st.disk, ss, op), ss, st.table[i]) <==> Sparing(st.disk, ss, op, st.table[i])
    {
      SlotStaysHonestIff(st.disk, ss, op, st.table[i]);
    }
  }

  lemma OpenStaysHonestIff(st: State, ss: nat, s: nat)
    requires Shaped(st.disk, ss) && Honest(st, ss) && Allowed(st, ss, Open(s))
    ensures Honest(Next(st, ss, Open(s)), ss) <==> Careful(st, ss, Open(s))
    ensures |Next(st, ss, Open(s)).table| == MAX_OPEN_FILES
  {
    var i, st' := FirstClosed(st.table), Next(st, ss, Open(s));
    if st.disk[s][0] != SECTOR_FREE {
      assert st'.table[i] == Opened(s, SizeOf(st.disk, ss, s));
      assert forall j :: 0 <= j < |st.table| && j != i ==> st'.table[j] == st.table[j];
    }
  }

  lemma CloseStaysHonest(st: State, ss: nat, index: int)
    requires Shaped(st.disk, ss) && Honest(st, ss) && Allowed(st, ss, Close(index))
    ensures Honest(Next(st, ss, Close(index)), ss)
  {
  }

  lemma WriteStaysHonest(st: State, ss: nat, s: nat, data: seq<Byte>)
    requires Layout(st.disk, ss) && Honest(st, ss) && Enabled(st.disk, ss, Overwrite(s, data))
    ensures HasRoom(st.disk, ss, s, |data|)
    ensures var e := WriteData(st.disk, ss, s, data);
      Layout(e, ss) && |e| == |st.disk| && Honest(st.(disk := e), ss)
  {
    hide Layout, WriteData;
    LayoutIsShaped(st.disk, ss);
    OwnWriteStaysInside(st.disk, ss, s, data);
  }

  // Whole sessions.

  /** Every call is made where it is allowed, on whatever the calls before it left. */
  ghost predicate Runnable(st: State, ss: nat, calls: seq<Call>)
    decreases |calls|
  {
    calls == [] || (Allowed(st, ss, calls[0]) && Runnable(Next(st, ss, calls[0]), ss, calls[1..]))
  }

  ghost function StateAfter(st: State, ss: nat, calls: seq<Call>): (st': State)
    requires Runnable(st, ss, calls)
    decreases |calls|
  {
    if calls == [] then st else StateAfter(Next(st, ss, calls[0]), ss, calls[1..])
  }

  /** No call of the session ends a file that a slot names, or opens what is no file. */
  ghost predicate AllCareful(st: State, ss: nat, calls: seq<Call>)
    requires Runnable(st, ss, calls)
    decreases |calls|
  {
    calls == [] || (Careful(st, ss, calls[0]) && AllCareful(Next(st, ss, calls[0]), ss, calls[1..]))
  }

  /** What the session does to the device. */
  ghost function DeedsOf(st: State, ss: nat, calls: seq<Call>): seq<Op>
    requires Runnable(st, ss, calls)
    decreases |calls|
  {
    if calls == [] then [] else DeedOf(st, calls[0]) + DeedsOf(Next(st, ss, calls[0]), ss, calls[1..])
  }

  ghost predicate IsSound(st: State, ss: nat) {
    Layout(st.disk, ss) && Honest(st, ss)
  }

  /**
   * A session in which no file is deleted while a slot names it keeps the layout and an honest
   * table throughout, and is a legal run of calls on the device: each write that the code accepts
   * by the recorded size stays in its file's own block.
   */
  lemma {:induction false} SessionIsRun(st: State, ss: nat, calls: seq<Call>)
    requires IsSound(st, ss) && Runnable(st, ss, calls) && AllCareful(st, ss, calls)
    ensures var deeds, st' := DeedsOf(st, ss, calls), StateAfter(st, ss, calls);
      && IsSound(st', ss) && |st'.disk| == |st.disk|
      && Legal(st.disk, ss, deeds) && st'.disk == After(st.disk, ss, deeds)
    decreases |calls|
  {
    hide Layout, Honest, Allowed, Next, Careful, DeedOf;
    if calls != [] {
      StaysHonestIff(st, ss, calls[0]);
      HonestDeed(st, ss, calls[0]);
      SessionIsRun(Next(st, ss, calls[0]), ss, calls[1..]);
      DeedFirst(st.disk, ss, DeedOf(st, calls[0]), DeedsOf(Next(st, ss, calls[0]), ss, calls[1..]));
    }
  }

  /** A run that begins with at most one call. */
  lemma DeedFirst(d: Disk, ss: nat, deed: seq<Op>, rest: seq<Op>)
    requires Layout(d, ss) && |deed| <= 1
    requires deed != [] ==> Enabled(d, ss, deed[0]) && Layout(Applied(d, ss, deed[0]), ss)
    requires Legal(if deed == [] then d else Applied(d, ss, deed[0]), ss, rest)
    ensures Legal(d, ss, deed + rest)
    ensures After(d, ss, deed + rest) == After(if deed == [] then d else Applied(d, ss, deed[0]), ss, rest)
  {
    hide Layout, Enabled, Applied;
    if deed == [] {
      assert deed + rest == rest;
    } else {
      assert (deed + rest)[1..] == rest && (deed + rest)[0] == deed[0];
    }
  }

  /**
   * So after any such session the markers decompose in exactly one way into free sectors and
   * disjoint blocks, no sector is lost, and each open slot names a live file whose size it records.
   */
  lemma SessionKeepsLayout(st: State, ss: nat, calls: seq<Call>)
    requires IsSound(st, ss) && Runnable(st, ss, calls) && AllCareful(st, ss, calls)
    ensures var st' := StateAfter(st, ss, calls);
      var e := st'.disk;
      && IsSound(st', ss) && |e| == |st.disk|
      && (forall k :: 1 <= k < |e| && e[k][0] != SECTOR_FREE ==> exists s :: InBlock(e, ss, s, k))
      && (forall k, s, t :: 1 <= k < |e| && InBlock(e, ss, s, k) && InBlock(e, ss, t, k) ==> s == t)
      && FreeSectors(e, ss, 1) + BlockSectors(e, ss, 1) == |e| - 1
  {
    hide Runnable, AllCareful, DeedsOf, StateAfter, InBlock, Legal, After, Honest;
    SessionIsRun(st, ss, calls);
    RunKeepsLayout(st.disk, ss, DeedsOf(st, ss, calls));
  }

  /** The same from a freshly formatted device on which nothing is open. */
  lemma FormattedSessions(d: Disk, ss: Word, capacity: Word, root: Word, calls: seq<Call>)
    requires Shaped(d, ss) && |d| >= 3
    ensures var st := State(Formatted(d, ss, capacity, root), NothingOpen());
      && IsSound(st, ss) && |st.disk| == |d|
      && (Runnable(st, ss, calls) && AllCareful(st, ss, calls) ==>
            && IsSound(StateAfter(st, ss, calls), ss)
            && FreeSectors(StateAfter(st, ss, calls).disk, ss, 1) + BlockSectors(StateAfter(st, ss, calls).disk, ss, 1)
               == |d| - 1)
  {
    hide Formatted, Runnable, AllCareful, StateAfter;
    FormattedLayout(d, ss, capacity, root);
    var st := State(Formatted(d, ss, capacity, root), NothingOpen());
    if Runnable(st, ss, calls) && AllCareful(st, ss, calls) {
      SessionKeepsLayout(st, ss, calls);
    }
  }

  function NothingOpen(): seq<Slot> {
    seq(MAX_OPEN_FILES, _ => Closed)
  }

  /**
   * From a sound state a marker changes only where the call allocates the block that covers the
   * sector or frees the one that did: opens, closes and accepted writes move none.
   */
  lemma OnlyAllocationMovesMarkers(st: State, ss: nat, call: Call, k: nat)
    requires IsSound(st, ss) && Allowed(st, ss, call) && 1 <= k < |st.disk|
    ensures var d, e := st.disk, Next(st, ss, call).disk;
      && Layout(e, ss) && |e| == |d|
      && (e[k][0] != d[k][0] ==>
            && call.Change?
            && exists t: nat ::
                 || (InBlock(d, ss, t, k) && !AliveAfter(d, ss, call.op, t))
                 || (InBlock(e, ss, t, k) && AliveAfter(d, ss, call.op, t) && !IsLive(d, ss, t)))
  {
    hide Layout, Enabled, Applied, AliveAfter, InBlock, WriteData, Honest;
    LayoutIsShaped(st.disk, ss);
    StaysHonestIff(st, ss, call);
    LayoutIsShaped(Next(st, ss, call).disk, ss);
    if call.Change? {
      Runs.OnlyAllocationMovesMarkers(st.disk, ss, call.op, k);
    } else if call.Write? && Passes(st.table, call.index, call.size) {
      WriteFrame(st.disk, ss, st.table[call.index].s, call.data);
    }
  }

  /** The session does not touch the file at sector t. */
  ghost predicate Leaves(st: State, ss: nat, calls: seq<Call>, t: nat)
    requires IsSound(st, ss) && Runnable(st, ss, calls) && AllCareful(st, ss, calls)
  {
    SessionIsRun(st, ss, calls);
    Spared(st.disk, ss, DeedsOf(st, ss, calls), t)
  }

  /**
   * What an accepted write stored is what the file holds after any session that does not touch it,
   * and every slot that then names the file still accepts a transfer of that size.
   */
  lemma WrittenDataSurvives(st: State, ss: nat, index: int, size: Word, data: seq<Byte>, calls: seq<Call>)
    requires IsSound(st, ss) && Allowed(st, ss, Write(index, size, data)) && Passes(st.table, index, size)
    requires var x := Next(st, ss, Write(index, size, data));
      IsSound(x, ss) && Runnable(x, ss, calls) && AllCareful(x, ss, calls)
      && Leaves(x, ss, calls, st.table[index].s)
    ensures var s, st' := st.table[index].s, StateAfter(Next(st, ss, Write(index, size, data)), ss, calls);
      && IsSound(st', ss) && IsLive(st'.disk, ss, s) && HasRoom(st'.disk, ss, s, |data|)
      && ReadData(st'.disk, ss, s, |data|) == data
      && forall i :: 0 <= i < |st'.table| && st'.table[i].Opened? && st'.table[i].s == s ==>
           Passes(st'.table, i, size)
  {
    hide Runnable, AllCareful, StateAfter, DeedsOf, Spared, Legal, After, ReadData, WriteData, Accepts, Layout;
    var s, call := st.table[index].s, Write(index, size, data);
    var x := Next(st, ss, call);
    assert IsHonest(st.disk, ss, st.table[index]);
    LayoutIsShaped(st.disk, ss);
    HonestDeed(st, ss, call);
    SessionIsRun(x, ss, calls);
    Runs.WrittenDataSurvives(st.disk, ss, s, data, DeedsOf(x, ss, calls));
    var st' := StateAfter(x, ss, calls);
    LayoutIsShaped(st'.disk, ss);
    forall i | 0 <= i < |st'.table| && st'.table[i].Opened? && st'.table[i].s == s
      ensures Passes(st'.table, i, size)
    {
      assert IsHonest(st'.disk, ss, st'.table[i]);
    }
  }

  /** Among all its calls the session touches the directory by its additions and removals only. */
  ghost predicate KeepsTo(st: State, hs: seq<nat>, calls: seq<Call>)
    requires IsSound(st, SS) && Runnable(st, SS, calls) && AllCareful(st, SS, calls)
  {
    SessionIsRun(st, SS, calls);
    IsChain(st.disk, hs) && RespectsAll(st.disk, hs, DeedsOf(st, SS, calls))
  }

  /**
   * In such a session a directory that is touched only by its additions, short of overflow, and
   * removals keeps a well-formed chain, whatever else is opened, written, created and deleted,
   * and its contents are what those additions and removals, in order, make of it.
   */
  lemma DirectoryOverSessions(st: State, hs: seq<nat>, calls: seq<Call>)
    requires IsSound(st, SS) && Runnable(st, SS, calls) && AllCareful(st, SS, calls) && KeepsTo(st, hs, calls)
    ensures var d, deeds := st.disk, DeedsOf(st, SS, calls);
      && Legal(d, SS, deeds) && RespectsAll(d, hs, deeds)
      && var e, gs := StateAfter(st, SS, calls).disk, ChainAfter(d, hs, deeds);
      && IsChain(e, gs) && gs[0] == hs[0] && Folds(Contents(d, hs), EditsOf(d, hs, deeds), Contents(e, gs))
  {
    hide Runnable, AllCareful, StateAfter, DeedsOf, RespectsAll, Legal, After, Folds, IsChain, Contents;
    SessionIsRun(st, SS, calls);
    DirectoryOverRuns(st.disk, hs, DeedsOf(st, SS, calls));
  }

  /** Among all its calls the session only adds to the directory. */
  ghost predicate AddsTo(st: State, hs: seq<nat>, calls: seq<Call>)
    requires IsSound(st, SS) && Runnable(st, SS, calls) && AllCareful(st, SS, calls)
  {
    SessionIsRun(st, SS, calls);
    IsChain(st.disk, hs) && Packed(Contents(st.disk, hs)) && OnlyAdds(st.disk, hs, DeedsOf(st, SS, calls))
  }

  /** A directory that such a session only adds to is an append-only sequence. */
  lemma AppendOnlyOverSessions(st: State, hs: seq<nat>, calls: seq<Call>)
    requires IsSound(st, SS) && Runnable(st, SS, calls) && AllCareful(st, SS, calls) && AddsTo(st, hs, calls)
    ensures var d, deeds := st.disk, DeedsOf(st, SS, calls);
      && Legal(d, SS, deeds) && RespectsAll(d, hs, deeds)
      && (forall k :: 0 <= k < |EditsOf(d, hs, deeds)| ==> EditsOf(d, hs, deeds)[k].Insert?)
      && var e, gs := StateAfter(st, SS, calls).disk, ChainAfter(d, hs, deeds);
      && IsChain(e, gs) && gs[0] == hs[0] && Packed(Contents(e, gs))
      && Flat(Contents(e, gs)) == Flat(Contents(d, hs)) + FilesOf(EditsOf(d, hs, deeds))
  {
    hide Runnable, AllCareful, StateAfter, DeedsOf, OnlyAdds, Legal, After, IsChain, Contents, Packed, Flat;
    SessionIsRun(st, SS, calls);
    AppendOnlyOverRuns(st.disk, hs, DeedsOf(st, SS, calls));
  }

  // A slot that has gone stale.

  /** On a small device with room from sector i on, a file goes there. */
  lemma CreateNext(d: Disk, i: nat, name: seq<Byte>, size: Word, n: nat)
    requires Layout(d, SS) && |d| == 6 && DataSectors(size, SS) == n && 0 < i && i + n < 6
    requires forall k :: 0 <= k < 6 ==> (d[k][0] == SECTOR_FREE <==> i <= k)
    ensures Place(d, SS, size) == i
    ensures var e := CreateAt(d, SS, i, name, size);
      && Layout(e, SS) && e[i][0] == SECTOR_HEADER && SizeOf(e, SS, i) == size
      && (forall k :: 0 <= k < 6 && !(i <= k <= i + n) ==> e[k] == d[k])
      && (forall k :: i <= k <= i + n ==> e[k][0] != SECTOR_FREE)
  {
    hide CreateAt, Layout, InBlock;
    LayoutIsShaped(d, SS);
    assert Fits(Marks(d), i, n);
    forall j | 0 <= j < i
      ensures !Fits(Marks(d), j, n)
    {
      NoFitAcross(Marks(d), j, n, j);
    }
    LeastFitIs(Marks(d), n, 0, 6, i);
    CreateKeepsLayout(d, SS, i, name, size);
    BlockOfNew(d, CreateAt(d, SS, i, name, size), i, n);
  }

  lemma BlockOfNew(d: Disk, e: Disk, i: nat, n: nat)
    requires Layout(e, SS) && |e| == |d| && IsLive(e, SS, i) && BlockEnd(e, SS, i) == i + 1 + n
    ensures forall k :: 0 <= k < |d| && !(i <= k <= i + n) ==> !InBlock(e, SS, i, k)
    ensures forall k :: i <= k <= i + n ==> k < |d| && e[k][0] != SECTOR_FREE
  {
    hide DataSectors;
    forall k | i <= k <= i + n
      ensures k < |d| && e[k][0] != SECTOR_FREE
    {
      assert InBlock(e, SS, i, k);
    }
  }

  /** What becomes of sectors 1 to 5 when a file of 100 bytes is created, deleted, and two small ones follow. */
  lemma Reused(d: Disk, name: seq<Byte>)
    requires Shaped(d, SS) && |d| == 6
    requires forall k :: 0 <= k < 6 ==> (d[k][0] == SECTOR_FREE <==> 1 <= k)
    ensures var d1 := CreateAt(d, SS, 1, name, 100);
      && Layout(d, SS) && Place(d, SS, 100) == 1
      && Layout(d1, SS) && d1[1][0] == SECTOR_HEADER && SizeOf(d1, SS, 1) == 100
      && var d2 := Release(d1, SS, 1);
      && Layout(d2, SS) && Place(d2, SS, 30) == 1
      && var d3 := CreateAt(d2, SS, 1, name, 30);
      && Layout(d3, SS) && Place(d3, SS, 30) == 3
      && var d4 := CreateAt(d3, SS, 3, name, 30);
      Layout(d4, SS) && |d4| == 6 && IsLive(d4, SS, 1) && IsLive(d4, SS, 3)
  {
    hide CreateAt, Release, Place;
    FewSectors();
    hide DataSectors;
    CreateNext(d, 1, name, 100, 4);
    var d1 := CreateAt(d, SS, 1, name, 100);
    ReleaseKeepsLayout(d1, SS, 1);
    var d2 := Release(d1, SS, 1);
    assert forall k :: 1 <= k < 6 ==> InBlock(d1, SS, 1, k);
    CreateNext(d2, 1, name, 30, 1);
    CreateNext(CreateAt(d2, SS, 1, name, 30), 3, name, 30, 1);
  }

  lemma FewSectors()
    ensures DataSectors(30, SS) == 1 && DataSectors(61, SS) == 2 && DataSectors(100, SS) == 4
    ensures DataSectors(155, SS) == 6
  {
  }

  /** 62 bytes from sector 1 on reach the header of the file at sector 3. */
  lemma HeaderIsOverwritten(d: Disk, data: seq<Byte>)
    requires Layout(d, SS) && |d| == 6 && IsLive(d, SS, 3)
    requires |data| == 62 && forall i :: 0 <= i < 62 ==> data[i] == 0xff
    ensures HasRoom(d, SS, 1, 62) && !Layout(WriteData(d, SS, 1, data), SS)
  {
    FewSectors();
    hide DataSectors, WriteData;
    var e := WriteData(d, SS, 1, data);
    WriteFrame(d, SS, 1, data);
    forall j | 11 <= j < 15
      ensures e[3][j] == 0xff
    {
      PlaceIsUnique(j + 30, SS, 1, j - 1);
      WrittenBytes(d, SS, 1, data, j + 30);
    }
    assert SizeOf(e, SS, 3) == 0xffff_ffff;
    SectorsGrow(155, 0xffff_ffff, SS);
    assert IsLive(e, SS, 3);
  }

  lemma CallFirst(st: State, ss: nat, calls: seq<Call>)
    requires calls != [] && Allowed(st, ss, calls[0]) && Runnable(Next(st, ss, calls[0]), ss, calls[1..])
    ensures Runnable(st, ss, calls) && StateAfter(st, ss, calls) == StateAfter(Next(st, ss, calls[0]), ss, calls[1..])
  {
  }

  /** A file is opened and deleted, and its sectors go to two others. */
  function Reuse(name: seq<Byte>): seq<Call> {
    [Change(CreateFile(name, 100)), Open(1), Change(Delete(1)),
     Change(CreateFile(name, 30)), Change(CreateFile(name, 30))]
  }

  /**
   * On any device of five free sectors behind the header such a session leaves a slot with the
   * size of the deleted file on record. A write through it is accepted, overwrites the header of
   * a file that the slot does not name, and breaks the layout.
   */
  lemma StaleSlotBreaksLayout(d: Disk, name: seq<Byte>, data: seq<Byte>)
    requires Shaped(d, SS) && |d| == 6 && |data| == 62 && forall i :: 0 <= i < 62 ==> data[i] == 0xff
    requires forall k :: 0 <= k < 6 ==> (d[k][0] == SECTOR_FREE <==> 1 <= k)
    ensures var st, write := State(d, NothingOpen()), Write(0, 63, data);
      && IsSound(st, SS) && Runnable(st, SS, Reuse(name))
      && var x := StateAfter(st, SS, Reuse(name));
      && Layout(x.disk, SS) && Allowed(x, SS, write) && Passes(x.table, 0, 63)
      && !Layout(Next(x, SS, write).disk, SS)
  {
    hide Layout, CreateAt, Release, Place, WriteData, HasRoom, DataSectors;
    Reused(d, name);
    var d1 := CreateAt(d, SS, 1, name, 100);
    LayoutIsShaped(d1, SS);
    var d2 := Release(d1, SS, 1);
    LayoutIsShaped(d2, SS);
    var d3 := CreateAt(d2, SS, 1, name, 30);
    LayoutIsShaped(d3, SS);
    var d4 := CreateAt(d3, SS, 3, name, 30);
    LayoutIsShaped(d4, SS);
    HeaderIsOverwritten(d4, data);
    var none, one := NothingOpen(), NothingOpen()[0 := Opened(1, 100)];
    var calls := Reuse(name);
    assert none[0].Closed?;
    CallFirst(State(d3, one), SS, calls[4..]);
    CallFirst(State(d2, one), SS, calls[3..]);
    CallFirst(State(d1, one), SS, calls[2..]);
    CallFirst(State(d1, none), SS, calls[1..]);
    CallFirst(State(d, none), SS, calls);
  }
}
