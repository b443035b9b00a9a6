/**
 * A directory over whole runs of the file system, in which its own additions and removals are
 * interleaved with calls that concern other files and directories.
 */
module DirectoryRuns {
  import opened Words
  import opened Sectors
  import opened Extents
  import opened Chains
  import opened Directories
  import opened Removal
  import opened Runs

  /** What a call does to the list of handles that a directory holds. */
  datatype Edit = Insert(f: Word) | Take(i: nat, j: nat)

  ghost predicate HasEntry(dir: seq<Extent>, edit: Edit) {
    edit.Insert? || (edit.i < |dir| && edit.j < |dir[edit.i]|)
  }

  ghost function Edited(dir: seq<Extent>, edit: Edit): (dir': seq<Extent>)
    requires dir != [] && HasEntry(dir, edit)
    ensures dir' != []
  {
    match edit
    case Insert(f) => Added(dir, f)
    case Take(i, j) => Removed(dir, i, j)
  }

  /** The call adds to or removes from the directory itself. */
  predicate Concerns(op: Op, hs: seq<nat>) {
    (op.AddFile? && op.hs == hs) || (op.RemoveFile? && op.hs == hs)
  }

  function EditOf(op: Op): Edit
    requires op.AddFile? || op.RemoveFile?
  {
    if op.AddFile? then Insert(op.f) else Take(op.i, op.j)
  }

  /** The call touches the directory at most as one of its additions or removals. */
  ghost predicate Respects(d: Disk, op: Op, hs: seq<nat>)
    requires IsChain(d, hs) && Enabled(d, SS, op)
  {
    Concerns(op, hs) || forall t :: t in hs ==> !Touches(d, SS, op, t)
  }

  /** The call is an addition for which the last extent has no room. */
  ghost predicate Overflows(d: Disk, op: Op, hs: seq<nat>)
    requires IsChain(d, hs)
  {
    Concerns(op, hs) && op.AddFile? && TailOverflow(Contents(d, hs))
  }

  ghost function NextChain(d: Disk, op: Op, hs: seq<nat>): seq<nat>
    requires IsChain(d, hs) && Enabled(d, SS, op)
  {
    if !Concerns(op, hs) then hs
    else if op.AddFile? then AddEntry(d, hs, op.f).1
    else RemoveEntry(d, hs, op.i, op.j).1
  }

  ghost function NextContents(dir: seq<Extent>, op: Op, hs: seq<nat>): (dir': seq<Extent>)
    requires dir != [] && (Concerns(op, hs) ==> HasEntry(dir, EditOf(op)))
    ensures dir' != []
  {
    if Concerns(op, hs) then Edited(dir, EditOf(op)) else dir
  }

  /** A call that touches no extent of a directory leaves it as it was. */
  lemma OthersKeepDirectory(d: Disk, op: Op, hs: seq<nat>)
    requires IsChain(d, hs) && Enabled(d, SS, op) && forall t :: t in hs ==> !Touches(d, SS, op, t)
    ensures IsChain(Applied(d, SS, op), hs) && Contents(Applied(d, SS, op), hs) == Contents(d, hs)
  {
    hide Applied, Enabled, Touches;
    StepKeepsLayout(d, SS, op);
    var e := Applied(d, SS, op);
    forall i | 0 <= i < |hs| && NodeAt(d, hs, i)
      ensures e[hs[i]] == d[hs[i]] && e[hs[i] + 1] == d[hs[i] + 1]
    {
      NodeBlock(d, hs[i]);
      StepKeepsFile(d, SS, op, hs[i]);
    }
    ChainFrame(d, e, hs);
  }

  /** Each call does to the contents of a directory exactly its edit, if it concerns it at all. */
  lemma StepKeepsDirectory(d: Disk, op: Op, hs: seq<nat>)
    requires IsChain(d, hs) && Enabled(d, SS, op) && Respects(d, op, hs) && !Overflows(d, op, hs)
    ensures Contents(d, hs) != [] && (Concerns(op, hs) ==> HasEntry(Contents(d, hs), EditOf(op)))
    ensures var e, gs := Applied(d, SS, op), NextChain(d, op, hs);
      IsChain(e, gs) && gs[0] == hs[0] && Contents(e, gs) == NextContents(Contents(d, hs), op, hs)
  {
    hide IsChain, Contents, AddEntry, RemoveEntry, TailOverflow, CanAdd, Touches, Removed, Added;
    ContentsLength(d, hs);
    if !Concerns(op, hs) {
      OthersKeepDirectory(d, op, hs);
    } else if op.AddFile? {
      AddEntryAdds(d, hs, op.f);
      ContentsLength(AddEntry(d, hs, op.f).0, AddEntry(d, hs, op.f).1);
      FirstStays(AddEntry(d, hs, op.f).1, hs);
    } else {
      RemoveEntryRemoves(d, hs, op.i, op.j);
    }
  }

  // Whole runs.

  /** Every call of the run respects the directory, wherever its chain is by then. */
  ghost predicate RespectsAll(d: Disk, hs: seq<nat>, run: seq<Op>)
    requires IsChain(d, hs) && Legal(d, SS, run)
    decreases |run|
  {
    run == [] ||
    (Respects(d, run[0], hs) && !Overflows(d, run[0], hs) &&
     (StepKeepsDirectory(d, run[0], hs);
      StepKeepsLayout(d, SS, run[0]);
      RespectsAll(Applied(d, SS, run[0]), NextChain(d, run[0], hs), run[1..])))
  }

  /** The edits of the directory that the run makes, in order. */
  ghost function EditsOf(d: Disk, hs: seq<nat>, run: seq<Op>): seq<Edit>
    requires IsChain(d, hs) && Legal(d, SS, run) && RespectsAll(d, hs, run)
    decreases |run|
  {
    if run == [] then []
    else
      StepKeepsDirectory(d, run[0], hs);
      StepKeepsLayout(d, SS, run[0]);
      (if Concerns(run[0], hs) then [EditOf(run[0])] else [])
        + EditsOf(Applied(d, SS, run[0]), NextChain(d, run[0], hs), run[1..])
  }

  /** Where the chain of the directory is after the run. */
  ghost function ChainAfter(d: Disk, hs: seq<nat>, run: seq<Op>): seq<nat>
    requires IsChain(d, hs) && Legal(d, SS, run) && RespectsAll(d, hs, run)
    decreases |run|
  {
    if run == [] then hs
    else
      StepKeepsDirectory(d, run[0], hs);
      StepKeepsLayout(d, SS, run[0]);
      ChainAfter(Applied(d, SS, run[0]), NextChain(d, run[0], hs), run[1..])
  }

  /** The extents dir' are what the edits, one after the other, make of the extents dir. */
  ghost predicate Folds(dir: seq<Extent>, edits: seq<Edit>, dir': seq<Extent>)
    decreases |edits|
  {
    dir != [] &&
    if edits == [] then dir' == dir
    else HasEntry(dir, edits[0]) && Folds(Edited(dir, edits[0]), edits[1..], dir')
  }

  /**
   * Over any run in which a directory is touched only by additions that do not overflow and by
   * removals, among whatever other calls, its chain stays well formed, and its contents are what
   * those additions and removals, in order, make of it.
   */
  lemma {:induction false} DirectoryOverRuns(d: Disk, hs: seq<nat>, run: seq<Op>)
    requires IsChain(d, hs) && Legal(d, SS, run) && RespectsAll(d, hs, run)
    ensures var e, gs := After(d, SS, run), ChainAfter(d, hs, run);
      IsChain(e, gs) && gs[0] == hs[0] && Folds(Contents(d, hs), EditsOf(d, hs, run), Contents(e, gs))
    decreases |run|
  {
    hide IsChain, Contents, Applied, NextChain, Edited, Respects, Overflows, Enabled, HasEntry, Concerns, EditOf;
    ContentsLength(d, hs);
    if run != [] {
      StepKeepsDirectory(d, run[0], hs);
      StepKeepsLayout(d, SS, run[0]);
      var x, gs := Applied(d, SS, run[0]), NextChain(d, run[0], hs);
      DirectoryOverRuns(x, gs, run[1..]);
      var rest := EditsOf(x, gs, run[1..]);
      FoldsOneMore(Contents(d, hs), run[0], hs, rest, Contents(After(x, SS, run[1..]), ChainAfter(x, gs, run[1..])));
    }
  }

  lemma FoldsOneMore(dir: seq<Extent>, op: Op, hs: seq<nat>, rest: seq<Edit>, dir': seq<Extent>)
    requires dir != [] && (Concerns(op, hs) ==> HasEntry(dir, EditOf(op)))
    requires Folds(NextContents(dir, op, hs), rest, dir')
    ensures Folds(dir, (if Concerns(op, hs) then [EditOf(op)] else []) + rest, dir')
  {
    if Concerns(op, hs) {
      assert ([EditOf(op)] + rest)[1..] == rest;
    } else {
      assert [] + rest == rest;
    }
  }

  // Runs that only add.

  ghost function FilesOf(edits: seq<Edit>): seq<Word>
    requires forall k :: 0 <= k < |edits| ==> edits[k].Insert?
  {
    if edits == [] then [] else [edits[0].f] + FilesOf(edits[1..])
  }

  /** Additions that find a packed directory append, one after the other. */
  lemma {:induction false} FoldedAdditions(dir: seq<Extent>, edits: seq<Edit>, dir': seq<Extent>)
    requires Packed(dir) && Folds(dir, edits, dir') && forall k :: 0 <= k < |edits| ==> edits[k].Insert?
    ensures Packed(dir') && Flat(dir') == Flat(dir) + FilesOf(edits)
    decreases |edits|
  {
    hide Packed, Flat, Added, TailOverflow;
    if edits != [] {
      var next := Added(dir, edits[0].f);
      AddedAppends(dir, edits[0].f);
      FoldedAdditions(next, edits[1..], dir');
      assert Flat(dir) + [edits[0].f] + FilesOf(edits[1..]) == Flat(dir) + ([edits[0].f] + FilesOf(edits[1..]));
    }
  }

  /** The run touches the directory by additions only, whether they overflow or not. */
  ghost predicate OnlyAdds(d: Disk, hs: seq<nat>, run: seq<Op>)
    requires IsChain(d, hs) && Legal(d, SS, run) && Packed(Contents(d, hs))
    decreases |run|
  {
    run == [] ||
    (Respects(d, run[0], hs) && !(Concerns(run[0], hs) && run[0].RemoveFile?) &&
     (PackedStep(d, run[0], hs);
      StepKeepsLayout(d, SS, run[0]);
      OnlyAdds(Applied(d, SS, run[0]), NextChain(d, run[0], hs), run[1..])))
  }

  lemma PackedStep(d: Disk, op: Op, hs: seq<nat>)
    requires IsChain(d, hs) && Enabled(d, SS, op) && Respects(d, op, hs) && Packed(Contents(d, hs))
    requires !(Concerns(op, hs) && op.RemoveFile?)
    ensures !Overflows(d, op, hs)
    ensures var e, gs := Applied(d, SS, op), NextChain(d, op, hs);
      IsChain(e, gs) && Packed(Contents(e, gs))
  {
    hide IsChain, Contents, Applied, NextChain, Packed, Respects, Enabled, Added, TailOverflow;
    if op.AddFile? {
      AddedAppends(Contents(d, hs), op.f);
    }
    StepKeepsDirectory(d, op, hs);
  }

  /** On such runs nothing overflows. */
  lemma {:induction false} AddingRespects(d: Disk, hs: seq<nat>, run: seq<Op>)
    requires IsChain(d, hs) && Legal(d, SS, run) && Packed(Contents(d, hs)) && OnlyAdds(d, hs, run)
    ensures RespectsAll(d, hs, run)
    ensures forall k :: 0 <= k < |EditsOf(d, hs, run)| ==> EditsOf(d, hs, run)[k].Insert?
    decreases |run|
  {
    hide IsChain, Contents, Applied, NextChain, Packed, Respects, Enabled, Overflows;
    ContentsLength(d, hs);
    if run != [] {
      PackedStep(d, run[0], hs);
      StepKeepsLayout(d, SS, run[0]);
      AddingRespects(Applied(d, SS, run[0]), NextChain(d, run[0], hs), run[1..]);
    }
  }

  /**
   * A directory that is only added to, among whatever creations, deletions and writes of other
   * files, is an append-only sequence of the handles added.
   */
  lemma AppendOnlyOverRuns(d: Disk, hs: seq<nat>, run: seq<Op>)
    requires IsChain(d, hs) && Legal(d, SS, run) && Packed(Contents(d, hs)) && OnlyAdds(d, hs, run)
    ensures RespectsAll(d, hs, run)
    ensures forall k :: 0 <= k < |EditsOf(d, hs, run)| ==> EditsOf(d, hs, run)[k].Insert?
    ensures var e, gs := After(d, SS, run), ChainAfter(d, hs, run);
      && IsChain(e, gs) && gs[0] == hs[0] && Packed(Contents(e, gs))
      && Flat(Contents(e, gs)) == Flat(Contents(d, hs)) + FilesOf(EditsOf(d, hs, run))
  {
    hide IsChain, Contents, Packed, Flat, OnlyAdds, RespectsAll, EditsOf, ChainAfter, After, Legal, Folds, FilesOf;
    ContentsLength(d, hs);
    AddingRespects(d, hs, run);
    DirectoryOverRuns(d, hs, run);
    FoldedAdditions(Contents(d, hs), EditsOf(d, hs, run), Contents(After(d, SS, run), ChainAfter(d, hs, run)));
  }
}
