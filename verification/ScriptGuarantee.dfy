/** Which block lists are undone without trace in every run, read off the blocks alone. */
module ScriptGuarantee {
  import opened Common
  import opened PatchState
  import opened PatchRanges
  import opened PatchInvariants
  import opened ScriptRun
  import opened ScriptUndo
  import opened ScriptRestores

  /** Every run, whatever the registry and target it starts from and whatever is refused, gives x back. */
  ghost predicate AlwaysRestored(blocks: seq<Block>, x: int)
  {
    forall s, pad, w, undo ::
      IdsBelow(s) && UserMemory(s.mem) && Extends(pad) && x in s.mem && CleanlyUndone(s, blocks, pad, w, undo, x)
      ==> GivesBack(s, blocks, pad, w, undo, x)
  }

  /** Undoing the run leaves the byte the script found at x. */
  predicate GivesBack(s: State, blocks: seq<Block>, pad: Padding, w: nat -> Outcome, undo: nat -> bool, x: int)
    requires x in s.mem
  {
    var p := EnableUpTo(s, blocks, pad, w, |blocks|).0;
    var after := UndoAll(p.s, p.ids, undo).mem;
    x in after && after[x] == s.mem[x]
  }

  predicate InUserRange(b: Block) { 0 <= b.address && b.address + |b.bytes| <= TWO_TO_THE_63 }

  predicate BlocksApart(b: Block, c: Block) { Apart(b.address, |b.bytes|, c.address, |c.bytes|) }

  predicate CoversByte(b: Block, x: int) { Within(x, b.address, |b.bytes|) }

  /** Some run gets through the first k blocks: they lie in user memory and the patches among them are disjoint. */
  predicate Passable(blocks: seq<Block>, k: nat)
    requires k <= |blocks|
  {
    && (forall j | 0 <= j < k :: InUserRange(blocks[j]))
    && forall i, j | 0 <= i < j < k ::
         !blocks[i].intoAllocation && !blocks[j].intoAllocation ==> BlocksApart(blocks[i], blocks[j])
  }

  /** A patch of the script covers x before block k does. */
  predicate PatchedBefore(blocks: seq<Block>, k: nat, x: int)
    requires k <= |blocks|
  {
    exists j | 0 <= j < k :: !blocks[j].intoAllocation && CoversByte(blocks[j], x)
  }

  /** Every block that a run can write straight over x comes after a patch that covers x. */
  predicate NoSpillPossible(blocks: seq<Block>, x: int)
  {
    forall k | 0 <= k < |blocks| ::
      blocks[k].intoAllocation && CoversByte(blocks[k], x) && Passable(blocks, k + 1) ==> PatchedBefore(blocks, k, x)
  }

  ghost predicate NonEmptyBlocks(blocks: seq<Block>) { forall b :: b in blocks ==> b.bytes != [] }

  // --- A run's steps are possible ------------------------------------------------------------------

  /** The run has recorded a patch over at least this block. */
  predicate RecordsBlock(p: Progress, b: Block, id: nat)
  {
    id in p.ids && Lookup(p.s.patches, id).Some?
    && var q := Lookup(p.s.patches, id).value; q.address == b.address && |b.bytes| <= |q.original|
  }

  ghost predicate Traced(s: State, p: Progress, blocks: seq<Block>, k: nat)
    requires k <= |blocks|
  {
    && Recorded(s, p) && Passable(blocks, k)
    && forall j: nat :: j < k && !blocks[j].intoAllocation ==> exists id :: RecordsBlock(p, blocks[j], id)
  }

  lemma LookupIsRecorded(patches: seq<Patch>, id: nat)
    requires Lookup(patches, id).Some?
    ensures Lookup(patches, id).value in patches
  {
  }

  lemma MappedInUserRange(mem: Memory, a: int, n: nat)
    requires UserMemory(mem) && Mapped(mem, a, n) && n > 0
    ensures 0 <= a && a + n <= TWO_TO_THE_63
  {
    assert a in mem && a + n - 1 in mem;
  }

  /** A patch that goes through lies apart from every block the run has recorded. */
  lemma AppliedApart(s: State, p: Progress, a: int, bytes: seq<Byte>, b: Block, id: nat)
    requires Recorded(s, p) && UserMemory(s.mem) && RecordsBlock(p, b, id) && b.bytes != []
    requires bytes != [] && Mapped(p.s.mem, a, |bytes|) && !Overlaps(p.s.patches, p.s.reserved, a, |bytes|)
    ensures Apart(b.address, |b.bytes|, a, |bytes|)
  {
    var q := Lookup(p.s.patches, id).value;
    LookupIsRecorded(p.s.patches, id);
    MappedInUserRange(p.s.mem, a, |bytes|);
    MappedInUserRange(p.s.mem, q.address, |q.original|);
    FittingRangesMeet(a, |bytes|, q.address, |q.original|);
  }

  lemma RecordKept(s: State, p: Progress, b: Block, pad: Padding, w: Outcome, c: Block)
    requires Recorded(s, p) && exists id :: RecordsBlock(p, c, id)
    ensures exists id :: RecordsBlock(EnableStep(p, b, pad, w).0, c, id)
  {
    StepRecords(s, p, b, pad, w);
    var id :| RecordsBlock(p, c, id);
    assert RecordsBlock(EnableStep(p, b, pad, w).0, c, id);
  }

  lemma PatchStepTraced(s: State, p: Progress, b: Block, pad: Padding, w: Outcome)
    requires Recorded(s, p) && UserMemory(s.mem) && Extends(pad) && b.bytes != [] && !b.intoAllocation
    requires EnableStep(p, b, pad, w).1
    ensures InUserRange(b) && exists id :: RecordsBlock(EnableStep(p, b, pad, w).0, b, id)
    ensures !Overlaps(p.s.patches, p.s.reserved, b.address, |pad(p.s.mem, b)|)
    ensures b.bytes <= pad(p.s.mem, b) && Mapped(p.s.mem, b.address, |pad(p.s.mem, b)|)
  {
    var bytes := pad(p.s.mem, b);
    ApplyPatchLeaves(p.s, b.address, bytes, w.readOk, w.writeOk);
    var (t, id) := ApplyPatch(p.s, b.address, bytes, w.readOk, w.writeOk);
    assert b.bytes <= bytes;
    MappedInUserRange(p.s.mem, b.address, |bytes|);
    AddedIsFound(p.s, t, t.patches[|t.patches| - 1]);
    assert RecordsBlock(EnableStep(p, b, pad, w).0, b, id.value);
  }

  /** The next block, if it is a patch, lies apart from the patches before it. */
  predicate JoinsApart(blocks: seq<Block>, k: nat)
    requires k < |blocks|
  {
    !blocks[k].intoAllocation ==>
      forall j | 0 <= j < k :: !blocks[j].intoAllocation ==> BlocksApart(blocks[j], blocks[k])
  }

  lemma PassableNext(blocks: seq<Block>, k: nat)
    requires k < |blocks| && Passable(blocks, k) && InUserRange(blocks[k]) && JoinsApart(blocks, k)
    ensures Passable(blocks, k + 1)
  {
  }

  lemma StepJoinsApart(s: State, p: Progress, blocks: seq<Block>, pad: Padding, w: Outcome, k: nat)
    requires k < |blocks| && NonEmptyBlocks(blocks) && Traced(s, p, blocks, k) && UserMemory(s.mem) && Extends(pad)
    requires EnableStep(p, blocks[k], pad, w).1
    ensures InUserRange(blocks[k]) && JoinsApart(blocks, k)
  {
    var b := blocks[k];
    assert b in blocks;
    if b.intoAllocation {
      MappedInUserRange(p.s.mem, b.address, |b.bytes|);
    } else {
      PatchStepTraced(s, p, b, pad, w);
      forall j: nat | j < k && !blocks[j].intoAllocation ensures BlocksApart(blocks[j], b) {
        var id :| RecordsBlock(p, blocks[j], id);
        assert blocks[j] in blocks;
        AppliedApart(s, p, b.address, pad(p.s.mem, b), blocks[j], id);
      }
    }
  }

  lemma StepTraced(s: State, p: Progress, blocks: seq<Block>, pad: Padding, w: Outcome, k: nat)
    requires k < |blocks| && NonEmptyBlocks(blocks) && Traced(s, p, blocks, k) && UserMemory(s.mem) && Extends(pad)
    requires EnableStep(p, blocks[k], pad, w).1
    ensures Traced(s, EnableStep(p, blocks[k], pad, w).0, blocks, k + 1)
  {
    StepRecords(s, p, blocks[k], pad, w);
    StepJoinsApart(s, p, blocks, pad, w, k);
    PassableNext(blocks, k);
    forall j: nat | j < k + 1 && !blocks[j].intoAllocation
      ensures exists id :: RecordsBlock(EnableStep(p, blocks[k], pad, w).0, blocks[j], id)
    {
      if j < k {
        RecordKept(s, p, blocks[k], pad, w, blocks[j]);
      } else {
        assert blocks[k] in blocks;
        PatchStepTraced(s, p, blocks[k], pad, w);
      }
    }
  }

  lemma {:induction false} RunTraced(s: State, blocks: seq<Block>, pad: Padding, w: nat -> Outcome, k: nat)
    requires k <= |blocks| && NonEmptyBlocks(blocks) && IdsBelow(s) && UserMemory(s.mem) && Extends(pad)
    requires EnableUpTo(s, blocks, pad, w, k).1
    ensures Traced(s, EnableUpTo(s, blocks, pad, w, k).0, blocks, k)
  {
    if k > 0 {
      RunTraced(s, blocks, pad, w, k - 1);
      StepTraced(s, EnableUpTo(s, blocks, pad, w, k - 1).0, blocks, pad, w(k - 1), k - 1);
    }
  }

  lemma TracedIsPatched(s: State, p: Progress, blocks: seq<Block>, k: nat, x: int)
    requires k <= |blocks| && Traced(s, p, blocks, k) && PatchedBefore(blocks, k, x)
    ensures Patched(p.s, p.ids, x)
  {
    var j: nat :| j < k && !blocks[j].intoAllocation && CoversByte(blocks[j], x);
    var id :| RecordsBlock(p, blocks[j], id);
    assert Covers(p.s, id, x);
  }

  lemma NeverSpills(s: State, blocks: seq<Block>, pad: Padding, w: nat -> Outcome, k: nat, x: int)
    requires NonEmptyBlocks(blocks) && IdsBelow(s) && UserMemory(s.mem) && Extends(pad)
    requires NoSpillPossible(blocks, x) && k < |blocks|
    ensures !Spills(s, blocks, pad, w, k, x)
  {
    if Spills(s, blocks, pad, w, k, x) {
      RunTraced(s, blocks, pad, w, k);
      RunTraced(s, blocks, pad, w, k + 1);
      TracedIsPatched(s, EnableUpTo(s, blocks, pad, w, k).0, blocks, k, x);
    }
  }

  // --- A run that spills ---------------------------------------------------------------------------

  function Addresses(a: int, n: nat): (addresses: set<int>)
    ensures forall y :: y in addresses <==> Within(y, a, n)
    decreases n
  {
    if n == 0 then {} else {a} + Addresses(a + 1, n - 1)
  }

  /** The addresses of the first k blocks. */
  ghost function Footprint(blocks: seq<Block>, k: nat): (addresses: set<int>)
    requires k <= |blocks|
    ensures forall y :: y in addresses <==> exists j :: 0 <= j < k && CoversByte(blocks[j], y)
  {
    if k == 0 then {}
    else Footprint(blocks, k - 1) + Addresses(blocks[k - 1].address, |blocks[k - 1].bytes|)
  }

  /** A target where the first k blocks can be written, and that holds another byte at x than block k - 1 puts there. */
  ghost function Stage(blocks: seq<Block>, k: nat, x: int): State
    requires k <= |blocks|
  {
    var other: Byte := if k > 0 && CoversByte(blocks[k - 1], x) && blocks[k - 1].bytes[x - blocks[k - 1].address] == 0
                       then 1 else 0;
    Fresh(map y | y in Footprint(blocks, k) :: other)
  }

  function Plain(): Padding { (m: Memory, b: Block) => b.bytes }

  function FirstOnly(k: nat): nat -> Outcome { (j: nat) => Outcome(j < k, j < k) }

  function AllUndone(): nat -> bool { (id: nat) => true }

  /** The records of a staged run are exactly of earlier patch blocks. */
  ghost predicate Staged(s: State, p: Progress, blocks: seq<Block>, j: nat)
    requires j <= |blocks|
  {
    && Recorded(s, p) && p.s.reserved == []
    && forall q :: q in p.s.patches ==> exists i :: 0 <= i < j && OfBlock(blocks[i], q)
  }

  predicate OfBlock(b: Block, q: Patch)
  {
    !b.intoAllocation && q.address == b.address && |q.original| == |b.bytes|
  }

  lemma StagedIsFree(s: State, p: Progress, blocks: seq<Block>, j: nat)
    requires j < |blocks| && NonEmptyBlocks(blocks) && Passable(blocks, j + 1) && Staged(s, p, blocks, j)
    requires !blocks[j].intoAllocation
    ensures !Overlaps(p.s.patches, p.s.reserved, blocks[j].address, |blocks[j].bytes|)
  {
    forall q | q in p.s.patches ensures !RangesMeet(blocks[j].address, |blocks[j].bytes|, q.address, |q.original|) {
      var i :| 0 <= i < j && OfBlock(blocks[i], q);
      assert BlocksApart(blocks[i], blocks[j]) && blocks[i] in blocks && blocks[j] in blocks;
      FittingRangesMeet(blocks[j].address, |blocks[j].bytes|, q.address, |q.original|);
    }
  }

  lemma ApplyGoesThrough(s: State, a: int, bytes: seq<Byte>)
    requires IdsBelow(s) && bytes != [] && Mapped(s.mem, a, |bytes|) && !Overlaps(s.patches, s.reserved, a, |bytes|)
    ensures ApplyPatch(s, a, bytes, true, true).1.Some?
  {
  }

  lemma StagedStep(s: State, p: Progress, blocks: seq<Block>, j: nat, w: Outcome)
    requires j < |blocks| && NonEmptyBlocks(blocks) && Passable(blocks, j + 1) && Staged(s, p, blocks, j)
    requires Mapped(s.mem, blocks[j].address, |blocks[j].bytes|) && w == Outcome(true, true)
    ensures EnableStep(p, blocks[j], Plain(), w).1
    ensures Staged(s, EnableStep(p, blocks[j], Plain(), w).0, blocks, j + 1)
  {
    var b := blocks[j];
    StepRecords(s, p, b, Plain(), w);
    if !b.intoAllocation {
      assert b in blocks;
      StagedIsFree(s, p, blocks, j);
      ApplyGoesThrough(p.s, b.address, b.bytes);
      ApplyPatchLeaves(p.s, b.address, b.bytes, true, true);
      var q := EnableStep(p, b, Plain(), w).0;
      forall r | r in q.s.patches ensures exists i :: 0 <= i < j + 1 && OfBlock(blocks[i], r) {
        if r !in p.s.patches { assert OfBlock(blocks[j], r); }
      }
    }
  }

  /** A state from which the first k blocks can be written. */
  ghost predicate Ready(s: State, blocks: seq<Block>, k: nat)
    requires k <= |blocks|
  {
    && NonEmptyBlocks(blocks) && Passable(blocks, k) && IdsBelow(s) && s.patches == [] && s.reserved == []
    && forall i | 0 <= i < k :: Mapped(s.mem, blocks[i].address, |blocks[i].bytes|)
  }

  lemma {:induction false} StagedRun(s: State, blocks: seq<Block>, w: nat -> Outcome, k: nat, j: nat)
    requires j <= k <= |blocks| && Ready(s, blocks, k)
    requires forall i: nat :: i < k ==> w(i) == Outcome(true, true)
    ensures EnableUpTo(s, blocks, Plain(), w, j).1
    ensures Staged(s, EnableUpTo(s, blocks, Plain(), w, j).0, blocks, j)
  {
    if j > 0 {
      StagedRun(s, blocks, w, k, j - 1);
      PassableEarlier(blocks, j, k);
      StagedStep(s, EnableUpTo(s, blocks, Plain(), w, j - 1).0, blocks, j - 1, w(j - 1));
      EnableNext(s, blocks, Plain(), w, j - 1);
    }
  }

  lemma PassableEarlier(blocks: seq<Block>, j: nat, k: nat)
    requires j <= k <= |blocks| && Passable(blocks, k)
    ensures Passable(blocks, j)
  {
  }

  lemma StagedPatched(s: State, p: Progress, blocks: seq<Block>, j: nat, x: int)
    requires j <= |blocks| && Staged(s, p, blocks, j) && Patched(p.s, p.ids, x)
    ensures PatchedBefore(blocks, j, x)
  {
    var id: nat :| id in p.ids && Covers(p.s, id, x);
    LookupIsRecorded(p.s.patches, id);
    var i :| 0 <= i < j && OfBlock(blocks[i], Lookup(p.s.patches, id).value);
    assert CoversByte(blocks[i], x);
  }

  lemma SpillOf(s: State, blocks: seq<Block>, pad: Padding, w: nat -> Outcome, k: nat, x: int)
    requires k < |blocks| && blocks[k].intoAllocation && CoversByte(blocks[k], x)
    requires EnableUpTo(s, blocks, pad, w, k).1 && EnableUpTo(s, blocks, pad, w, k + 1).1
    requires var p := EnableUpTo(s, blocks, pad, w, k).0; !Patched(p.s, p.ids, x)
    ensures Spills(s, blocks, pad, w, k, x)
  {
  }

  /** The staged run writes block k straight over x and fails at the next block, if there is one. */
  lemma StagedSpills(s: State, blocks: seq<Block>, k: nat, x: int)
    requires k < |blocks| && Ready(s, blocks, k + 1) && !PatchedBefore(blocks, k, x)
    requires blocks[k].intoAllocation && CoversByte(blocks[k], x)
    ensures Spills(s, blocks, Plain(), FirstOnly(k + 1), k, x)
  {
    StagedRun(s, blocks, FirstOnly(k + 1), k + 1, k);
    StagedRun(s, blocks, FirstOnly(k + 1), k + 1, k + 1);
    var p := EnableUpTo(s, blocks, Plain(), FirstOnly(k + 1), k).0;
    if Patched(p.s, p.ids, x) { StagedPatched(s, p, blocks, k, x); }
    SpillOf(s, blocks, Plain(), FirstOnly(k + 1), k, x);
  }

  lemma StagedSpillIsLast(s: State, blocks: seq<Block>, w: nat -> Outcome, k: nat, x: int)
    requires k < |blocks| && w == FirstOnly(k + 1) && Spills(s, blocks, Plain(), w, k, x)
    ensures LastSpill(s, blocks, Plain(), w, |blocks|, k, x)
  {
    forall j: nat | k < j < |blocks| ensures !Spills(s, blocks, Plain(), w, j, x) {
      StagedRunStops(s, blocks, k + 1, j);
    }
  }

  lemma StagedRunStops(s: State, blocks: seq<Block>, k: nat, j: nat)
    requires k <= j < |blocks|
    ensures var (p, going) := EnableUpTo(s, blocks, Plain(), FirstOnly(k), j);
            !going || !EnableStep(p, blocks[j], Plain(), FirstOnly(k)(j)).1
  {
    var p := EnableUpTo(s, blocks, Plain(), FirstOnly(k), j).0;
    StepRefused(p, blocks[j], FirstOnly(k)(j));
  }

  lemma StepRefused(p: Progress, b: Block, w: Outcome)
    requires w == Outcome(false, false)
    ensures !EnableStep(p, b, Plain(), w).1
  {
  }

  lemma StageIsFit(blocks: seq<Block>, k: nat, x: int)
    requires k < |blocks| && NonEmptyBlocks(blocks) && Passable(blocks, k + 1) && CoversByte(blocks[k], x)
    ensures var s := Stage(blocks, k + 1, x);
            && IdsBelow(s) && UserMemory(s.mem) && Ready(s, blocks, k + 1)
            && x in s.mem && s.mem[x] != blocks[k].bytes[x - blocks[k].address]
  {
    var s := Stage(blocks, k + 1, x);
    forall i, y | 0 <= i < k + 1 && CoversByte(blocks[i], y) ensures y in s.mem && 0 <= y < TWO_TO_THE_63 {
      assert InUserRange(blocks[i]);
    }
  }

  lemma NoSpillGivesBack(s: State, blocks: seq<Block>, pad: Padding, w: nat -> Outcome, undo: nat -> bool, x: int)
    requires NonEmptyBlocks(blocks) && NoSpillPossible(blocks, x)
    requires IdsBelow(s) && UserMemory(s.mem) && Extends(pad) && x in s.mem && CleanlyUndone(s, blocks, pad, w, undo, x)
    ensures GivesBack(s, blocks, pad, w, undo, x)
  {
    RestoredExactly(s, blocks, pad, w, undo, x);
    forall k: nat | k < |blocks| ensures !Spills(s, blocks, pad, w, k, x) {
      NeverSpills(s, blocks, pad, w, k, x);
    }
  }

  lemma SpillLosesByte(s: State, blocks: seq<Block>, w: nat -> Outcome, k: nat, x: int)
    requires IdsBelow(s) && x in s.mem && k < |blocks| && CoversByte(blocks[k], x)
    requires LastSpill(s, blocks, Plain(), w, |blocks|, k, x) && s.mem[x] != blocks[k].bytes[x - blocks[k].address]
    ensures CleanlyUndone(s, blocks, Plain(), w, AllUndone(), x)
    ensures !GivesBack(s, blocks, Plain(), w, AllUndone(), x)
  {
    RestoredExactly(s, blocks, Plain(), w, AllUndone(), x);
  }

  /**
   A compiled script gives a byte back in every run, if and only if every block that can be written straight over it
   comes after a patch of the script that covers it.
   */
  lemma AlwaysRestoredExactly(blocks: seq<Block>, x: int)
    requires NonEmptyBlocks(blocks)
    ensures AlwaysRestored(blocks, x) <==> NoSpillPossible(blocks, x)
  {
    if NoSpillPossible(blocks, x) {
      forall s, pad, w, undo |
        IdsBelow(s) && UserMemory(s.mem) && Extends(pad) && x in s.mem && CleanlyUndone(s, blocks, pad, w, undo, x)
        ensures GivesBack(s, blocks, pad, w, undo, x)
      {
        NoSpillGivesBack(s, blocks, pad, w, undo, x);
      }
    } else {
      var k: nat :| k < |blocks| && blocks[k].intoAllocation && CoversByte(blocks[k], x)
                    && Passable(blocks, k + 1) && !PatchedBefore(blocks, k, x);
      var s, w := Stage(blocks, k + 1, x), FirstOnly(k + 1);
      StageIsFit(blocks, k, x);
      StagedSpills(s, blocks, k, x);
      StagedSpillIsLast(s, blocks, w, k, x);
      SpillLosesByte(s, blocks, w, k, x);
    }
  }
}
