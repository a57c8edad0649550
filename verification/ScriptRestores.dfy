/** A failed enable, or an enable and a disable, against the memory the script found. */
module ScriptRestores {
  import opened Common
  import opened PatchState
  import opened PatchRanges
  import opened PatchInvariants
  import Layout
  import opened ScriptRun
  import opened ScriptUndo

  /** Ids the registry has handed out are below its counter. */
  ghost predicate IdsBelow(s: State)
  {
    && (forall p :: p in s.patches ==> p.id < s.nextId)
    && (forall r :: r in s.reserved ==> r.id < s.nextId)
    && (forall id :: id in s.flights ==> id < s.nextId)
  }

  lemma SoundIdsBelow(s: State, base: Memory)
    requires Sound(s, base)
    ensures IdsBelow(s)
  {
  }

  lemma {:induction false} ReleaseUndoesReserve(reserved: seq<Reservation>, r: Reservation)
    requires forall q :: q in reserved ==> q.id != r.id
    ensures Released(reserved + [r], r.id) == reserved
    decreases reserved
  {
    if reserved == [] {
      assert reserved + [r] == [r];
    } else {
      assert reserved[0] in reserved;
      assert (reserved + [r])[1..] == reserved[1..] + [r];
      ReleaseUndoesReserve(reserved[1..], r);
    }
  }

  lemma AbandonUndoesReserve(s: State, a: int, n: nat, f: Flight)
    requires IdsBelow(s)
    ensures var reserved := s.(reserved := s.reserved + [Reservation(s.nextId, a, n)], nextId := s.nextId + 1,
                               flights := s.flights[s.nextId := f]);
            Abandon(reserved, s.nextId) == s.(nextId := s.nextId + 1)
  {
    ReleaseUndoesReserve(s.reserved, Reservation(s.nextId, a, n));
    assert s.flights[s.nextId := f] - {s.nextId} == s.flights;
  }

  /** An apply on its own either leaves no trace but a used id, or adds one genuine record and its bytes. */
  lemma ApplyPatchLeaves(s: State, a: int, bytes: seq<Byte>, readOk: bool, writeOk: bool)
    requires IdsBelow(s)
    ensures var (t, id) := ApplyPatch(s, a, bytes, readOk, writeOk);
            match id
            case None => s.nextId <= t.nextId && t == s.(nextId := t.nextId)
            case Some(id) =>
              && id == s.nextId && Mapped(s.mem, a, |bytes|)
              && t == s.(mem := Overwrite(s.mem, a, bytes), nextId := id + 1,
                         patches := s.patches + [Patch(id, a, Slice(s.mem, a, |bytes|), bytes, true)])
  {
    if bytes != [] && !Overlaps(s.patches, s.reserved, a, |bytes|) {
      AbandonUndoesReserve(s, a, |bytes|, Flight(a, bytes, Reserved));
      if readOk && Mapped(s.mem, a, |bytes|) {
        var original := Slice(s.mem, a, |bytes|);
        AbandonUndoesReserve(s, a, |bytes|, Flight(a, bytes, Read(original)));
        AbandonUndoesReserve(s, a, |bytes|, Flight(a, bytes, Written(original)));
      }
    }
  }

  /** What a run has recorded: its own ids, each an enabled patch. */
  ghost predicate Recorded(s0: State, p: Progress)
  {
    && IdsBelow(p.s) && p.s.mem.Keys == s0.mem.Keys
    && Distinct(p.ids) && (forall id :: id in p.ids ==> id < p.s.nextId)
    && Armed(p.s, p.ids)
  }

  lemma {:induction false} LookupFresh(patches: seq<Patch>, id: nat)
    requires forall p :: p in patches ==> p.id < id
    ensures Lookup(patches, id).None?
  {
  }

  lemma StepRecords(s0: State, p: Progress, b: Block, pad: Padding, w: Outcome)
    requires Recorded(s0, p)
    ensures Recorded(s0, EnableStep(p, b, pad, w).0)
    ensures forall id :: id in p.ids ==> Lookup(EnableStep(p, b, pad, w).0.s.patches, id) == Lookup(p.s.patches, id)
  {
    if !b.intoAllocation {
      var bytes := pad(p.s.mem, b);
      ApplyPatchLeaves(p.s, b.address, bytes, w.readOk, w.writeOk);
      var (t, id) := ApplyPatch(p.s, b.address, bytes, w.readOk, w.writeOk);
      if id.Some? {
        var added := t.patches[|t.patches| - 1];
        LookupFresh(p.s.patches, id.value);
        LookupAppended(p.s.patches, added, id.value);
        forall other | other in p.ids
          ensures Lookup(t.patches, other) == Lookup(p.s.patches, other)
        {
          LookupAppended(p.s.patches, added, other);
        }
      }
    }
  }

  lemma {:induction false} RunRecords(s: State, blocks: seq<Block>, pad: Padding, w: nat -> Outcome, k: nat)
    requires IdsBelow(s) && k <= |blocks|
    ensures Recorded(s, EnableUpTo(s, blocks, pad, w, k).0)
  {
    if k > 0 {
      RunRecords(s, blocks, pad, w, k - 1);
      StepRecords(s, EnableUpTo(s, blocks, pad, w, k - 1).0, blocks[k - 1], pad, w(k - 1));
    }
  }

  /** The block is to be written straight to memory over x, where no patch recorded so far lies. */
  predicate RunsOver(p: Progress, b: Block, x: int)
  {
    b.intoAllocation && Within(x, b.address, |b.bytes|) && !Patched(p.s, p.ids, x)
  }

  /** Block k of the run is written straight to memory over x, where no earlier patch of the run lies. */
  predicate Spills(s: State, blocks: seq<Block>, pad: Padding, w: nat -> Outcome, k: nat, x: int)
    requires k < |blocks|
  {
    var (p, going) := EnableUpTo(s, blocks, pad, w, k);
    going && EnableStep(p, blocks[k], pad, w(k)).1 && RunsOver(p, blocks[k], x)
  }

  /** The byte undoing leaves at x: what the last spill put there, or what the script found. */
  function Residue(s: State, blocks: seq<Block>, pad: Padding, w: nat -> Outcome, k: nat, x: int): Byte
    requires k <= |blocks| && x in s.mem
  {
    if k == 0 then s.mem[x]
    else if Spills(s, blocks, pad, w, k - 1, x) then blocks[k - 1].bytes[x - blocks[k - 1].address]
    else Residue(s, blocks, pad, w, k - 1, x)
  }

  /** Removing the patch recorded last gives back the byte it covered. */
  lemma RemoveLastByte(s: State, t: State, p: Patch, ok: bool, x: int)
    requires Lookup(t.patches, p.id) == Some(p) && p.enabled && x in s.mem && t.mem.Keys == s.mem.Keys
    requires Mapped(s.mem, p.address, |p.original|)
    requires if Within(x, p.address, |p.original|) then ok && p.original[x - p.address] == s.mem[x]
             else t.mem[x] == s.mem[x]
    ensures var u := OnRemove(t, p.id, ok).0; u.mem.Keys == s.mem.Keys && u.mem[x] == s.mem[x]
  {
    RemoveByte(t, p.id, ok, x);
  }

  lemma RemoveLastRecords(s: State, t: State, p: Patch, ids: seq<nat>, ok: bool)
    requires t.patches == s.patches + [p] && forall id :: id in ids ==> id != p.id
    ensures forall id :: id in ids ==> Lookup(OnRemove(t, p.id, ok).0.patches, id) == Lookup(s.patches, id)
  {
    forall id | id in ids
      ensures Lookup(OnRemove(t, p.id, ok).0.patches, id) == Lookup(s.patches, id)
    {
      RemoveKeepsOthers(t, p.id, ok, id);
      LookupAppended(s.patches, p, id);
    }
  }

  lemma AddedIsFound(s: State, t: State, p: Patch)
    requires IdsBelow(s) && t.patches == s.patches + [p] && p.id == s.nextId
    ensures Lookup(t.patches, p.id) == Some(p)
  {
    LookupFresh(s.patches, p.id);
    LookupAppended(s.patches, p, p.id);
  }

  /** Undoing a step that recorded a patch ends where undoing without it would. */
  lemma PatchStepUndone(s0: State, p: Progress, q: Progress, added: Patch, ok: nat -> bool, x: int)
    requires Recorded(s0, p) && x in s0.mem && q.ids == p.ids + [added.id] && added.id == p.s.nextId
    requires added.enabled && Mapped(p.s.mem, added.address, |added.original|)
    requires added.original == Slice(p.s.mem, added.address, |added.original|) && |added.patched| == |added.original|
    requires q.s == p.s.(mem := Overwrite(p.s.mem, added.address, added.patched), nextId := added.id + 1,
                         patches := p.s.patches + [added])
    requires Spared(q.s, q.ids, ok, x)
    ensures var u, v := UndoAll(q.s, q.ids, ok), UndoAll(p.s, p.ids, ok);
            u.mem.Keys == v.mem.Keys == s0.mem.Keys && u.mem[x] == v.mem[x]
  {
    var id := added.id;
    assert q.ids[..|q.ids| - 1] == p.ids;
    AddedIsFound(p.s, q.s, added);
    assert Covers(q.s, id, x) == Within(x, added.address, |added.original|);
    assert id in q.ids;
    RemoveLastByte(p.s, q.s, added, ok(id), x);
    RemoveLastRecords(p.s, q.s, added, p.ids, ok(id));
    UndoAgrees(OnRemove(q.s, id, ok(id)).0, p.s, p.ids, ok, x);
  }

  lemma DirectStepUndone(s0: State, p: Progress, b: Block, mem: Memory, ok: nat -> bool, x: int)
    requires Recorded(s0, p) && x in s0.mem && Spared(p.s, p.ids, ok, x)
    requires Mapped(p.s.mem, b.address, |b.bytes|) && mem == Overwrite(p.s.mem, b.address, b.bytes)
    ensures var u, v := UndoAll(p.s.(mem := mem), p.ids, ok), UndoAll(p.s, p.ids, ok);
            && u.mem.Keys == v.mem.Keys == s0.mem.Keys
            && u.mem[x] == if Within(x, b.address, |b.bytes|) && !Patched(p.s, p.ids, x)
                           then b.bytes[x - b.address] else v.mem[x]
  {
    var t := p.s.(mem := mem);
    assert SameRecords(t, p.s, p.ids) && Armed(t, p.ids);
    assert forall id :: id in p.ids ==> Covers(t, id, x) == Covers(p.s, id, x);
    if Within(x, b.address, |b.bytes|) && !Patched(p.s, p.ids, x) {
      assert !Patched(t, p.ids, x);
      UndoSkips(t, p.ids, ok, x);
      UndoSkips(p.s, p.ids, ok, x);
    } else {
      if Patched(p.s, p.ids, x) { assert Patched(t, p.ids, x); }
      UndoAgrees(t, p.s, p.ids, ok, x);
    }
  }

  /** What one step changes of the byte that undoing leaves. */
  lemma StepLeaves(s0: State, p: Progress, b: Block, pad: Padding, w: Outcome, ok: nat -> bool, x: int)
    requires Recorded(s0, p) && x in s0.mem
    requires Spared(p.s, p.ids, ok, x)
    requires var q := EnableStep(p, b, pad, w).0; Spared(q.s, q.ids, ok, x)
    ensures var (q, done) := EnableStep(p, b, pad, w);
            var u, v := UndoAll(q.s, q.ids, ok), UndoAll(p.s, p.ids, ok);
            && u.mem.Keys == v.mem.Keys == s0.mem.Keys
            && u.mem[x] == if done && RunsOver(p, b, x) then b.bytes[x - b.address] else v.mem[x]
  {
    var (q, done) := EnableStep(p, b, pad, w);
    if b.intoAllocation {
      if done { DirectStepUndone(s0, p, b, q.s.mem, ok, x); } else { UndoAgrees(q.s, p.s, p.ids, ok, x); }
    } else {
      ApplyPatchLeaves(p.s, b.address, pad(p.s.mem, b), w.readOk, w.writeOk);
      if done {
        PatchStepUndone(s0, p, q, q.s.patches[|q.s.patches| - 1], ok, x);
      } else {
        UndoAgrees(q.s, p.s, p.ids, ok, x);
      }
    }
  }

  /** The byte undoing leaves at x, at any point of a run. */
  ghost predicate LeavesResidue(s: State, blocks: seq<Block>, pad: Padding, w: nat -> Outcome, k: nat,
                                ok: nat -> bool, x: int)
    requires k <= |blocks| && x in s.mem
  {
    var p := EnableUpTo(s, blocks, pad, w, k).0;
    var after := UndoAll(p.s, p.ids, ok).mem;
    after.Keys == s.mem.Keys && after[x] == Residue(s, blocks, pad, w, k, x)
  }

  lemma EnableNext(s: State, blocks: seq<Block>, pad: Padding, w: nat -> Outcome, k: nat)
    requires k < |blocks| && EnableUpTo(s, blocks, pad, w, k).1
    ensures EnableUpTo(s, blocks, pad, w, k + 1) == EnableStep(EnableUpTo(s, blocks, pad, w, k).0, blocks[k], pad, w(k))
  {
  }

  lemma ResidueNext(s: State, blocks: seq<Block>, pad: Padding, w: nat -> Outcome, k: nat, x: int)
    requires k < |blocks| && x in s.mem && EnableUpTo(s, blocks, pad, w, k).1
    ensures var p := EnableUpTo(s, blocks, pad, w, k).0;
            Residue(s, blocks, pad, w, k + 1, x)
            == if EnableStep(p, blocks[k], pad, w(k)).1 && RunsOver(p, blocks[k], x)
               then blocks[k].bytes[x - blocks[k].address] else Residue(s, blocks, pad, w, k, x)
  {
  }

  lemma ResidueAfterStep(s: State, blocks: seq<Block>, pad: Padding, w: nat -> Outcome, k: nat, ok: nat -> bool, x: int)
    requires IdsBelow(s) && k < |blocks| && x in s.mem && EnableUpTo(s, blocks, pad, w, k).1
    requires LeavesResidue(s, blocks, pad, w, k, ok, x)
    requires var p := EnableUpTo(s, blocks, pad, w, k).0; Spared(p.s, p.ids, ok, x)
    requires var p := EnableUpTo(s, blocks, pad, w, k + 1).0; Spared(p.s, p.ids, ok, x)
    ensures LeavesResidue(s, blocks, pad, w, k + 1, ok, x)
  {
    var p := EnableUpTo(s, blocks, pad, w, k).0;
    RunRecords(s, blocks, pad, w, k);
    EnableNext(s, blocks, pad, w, k);
    ResidueNext(s, blocks, pad, w, k, x);
    StepLeaves(s, p, blocks[k], pad, w(k), ok, x);
  }

  /** Undoing at any point of a run leaves exactly the residue wherever no refused restore covers. */
  lemma {:induction false} UndoLeavesResidue(s: State, blocks: seq<Block>, pad: Padding, w: nat -> Outcome, k: nat,
                                             ok: nat -> bool, x: int)
    requires IdsBelow(s) && k <= |blocks| && x in s.mem
    requires var p := EnableUpTo(s, blocks, pad, w, k).0; Spared(p.s, p.ids, ok, x)
    ensures LeavesResidue(s, blocks, pad, w, k, ok, x)
  {
    if k > 0 {
      var (p, going) := EnableUpTo(s, blocks, pad, w, k - 1);
      RunRecords(s, blocks, pad, w, k - 1);
      StepRecords(s, p, blocks[k - 1], pad, w(k - 1));
      StepSpares(p, EnableUpTo(s, blocks, pad, w, k).0, ok, x);
      UndoLeavesResidue(s, blocks, pad, w, k - 1, ok, x);
      if going { ResidueAfterStep(s, blocks, pad, w, k - 1, ok, x); }
    } else {
      RunRecords(s, blocks, pad, w, 0);
    }
  }

  lemma StepSpares(p: Progress, q: Progress, ok: nat -> bool, x: int)
    requires forall id :: id in p.ids ==> id in q.ids && Lookup(q.s.patches, id) == Lookup(p.s.patches, id)
    requires Spared(q.s, q.ids, ok, x)
    ensures Spared(p.s, p.ids, ok, x)
  {
    forall id | id in p.ids && Covers(p.s, id, x) ensures ok(id) {
      assert Covers(q.s, id, x);
    }
  }

  /** Every block that starts in an allocation ends in it too. */
  ghost predicate Fits(blocks: seq<Block>, inside: int -> bool)
  {
    forall b, x :: b in blocks && b.intoAllocation && Within(x, b.address, |b.bytes|) ==> inside(x)
  }

  lemma {:induction false} NothingSpills(s: State, blocks: seq<Block>, pad: Padding, w: nat -> Outcome, k: nat,
                                         inside: int -> bool, x: int)
    requires k <= |blocks| && x in s.mem && Fits(blocks, inside) && !inside(x)
    ensures Residue(s, blocks, pad, w, k, x) == s.mem[x]
  {
    if k > 0 {
      assert blocks[k - 1] in blocks;
      NothingSpills(s, blocks, pad, w, k - 1, inside, x);
    }
  }

  /** No refused restore covers x. */
  ghost predicate CleanlyUndone(s: State, blocks: seq<Block>, pad: Padding, w: nat -> Outcome, undo: nat -> bool,
                                x: int)
  {
    var p := EnableUpTo(s, blocks, pad, w, |blocks|).0;
    Spared(p.s, p.ids, undo, x)
  }

  /** An enable that fails, at whichever block, leaves the target as it was outside the script's allocations. */
  lemma FailedEnableRestores(s: State, blocks: seq<Block>, pad: Padding, w: nat -> Outcome, undo: nat -> bool,
                             inside: int -> bool, x: int)
    requires IdsBelow(s) && Fits(blocks, inside) && CleanlyUndone(s, blocks, pad, w, undo, x)
    requires !RunEnable(s, blocks, pad, w, undo).1 && x in s.mem && !inside(x)
    ensures var after := RunEnable(s, blocks, pad, w, undo).0.s.mem;
            after.Keys == s.mem.Keys && after[x] == s.mem[x]
  {
    UndoLeavesResidue(s, blocks, pad, w, |blocks|, undo, x);
    NothingSpills(s, blocks, pad, w, |blocks|, inside, x);
  }

  lemma {:induction false} WriteEachKeeps(mem: Memory, blocks: seq<Block>, w: nat -> Outcome, k: nat, x: int)
    requires k <= |blocks| && x in mem && forall b :: b in blocks ==> !Within(x, b.address, |b.bytes|)
    ensures WriteEach(mem, blocks, w, k).Keys == mem.Keys && WriteEach(mem, blocks, w, k)[x] == mem[x]
  {
    if k > 0 {
      assert blocks[k - 1] in blocks;
      WriteEachKeeps(mem, blocks, w, k - 1, x);
    }
  }

  /**
   Enable then disable: outside the script's allocations only the bytes its own [DISABLE] section writes differ,
   so with none the target is exactly as it was.
   */
  lemma DisableRestores(s: State, blocks: seq<Block>, pad: Padding, w: nat -> Outcome,
                        disable: seq<Block>, dw: nat -> Outcome, undo: nat -> bool, inside: int -> bool, x: int)
    requires IdsBelow(s) && Fits(blocks, inside) && CleanlyUndone(s, blocks, pad, w, undo, x)
    requires RunEnable(s, blocks, pad, w, undo).1 && x in s.mem && !inside(x)
    requires forall b :: b in disable ==> !Within(x, b.address, |b.bytes|)
    ensures var after := RunDisable(RunEnable(s, blocks, pad, w, undo).0, disable, dw, undo).mem;
            after.Keys == s.mem.Keys && after[x] == s.mem[x]
  {
    UndoLeavesResidue(s, blocks, pad, w, |blocks|, undo, x);
    NothingSpills(s, blocks, pad, w, |blocks|, inside, x);
    var p := RunEnable(s, blocks, pad, w, undo).0;
    WriteEachKeeps(UndoAll(p.s, p.ids, undo).mem, disable, dw, |disable|, x);
  }

  /** Block k spills over x and is the last of the run to do so. */
  predicate LastSpill(s: State, blocks: seq<Block>, pad: Padding, w: nat -> Outcome, n: nat, k: nat, x: int)
    requires k < n <= |blocks|
  {
    Spills(s, blocks, pad, w, k, x) && forall j | k < j < n :: !Spills(s, blocks, pad, w, j, x)
  }

  lemma LastSpillExtends(s: State, blocks: seq<Block>, pad: Padding, w: nat -> Outcome, n: nat, k: nat, x: int)
    requires k < n < |blocks| && !Spills(s, blocks, pad, w, n, x)
    ensures LastSpill(s, blocks, pad, w, n + 1, k, x) == LastSpill(s, blocks, pad, w, n, k, x)
  {
    if LastSpill(s, blocks, pad, w, n, k, x) {
      forall j: nat | k < j < n + 1 ensures !Spills(s, blocks, pad, w, j, x) {
        assert j == n || j < n;
      }
    }
  }

  lemma {:induction false} ResidueIsLastSpill(s: State, blocks: seq<Block>, pad: Padding, w: nat -> Outcome, n: nat,
                                              x: int)
    returns (last: Option<nat>)
    requires n <= |blocks| && x in s.mem
    ensures last.None? ==> Residue(s, blocks, pad, w, n, x) == s.mem[x]
                           && forall k: nat :: k < n ==> !Spills(s, blocks, pad, w, k, x)
    ensures last.Some? ==> last.value < n && LastSpill(s, blocks, pad, w, n, last.value, x)
                           && Residue(s, blocks, pad, w, n, x)
                              == blocks[last.value].bytes[x - blocks[last.value].address]
  {
    last := None;
    if n > 0 {
      if Spills(s, blocks, pad, w, n - 1, x) {
        last := Some(n - 1);
      } else {
        last := ResidueIsLastSpill(s, blocks, pad, w, n - 1, x);
        if last.Some? { LastSpillExtends(s, blocks, pad, w, n - 1, last.value, x); }
      }
    }
  }

  lemma OneLastSpill(s: State, blocks: seq<Block>, pad: Padding, w: nat -> Outcome, n: nat, j: nat, k: nat, x: int)
    requires j < n <= |blocks| && k < n
    requires LastSpill(s, blocks, pad, w, n, j, x) && LastSpill(s, blocks, pad, w, n, k, x)
    ensures j == k
  {
  }

  /**
   Exactly when a byte comes back: unless an allocation block ran over it, and over it last with a different
   byte, before any patch of the script covered it.
   */
  lemma RestoredExactly(s: State, blocks: seq<Block>, pad: Padding, w: nat -> Outcome, undo: nat -> bool, x: int)
    requires IdsBelow(s) && CleanlyUndone(s, blocks, pad, w, undo, x) && x in s.mem
    ensures var p := EnableUpTo(s, blocks, pad, w, |blocks|).0;
            var after := UndoAll(p.s, p.ids, undo).mem;
            && after.Keys == s.mem.Keys
            && (after[x] == s.mem[x] <==>
                forall k :: 0 <= k < |blocks| && LastSpill(s, blocks, pad, w, |blocks|, k, x) ==>
                  blocks[k].bytes[x - blocks[k].address] == s.mem[x])
  {
    UndoLeavesResidue(s, blocks, pad, w, |blocks|, undo, x);
    var last := ResidueIsLastSpill(s, blocks, pad, w, |blocks|, x);
    forall k: nat | k < |blocks| && LastSpill(s, blocks, pad, w, |blocks|, k, x)
      ensures last == Some(k)
    {
      if last.Some? { OneLastSpill(s, blocks, pad, w, |blocks|, last.value, k, x); }
    }
  }

  /** One byte past its allocation, a block changes the target for good: neither rollback nor disable knows of it. */
  lemma OverrunIsKept()
    ensures var s := Fresh(map[100 := 1, 101 := 2]);
            var blocks := [Layout.Block(100, [7, 7], Layout.InsideAllocation([Layout.Range(100, 101)], 100))];
            var fine := (k: nat) => Outcome(true, true);
            var (p, done) := RunEnable(s, blocks, (m: Memory, b: Block) => b.bytes, fine, (id: nat) => true);
            done && RunDisable(p, [], fine, (id: nat) => true).mem == map[100 := 7, 101 := 7]
  {
    var s := Fresh(map[100 := 1, 101 := 2]);
    var blocks := [Layout.Block(100, [7, 7], Layout.InsideAllocation([Layout.Range(100, 101)], 100))];
    var fine := (k: nat) => Outcome(true, true);
    var pad := (m: Memory, b: Block) => b.bytes;
    assert Layout.Range(100, 101) in [Layout.Range(100, 101)];
    assert blocks[0].intoAllocation;
    assert EnableUpTo(s, blocks, pad, fine, 0) == (Progress(s, []), true);
    assert Overwrite(s.mem, 100, [7, 7]) == map[100 := 7, 101 := 7];
    assert EnableUpTo(s, blocks, pad, fine, 1) == (Progress(s.(mem := map[100 := 7, 101 := 7]), []), true);
  }
}
