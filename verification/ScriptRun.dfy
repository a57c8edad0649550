/**
 Enabling and disabling a compiled script over the patch registry: blocks that start in an allocation are
 written directly, the others become recorded patches, and a failure undoes what the run has recorded so far.
 */
module ScriptRun {
  import opened Common
  import opened PatchState
  import Layout
  import opened PatchRegistry

  type Block = Layout.Block

  // How the target and the pad to an instruction boundary answer for one block.
  datatype Outcome = Outcome(readOk: bool, writeOk: bool)

  type Padding = (Memory, Block) -> seq<Byte>

  /** Padding only appends. */
  ghost predicate Extends(pad: Padding)
  {
    forall m: Memory, b: Block :: b.bytes <= pad(m, b)
  }

  datatype Progress = Progress(s: State, ids: seq<nat>)

  function EnableStep(p: Progress, b: Block, pad: Padding, w: Outcome): (Progress, bool)
  {
    if b.intoAllocation then
      match TryWrite(p.s.mem, b.address, b.bytes, w.writeOk)
      case None => (p, false)
      case Some(mem) => (p.(s := p.s.(mem := mem)), true)
    else
      var (s, id) := ApplyPatch(p.s, b.address, pad(p.s.mem, b), w.readOk, w.writeOk);
      match id
      case None => (p.(s := s), false)
      case Some(id) => (Progress(s, p.ids + [id]), true)
  }

  /** The first k blocks, stopping at the first that fails. */
  function EnableUpTo(s: State, blocks: seq<Block>, pad: Padding, w: nat -> Outcome, k: nat): (Progress, bool)
    requires k <= |blocks|
  {
    if k == 0 then (Progress(s, []), true)
    else
      var (p, going) := EnableUpTo(s, blocks, pad, w, k - 1);
      if going then EnableStep(p, blocks[k - 1], pad, w(k - 1)) else (p, false)
  }

  /** Removes the listed patches, last first; a refused restore is reported and skipped. */
  function UndoAll(s: State, ids: seq<nat>, ok: nat -> bool): State
    decreases ids
  {
    if ids == [] then s
    else
      var id := ids[|ids| - 1];
      UndoAll(OnRemove(s, id, ok(id)).0, ids[..|ids| - 1], ok)
  }

  /** How many of those removals are refused. */
  function UndoProblems(s: State, ids: seq<nat>, ok: nat -> bool): nat
    decreases ids
  {
    if ids == [] then 0
    else
      var id := ids[|ids| - 1];
      var (next, done) := OnRemove(s, id, ok(id));
      UndoProblems(next, ids[..|ids| - 1], ok) + if done then 0 else 1
  }

  function RunEnable(s: State, blocks: seq<Block>, pad: Padding, w: nat -> Outcome, undo: nat -> bool): (Progress, bool)
  {
    var (p, done) := EnableUpTo(s, blocks, pad, w, |blocks|);
    if done then (p, true) else (Progress(UndoAll(p.s, p.ids, undo), []), false)
  }

  /** The section's own bytes, written straight to the target; a refused write is reported and skipped. */
  function WriteEach(mem: Memory, blocks: seq<Block>, w: nat -> Outcome, k: nat): Memory
    requires k <= |blocks|
  {
    if k == 0 then mem
    else
      var before := WriteEach(mem, blocks, w, k - 1);
      match TryWrite(before, blocks[k - 1].address, blocks[k - 1].bytes, w(k - 1).writeOk)
      case None => before
      case Some(after) => after
  }

  /** How many of the first k blocks are refused or leave mapped memory. */
  function RefusedWrites(mem: Memory, blocks: seq<Block>, w: nat -> Outcome, k: nat): nat
    requires k <= |blocks|
  {
    if k == 0 then 0
    else
      var b := blocks[k - 1];
      RefusedWrites(mem, blocks, w, k - 1) + if w(k - 1).writeOk && Mapped(mem, b.address, |b.bytes|) then 0 else 1
  }

  lemma {:induction false} WriteEachKeepsKeys(mem: Memory, blocks: seq<Block>, w: nat -> Outcome, k: nat)
    requires k <= |blocks|
    ensures WriteEach(mem, blocks, w, k).Keys == mem.Keys
  {
    if k > 0 { WriteEachKeepsKeys(mem, blocks, w, k - 1); }
  }

  lemma {:induction false} UndoKeepsKeys(s: State, ids: seq<nat>, ok: nat -> bool)
    ensures UndoAll(s, ids, ok).mem.Keys == s.mem.Keys
    decreases ids
  {
    if ids != [] {
      var id := ids[|ids| - 1];
      UndoKeepsKeys(OnRemove(s, id, ok(id)).0, ids[..|ids| - 1], ok);
    }
  }

  lemma SameRefusals(mem: Memory, now: Memory, blocks: seq<Block>, w: nat -> Outcome, k: nat)
    requires k < |blocks| && mem.Keys == now.Keys
    ensures RefusedWrites(mem, blocks, w, k + 1)
            == RefusedWrites(mem, blocks, w, k)
               + if TryWrite(now, blocks[k].address, blocks[k].bytes, w(k).writeOk).Some? then 0 else 1
  {
    var b := blocks[k];
    assert Mapped(now, b.address, |b.bytes|) == Mapped(mem, b.address, |b.bytes|);
  }

  function RunDisable(p: Progress, blocks: seq<Block>, w: nat -> Outcome, undo: nat -> bool): State
  {
    var s := UndoAll(p.s, p.ids, undo);
    s.(mem := WriteEach(s.mem, blocks, w, |blocks|))
  }

  method UndoPatches(registry: Registry, ids: seq<nat>, undo: nat -> bool) returns (problems: nat)
    modifies registry
    ensures registry.Now() == UndoAll(old(registry.Now()), ids, undo)
    ensures problems == UndoProblems(old(registry.Now()), ids, undo)
  {
    problems := 0;
    var i := |ids|;
    assert ids[..i] == ids;
    while i > 0
      invariant 0 <= i <= |ids|
      invariant UndoAll(registry.Now(), ids[..i], undo) == UndoAll(old(registry.Now()), ids, undo)
      invariant problems + UndoProblems(registry.Now(), ids[..i], undo) == UndoProblems(old(registry.Now()), ids, undo)
    {
      i := i - 1;
      assert ids[..i + 1][i] == ids[i] && ids[..i + 1][..i] == ids[..i];
      var done := registry.RemovePatch(ids[i], undo(ids[i]));
      if !done {
        problems := problems + 1;
      }
    }
  }

  method Enable(registry: Registry, blocks: seq<Block>, pad: Padding, w: nat -> Outcome, undo: nat -> bool)
    returns (patchIds: seq<nat>, enabled: bool)
    modifies registry
    ensures (Progress(registry.Now(), patchIds), enabled) == RunEnable(old(registry.Now()), blocks, pad, w, undo)
  {
    patchIds := [];
    for k := 0 to |blocks|
      invariant EnableUpTo(old(registry.Now()), blocks, pad, w, k) == (Progress(registry.Now(), patchIds), true)
    {
      var b := blocks[k];
      var done;
      if b.intoAllocation {
        done := registry.WriteTarget(b.address, b.bytes, w(k).writeOk);
      } else {
        var id := registry.ApplyAlone(b.address, pad(registry.target, b), w(k).readOk, w(k).writeOk);
        done := id.Some?;
        if done {
          patchIds := patchIds + [id.value];
        }
      }
      assert EnableUpTo(old(registry.Now()), blocks, pad, w, k + 1) == (Progress(registry.Now(), patchIds), done);
      if !done {
        FailureStays(old(registry.Now()), blocks, pad, w, k + 1, |blocks|);
        var problems := UndoPatches(registry, patchIds, undo);
        return [], false;
      }
    }
    return patchIds, true;
  }

  lemma {:induction false} FailureStays(s: State, blocks: seq<Block>, pad: Padding, w: nat -> Outcome, k: nat, n: nat)
    requires k <= n <= |blocks| && !EnableUpTo(s, blocks, pad, w, k).1
    ensures EnableUpTo(s, blocks, pad, w, n) == EnableUpTo(s, blocks, pad, w, k)
    decreases n
  {
    if k < n { FailureStays(s, blocks, pad, w, k, n - 1); }
  }

  method Disable(registry: Registry, patchIds: seq<nat>, blocks: seq<Block>, w: nat -> Outcome, undo: nat -> bool)
    returns (problems: nat)
    modifies registry
    ensures registry.Now() == RunDisable(Progress(old(registry.Now()), patchIds), blocks, w, undo)
    ensures problems == UndoProblems(old(registry.Now()), patchIds, undo)
                        + RefusedWrites(old(registry.target), blocks, w, |blocks|)
  {
    problems := UndoPatches(registry, patchIds, undo);
    ghost var undone, removals := registry.Now(), problems;
    UndoKeepsKeys(old(registry.Now()), patchIds, undo);
    for k := 0 to |blocks|
      invariant problems == removals + RefusedWrites(old(registry.target), blocks, w, k)
      invariant registry.Now() == undone.(mem := WriteEach(undone.mem, blocks, w, k))
    {
      WriteEachKeepsKeys(undone.mem, blocks, w, k);
      SameRefusals(old(registry.target), registry.target, blocks, w, k);
      var done := registry.WriteTarget(blocks[k].address, blocks[k].bytes, w(k).writeOk);
      if !done {
        problems := problems + 1;
      }
    }
  }
}
