/** What is left of a script in the target once it has been rolled back or disabled. */
module ScriptUndo {
  import opened Common
  import opened PatchState
  import opened PatchRanges
  import opened ScriptRun

  function Lookup(patches: seq<Patch>, id: nat): Option<Patch>
  {
    match Find(patches, id)
    case None => None
    case Some(i) => Some(patches[i])
  }

  lemma {:induction false} LookupWithout(patches: seq<Patch>, id: nat, other: nat)
    requires id != other
    ensures Lookup(Without(patches, id), other) == Lookup(patches, other)
    decreases patches
  {
    if patches != [] {
      LookupWithout(patches[1..], id, other);
      var rest := Without(patches[1..], id);
      assert ([patches[0]] + rest)[1..] == rest;
    }
  }

  lemma {:induction false} LookupUpdated(patches: seq<Patch>, i: nat, p: Patch, other: nat)
    requires i < |patches| && p.id == patches[i].id != other
    ensures Lookup(patches[i := p], other) == Lookup(patches, other)
    decreases patches
  {
    if i > 0 {
      LookupUpdated(patches[1..], i - 1, p, other);
      assert patches[i := p][1..] == patches[1..][i - 1 := p];
    } else {
      assert patches[i := p][1..] == patches[1..];
    }
  }

  lemma {:induction false} LookupAppended(patches: seq<Patch>, p: Patch, id: nat)
    ensures Lookup(patches + [p], id)
            == if Lookup(patches, id).Some? then Lookup(patches, id) else if p.id == id then Some(p) else None
    decreases patches
  {
    if patches != [] {
      LookupAppended(patches[1..], p, id);
      assert (patches + [p])[1..] == patches[1..] + [p];
    }
  }

  /** Removing one patch does not disturb what is recorded about another. */
  lemma RemoveKeepsOthers(s: State, id: nat, ok: bool, other: nat)
    requires id != other
    ensures Lookup(OnRemove(s, id, ok).0.patches, other) == Lookup(s.patches, other)
  {
    var (restored, done) := OnSetEnabled(s, id, false, ok);
    if restored.patches != s.patches {
      var i := Find(s.patches, id).value;
      LookupUpdated(s.patches, i, s.patches[i].(enabled := false), other);
    }
    LookupWithout(restored.patches, id, other);
  }

  /** The byte at x after one removal, from what is recorded about the patch. */
  function Restored(p: Option<Patch>, mem: Memory, ok: bool, x: int): Option<Byte>
  {
    if x !in mem then None
    else if p.Some? && p.value.enabled && ok && Mapped(mem, p.value.address, |p.value.original|)
         && Within(x, p.value.address, |p.value.original|) then Some(p.value.original[x - p.value.address])
    else Some(mem[x])
  }

  lemma RemoveByte(s: State, id: nat, ok: bool, x: int)
    requires x in s.mem
    ensures var after := OnRemove(s, id, ok).0.mem;
            after.Keys == s.mem.Keys && Some(after[x]) == Restored(Lookup(s.patches, id), s.mem, ok, x)
  {
  }

  ghost predicate SameRecords(s: State, t: State, ids: seq<nat>)
  {
    s.mem.Keys == t.mem.Keys && forall id :: id in ids ==> Lookup(s.patches, id) == Lookup(t.patches, id)
  }

  ghost predicate Distinct(ids: seq<nat>)
  {
    forall i, j :: 0 <= i < j < |ids| ==> ids[i] != ids[j]
  }

  lemma RemoveSameRecords(s: State, t: State, ids: seq<nat>, ok: bool)
    requires ids != [] && Distinct(ids) && SameRecords(s, t, ids)
    ensures var id := ids[|ids| - 1];
            SameRecords(OnRemove(s, id, ok).0, OnRemove(t, id, ok).0, ids[..|ids| - 1])
  {
    var id := ids[|ids| - 1];
    forall other | other in ids[..|ids| - 1]
      ensures Lookup(OnRemove(s, id, ok).0.patches, other) == Lookup(OnRemove(t, id, ok).0.patches, other)
    {
      RemoveKeepsOthers(s, id, ok, other);
      RemoveKeepsOthers(t, id, ok, other);
    }
  }

  /** An enabled patch of the run whose restore goes through covers x. */
  predicate Covers(s: State, id: nat, x: int)
  {
    var p := Lookup(s.patches, id);
    p.Some? && Within(x, p.value.address, |p.value.original|)
  }

  predicate Patched(s: State, ids: seq<nat>, x: int)
  {
    exists id | id in ids :: Covers(s, id, x)
  }

  /** Every patch of the run is recorded, enabled and mapped. */
  ghost predicate Armed(s: State, ids: seq<nat>)
  {
    forall id :: id in ids ==>
      var p := Lookup(s.patches, id);
      p.Some? && p.value.enabled && Mapped(s.mem, p.value.address, |p.value.original|)
  }

  /** No patch whose restore is refused covers x. */
  ghost predicate Spared(s: State, ids: seq<nat>, ok: nat -> bool, x: int)
  {
    forall id :: id in ids && Covers(s, id, x) ==> ok(id)
  }

  lemma RemoveKeepsArmed(s: State, ids: seq<nat>, ok: nat -> bool, x: int)
    requires ids != [] && Distinct(ids) && Armed(s, ids) && Spared(s, ids, ok, x)
    ensures var id := ids[|ids| - 1];
            var s' := OnRemove(s, id, ok(id)).0;
            Armed(s', ids[..|ids| - 1]) && Spared(s', ids[..|ids| - 1], ok, x)
  {
    var id := ids[|ids| - 1];
    forall other | other in ids[..|ids| - 1]
      ensures Lookup(OnRemove(s, id, ok(id)).0.patches, other) == Lookup(s.patches, other)
    {
      RemoveKeepsOthers(s, id, ok(id), other);
    }
    assert forall other :: other in ids[..|ids| - 1] ==> other in ids;
  }

  /** Undoing ends in the same byte at x from two states that differ there only under a patch of the run. */
  lemma {:induction false} UndoAgrees(s: State, t: State, ids: seq<nat>, ok: nat -> bool, x: int)
    requires Distinct(ids) && SameRecords(s, t, ids) && x in s.mem
    requires s.mem[x] == t.mem[x] || (Patched(s, ids, x) && Armed(s, ids) && Spared(s, ids, ok, x))
    ensures var u, v := UndoAll(s, ids, ok), UndoAll(t, ids, ok);
            u.mem.Keys == v.mem.Keys == s.mem.Keys && u.mem[x] == v.mem[x]
    decreases ids
  {
    if ids != [] {
      var id := ids[|ids| - 1];
      var s', t' := OnRemove(s, id, ok(id)).0, OnRemove(t, id, ok(id)).0;
      RemoveByte(s, id, ok(id), x);
      RemoveByte(t, id, ok(id), x);
      RemoveSameRecords(s, t, ids, ok(id));
      if s'.mem[x] != t'.mem[x] {
        UncoveredByLast(s, t, ids, ok, x);
        RemoveKeepsArmed(s, ids, ok, x);
      }
      UndoAgrees(s', t', ids[..|ids| - 1], ok, x);
    }
  }

  lemma UncoveredByLast(s: State, t: State, ids: seq<nat>, ok: nat -> bool, x: int)
    requires ids != [] && Distinct(ids) && SameRecords(s, t, ids) && x in s.mem
    requires Patched(s, ids, x) && Armed(s, ids) && Spared(s, ids, ok, x)
    requires var id := ids[|ids| - 1]; OnRemove(s, id, ok(id)).0.mem.Keys == s.mem.Keys
    requires var id := ids[|ids| - 1]; OnRemove(t, id, ok(id)).0.mem.Keys == s.mem.Keys
    requires var id := ids[|ids| - 1]; OnRemove(s, id, ok(id)).0.mem[x] != OnRemove(t, id, ok(id)).0.mem[x]
    ensures var id := ids[|ids| - 1]; Patched(OnRemove(s, id, ok(id)).0, ids[..|ids| - 1], x)
  {
    var id := ids[|ids| - 1];
    RemoveByte(s, id, ok(id), x);
    RemoveByte(t, id, ok(id), x);
    assert !Covers(s, id, x);
    var k: nat :| k in ids && Covers(s, k, x);
    RemoveKeepsOthers(s, id, ok(id), k);
    assert k in ids[..|ids| - 1];
    assert Covers(OnRemove(s, id, ok(id)).0, k, x);
  }

  /** A byte no patch of the run covers is not touched by undoing. */
  lemma {:induction false} UndoSkips(s: State, ids: seq<nat>, ok: nat -> bool, x: int)
    requires Distinct(ids) && !Patched(s, ids, x) && x in s.mem
    ensures var u := UndoAll(s, ids, ok); u.mem.Keys == s.mem.Keys && u.mem[x] == s.mem[x]
    decreases ids
  {
    if ids != [] {
      var id := ids[|ids| - 1];
      var s' := OnRemove(s, id, ok(id)).0;
      RemoveByte(s, id, ok(id), x);
      assert !Covers(s, id, x);
      forall other | other in ids[..|ids| - 1]
        ensures !Covers(s', other, x)
      {
        assert other in ids;
        RemoveKeepsOthers(s, id, ok(id), other);
      }
      UndoSkips(s', ids[..|ids| - 1], ok, x);
    }
  }

  /** How many of the ids are recorded. */
  function RecordedAmong(patches: seq<Patch>, ids: seq<nat>): nat
  {
    if ids == [] then 0
    else RecordedAmong(patches, ids[..|ids| - 1]) + if Lookup(patches, ids[|ids| - 1]).Some? then 1 else 0
  }

  lemma {:induction false} UndoKeepsOthers(s: State, ids: seq<nat>, ok: nat -> bool, other: nat)
    requires other !in ids
    ensures Lookup(UndoAll(s, ids, ok).patches, other) == Lookup(s.patches, other)
    decreases ids
  {
    if ids != [] {
      var id := ids[|ids| - 1];
      RemoveKeepsOthers(s, id, ok(id), other);
      UndoKeepsOthers(OnRemove(s, id, ok(id)).0, ids[..|ids| - 1], ok, other);
    }
  }

  /** A removal forgets the patch, or is refused and keeps it. */
  lemma RemovedOrKept(s: State, id: nat, ok: bool)
    requires Lookup(s.patches, id).Some?
    ensures Lookup(OnRemove(s, id, ok).0.patches, id).Some? <==> !OnRemove(s, id, ok).1
  {
  }

  /** Undoing a run reports as many problems as it leaves patches of the run recorded. */
  lemma {:induction false} ProblemsAreLeftRecorded(s: State, ids: seq<nat>, ok: nat -> bool)
    requires Distinct(ids) && forall id :: id in ids ==> Lookup(s.patches, id).Some?
    ensures UndoProblems(s, ids, ok) == RecordedAmong(UndoAll(s, ids, ok).patches, ids)
    decreases ids
  {
    if ids != [] {
      var front, id := ids[..|ids| - 1], ids[|ids| - 1];
      var s' := OnRemove(s, id, ok(id)).0;
      forall other | other in front ensures Lookup(s'.patches, other).Some? {
        RemoveKeepsOthers(s, id, ok(id), other);
      }
      RemovedOrKept(s, id, ok(id));
      ProblemsAreLeftRecorded(s', front, ok);
      UndoKeepsOthers(s', front, ok, id);
    }
  }
}
