/** What an enable that succeeds leaves in the target, when one succeeds, and what the [DISABLE] section then writes. */
module ScriptEffect {
  import opened Common
  import opened PatchState
  import opened PatchRanges
  import opened ScriptRun
  import opened ScriptUndo
  import opened ScriptRestores

  // ----- One byte over a sequence of writes -----

  /** The byte after j + 1 writes is what write j put there, or what it was. */
  ghost predicate Traces(value: nat -> Byte, over: nat -> bool, put: nat -> Byte, n: nat)
  {
    forall j: nat :: j < n ==> WriteTraced(value, over, put, j)
  }

  predicate WriteTraced(value: nat -> Byte, over: nat -> bool, put: nat -> Byte, j: nat)
  {
    value(j + 1) == if over(j) then put(j) else value(j)
  }

  /** The last write over a byte decides it. */
  lemma {:induction false} LastWriter(value: nat -> Byte, over: nat -> bool, put: nat -> Byte, n: nat, k: nat)
    requires Traces(value, over, put, n) && k < n && over(k) && forall j: nat :: k < j < n ==> !over(j)
    ensures value(n) == put(k)
    decreases n
  {
    assert WriteTraced(value, over, put, n - 1);
    if k < n - 1 { LastWriter(value, over, put, n - 1, k); }
  }

  lemma {:induction false} NoWriter(value: nat -> Byte, over: nat -> bool, put: nat -> Byte, n: nat)
    requires Traces(value, over, put, n) && forall j: nat :: j < n ==> !over(j)
    ensures value(n) == value(0)
  {
    if n > 0 {
      assert WriteTraced(value, over, put, n - 1);
      NoWriter(value, over, put, n - 1);
    }
  }

  // ----- Memory after the blocks -----

  /** What one block is written as: a block over the target's own code is padded first. */
  function PutBytes(mem: Memory, b: Block, pad: Padding): seq<Byte>
  {
    if b.intoAllocation then b.bytes else pad(mem, b)
  }

  /** Memory with the first k blocks written one after the other. */
  function MemoryAfter(mem: Memory, blocks: seq<Block>, pad: Padding, k: nat): (after: Memory)
    requires k <= |blocks|
    ensures after.Keys == mem.Keys
  {
    if k == 0 then mem
    else
      var before := MemoryAfter(mem, blocks, pad, k - 1);
      Overwrite(before, blocks[k - 1].address, PutBytes(before, blocks[k - 1], pad))
  }

  /** The bytes block k is written as in a run of all of them. */
  function Put(mem: Memory, blocks: seq<Block>, pad: Padding, k: nat): seq<Byte>
    requires k < |blocks|
  {
    PutBytes(MemoryAfter(mem, blocks, pad, k), blocks[k], pad)
  }

  predicate WritesOver(mem: Memory, blocks: seq<Block>, pad: Padding, k: nat, x: int)
    requires k < |blocks|
  {
    Within(x, blocks[k].address, |Put(mem, blocks, pad, k)|)
  }

  /** Block k is the last of the first n to be written over x. */
  predicate LastOver(mem: Memory, blocks: seq<Block>, pad: Padding, n: nat, k: nat, x: int)
    requires k < n <= |blocks|
  {
    WritesOver(mem, blocks, pad, k, x) && forall j | k < j < n :: !WritesOver(mem, blocks, pad, j, x)
  }

  lemma AfterOne(mem: Memory, blocks: seq<Block>, pad: Padding, k: nat, x: int)
    requires k < |blocks| && x in mem
    ensures MemoryAfter(mem, blocks, pad, k + 1)[x]
            == if WritesOver(mem, blocks, pad, k, x) then Put(mem, blocks, pad, k)[x - blocks[k].address]
               else MemoryAfter(mem, blocks, pad, k)[x]
  {
  }

  /** None of the first n blocks is written over x. */
  predicate NoneOver(mem: Memory, blocks: seq<Block>, pad: Padding, n: nat, x: int)
    requires n <= |blocks|
  {
    forall k | 0 <= k < n :: !WritesOver(mem, blocks, pad, k, x)
  }

  function ByteAfter(mem: Memory, blocks: seq<Block>, pad: Padding, x: int): (value: nat -> Byte)
    requires x in mem
    ensures forall k: nat :: k <= |blocks| ==> value(k) == MemoryAfter(mem, blocks, pad, k)[x]
  {
    (k: nat) => if k <= |blocks| then MemoryAfter(mem, blocks, pad, k)[x] else 0
  }

  function OverBy(mem: Memory, blocks: seq<Block>, pad: Padding, x: int): (over: nat -> bool)
    ensures forall k: nat :: k < |blocks| ==> over(k) == WritesOver(mem, blocks, pad, k, x)
  {
    (k: nat) => k < |blocks| && WritesOver(mem, blocks, pad, k, x)
  }

  function PutAt(mem: Memory, blocks: seq<Block>, pad: Padding, x: int): (put: nat -> Byte)
    ensures forall k: nat :: k < |blocks| && WritesOver(mem, blocks, pad, k, x) ==>
              put(k) == Put(mem, blocks, pad, k)[x - blocks[k].address]
  {
    (k: nat) => if k < |blocks| && WritesOver(mem, blocks, pad, k, x)
                then Put(mem, blocks, pad, k)[x - blocks[k].address] else 0
  }

  lemma BlocksTrace(mem: Memory, blocks: seq<Block>, pad: Padding, x: int)
    requires x in mem
    ensures Traces(ByteAfter(mem, blocks, pad, x), OverBy(mem, blocks, pad, x), PutAt(mem, blocks, pad, x), |blocks|)
  {
    var value, over, put := ByteAfter(mem, blocks, pad, x), OverBy(mem, blocks, pad, x), PutAt(mem, blocks, pad, x);
    forall k: nat | k < |blocks| ensures WriteTraced(value, over, put, k) {
      AfterOne(mem, blocks, pad, k, x);
    }
  }

  lemma LastOverDecides(mem: Memory, blocks: seq<Block>, pad: Padding, k: nat, x: int)
    requires x in mem && k < |blocks| && LastOver(mem, blocks, pad, |blocks|, k, x)
    ensures MemoryAfter(mem, blocks, pad, |blocks|)[x] == Put(mem, blocks, pad, k)[x - blocks[k].address]
  {
    BlocksTrace(mem, blocks, pad, x);
    LastWriter(ByteAfter(mem, blocks, pad, x), OverBy(mem, blocks, pad, x), PutAt(mem, blocks, pad, x), |blocks|, k);
  }

  lemma NothingOver(mem: Memory, blocks: seq<Block>, pad: Padding, x: int)
    requires x in mem && NoneOver(mem, blocks, pad, |blocks|, x)
    ensures MemoryAfter(mem, blocks, pad, |blocks|)[x] == mem[x]
  {
    BlocksTrace(mem, blocks, pad, x);
    NoWriter(ByteAfter(mem, blocks, pad, x), OverBy(mem, blocks, pad, x), PutAt(mem, blocks, pad, x), |blocks|);
  }

  // ----- Enable -----

  lemma {:induction false} EnableWrites(s: State, blocks: seq<Block>, pad: Padding, w: nat -> Outcome, k: nat)
    requires IdsBelow(s) && k <= |blocks| && EnableUpTo(s, blocks, pad, w, k).1
    ensures EnableUpTo(s, blocks, pad, w, k).0.s.mem == MemoryAfter(s.mem, blocks, pad, k)
  {
    if k > 0 {
      var p := EnableUpTo(s, blocks, pad, w, k - 1).0;
      EnableWrites(s, blocks, pad, w, k - 1);
      RunRecords(s, blocks, pad, w, k - 1);
      EnableNext(s, blocks, pad, w, k - 1);
      StepWrites(s, p, blocks[k - 1], pad, w(k - 1));
    }
  }

  lemma StepWrites(s: State, p: Progress, b: Block, pad: Padding, w: Outcome)
    requires Recorded(s, p) && EnableStep(p, b, pad, w).1
    ensures EnableStep(p, b, pad, w).0.s.mem == Overwrite(p.s.mem, b.address, PutBytes(p.s.mem, b, pad))
  {
    if !b.intoAllocation { ApplyPatchLeaves(p.s, b.address, pad(p.s.mem, b), w.readOk, w.writeOk); }
  }

  /**
   After an enable that succeeds each address holds the byte of the last block written over it, the block's own where
   it has one and the padding's past its end; an address no block reaches is as it was.
   */
  lemma EnableLeaves(s: State, blocks: seq<Block>, pad: Padding, w: nat -> Outcome, undo: nat -> bool, x: int)
    requires IdsBelow(s) && Extends(pad) && RunEnable(s, blocks, pad, w, undo).1 && x in s.mem
    ensures var after := RunEnable(s, blocks, pad, w, undo).0.s.mem;
            && after.Keys == s.mem.Keys
            && (forall k: nat :: k < |blocks| && LastOver(s.mem, blocks, pad, |blocks|, k, x) ==>
                  && after[x] == Put(s.mem, blocks, pad, k)[x - blocks[k].address]
                  && (x < blocks[k].address + |blocks[k].bytes| ==> after[x] == blocks[k].bytes[x - blocks[k].address]))
            && (NoneOver(s.mem, blocks, pad, |blocks|, x) ==> after[x] == s.mem[x])
  {
    var n := |blocks|;
    EnableWrites(s, blocks, pad, w, n);
    forall k: nat | k < n && LastOver(s.mem, blocks, pad, n, k, x)
      ensures MemoryAfter(s.mem, blocks, pad, n)[x] == Put(s.mem, blocks, pad, k)[x - blocks[k].address]
      ensures blocks[k].bytes <= Put(s.mem, blocks, pad, k)
    {
      LastOverDecides(s.mem, blocks, pad, k, x);
      assert blocks[k].bytes <= pad(MemoryAfter(s.mem, blocks, pad, k), blocks[k]);
    }
    if NoneOver(s.mem, blocks, pad, n, x) { NothingOver(s.mem, blocks, pad, x); }
  }

  /** Block k goes through: mapped, granted and, as a patch, overlapping nothing recorded before or by this run. */
  predicate GoesThrough(s: State, blocks: seq<Block>, pad: Padding, w: nat -> Outcome, k: nat)
    requires k < |blocks|
  {
    var a, bytes := blocks[k].address, Put(s.mem, blocks, pad, k);
    && Mapped(s.mem, a, |bytes|) && w(k).writeOk
    && (!blocks[k].intoAllocation ==>
          && bytes != [] && w(k).readOk && !Overlaps(s.patches, s.reserved, a, |bytes|)
          && forall j | 0 <= j < k :: !MeetsPatch(s.mem, blocks, pad, j, a, |bytes|))
  }

  /** Block j is a patch and its range meets this one. */
  predicate MeetsPatch(mem: Memory, blocks: seq<Block>, pad: Padding, j: nat, a: int, n: nat)
    requires j < |blocks|
  {
    !blocks[j].intoAllocation && RangesMeet(a, n, blocks[j].address, |Put(mem, blocks, pad, j)|)
  }

  /** What stands in a patch's way after the first k blocks. */
  ghost predicate Taken(s: State, blocks: seq<Block>, pad: Padding, k: nat, a: int, n: nat)
    requires k <= |blocks|
  {
    Overlaps(s.patches, s.reserved, a, n) || exists j :: 0 <= j < k && MeetsPatch(s.mem, blocks, pad, j, a, n)
  }

  lemma OverlapsOneMore(patches: seq<Patch>, p: Patch, reserved: seq<Reservation>, a: int, n: nat)
    ensures Overlaps(patches + [p], reserved, a, n)
            <==> Overlaps(patches, reserved, a, n) || RangesMeet(a, n, p.address, |p.original|)
  {
    var more := patches + [p];
    assert more[|patches|] == p;
    forall q | q in patches ensures q in more {
    }
  }

  lemma TakenOneMore(s: State, blocks: seq<Block>, pad: Padding, k: nat, a: int, n: nat)
    requires k < |blocks|
    ensures Taken(s, blocks, pad, k + 1, a, n)
            <==> Taken(s, blocks, pad, k, a, n) || MeetsPatch(s.mem, blocks, pad, k, a, n)
  {
    if Taken(s, blocks, pad, k, a, n) && !Overlaps(s.patches, s.reserved, a, n) {
      var j :| 0 <= j < k && MeetsPatch(s.mem, blocks, pad, j, a, n);
      assert Taken(s, blocks, pad, k + 1, a, n);
    }
  }

  lemma {:induction false} RunTaken(
    s: State, blocks: seq<Block>, pad: Padding, w: nat -> Outcome, k: nat, a: int, n: nat)
    requires IdsBelow(s) && k <= |blocks| && EnableUpTo(s, blocks, pad, w, k).1
    ensures var t := EnableUpTo(s, blocks, pad, w, k).0.s;
            Overlaps(t.patches, t.reserved, a, n) <==> Taken(s, blocks, pad, k, a, n)
  {
    if k > 0 {
      var p := EnableUpTo(s, blocks, pad, w, k - 1).0;
      RunTaken(s, blocks, pad, w, k - 1, a, n);
      RunRecords(s, blocks, pad, w, k - 1);
      EnableNext(s, blocks, pad, w, k - 1);
      EnableWrites(s, blocks, pad, w, k - 1);
      TakenOneMore(s, blocks, pad, k - 1, a, n);
      StepTakes(s, p, blocks[k - 1], pad, w(k - 1), a, n);
    }
  }

  lemma StepTakes(s: State, p: Progress, b: Block, pad: Padding, w: Outcome, a: int, n: nat)
    requires Recorded(s, p) && EnableStep(p, b, pad, w).1
    ensures var t := EnableStep(p, b, pad, w).0.s;
            Overlaps(t.patches, t.reserved, a, n)
            <==> Overlaps(p.s.patches, p.s.reserved, a, n)
                 || (!b.intoAllocation && RangesMeet(a, n, b.address, |pad(p.s.mem, b)|))
  {
    if !b.intoAllocation {
      var bytes := pad(p.s.mem, b);
      ApplyPatchLeaves(p.s, b.address, bytes, w.readOk, w.writeOk);
      var t := EnableStep(p, b, pad, w).0.s;
      OverlapsOneMore(p.s.patches, t.patches[|t.patches| - 1], p.s.reserved, a, n);
    }
  }

  lemma ApplyGoesExactly(s: State, a: int, bytes: seq<Byte>, readOk: bool, writeOk: bool)
    requires IdsBelow(s)
    ensures ApplyPatch(s, a, bytes, readOk, writeOk).1.Some? <==>
            && bytes != [] && !Overlaps(s.patches, s.reserved, a, |bytes|)
            && readOk && writeOk && Mapped(s.mem, a, |bytes|)
  {
  }

  lemma StepGoesExactly(s: State, blocks: seq<Block>, pad: Padding, w: nat -> Outcome, k: nat)
    requires IdsBelow(s) && k < |blocks| && EnableUpTo(s, blocks, pad, w, k).1
    ensures EnableStep(EnableUpTo(s, blocks, pad, w, k).0, blocks[k], pad, w(k)).1
            <==> GoesThrough(s, blocks, pad, w, k)
  {
    var p, a := EnableUpTo(s, blocks, pad, w, k).0, blocks[k].address;
    var bytes := Put(s.mem, blocks, pad, k);
    RunRecords(s, blocks, pad, w, k);
    EnableWrites(s, blocks, pad, w, k);
    assert Mapped(p.s.mem, a, |bytes|) == Mapped(s.mem, a, |bytes|);
    if !blocks[k].intoAllocation {
      RunTaken(s, blocks, pad, w, k, a, |bytes|);
      ApplyGoesExactly(p.s, a, bytes, w(k).readOk, w(k).writeOk);
    }
  }

  lemma {:induction false} GoingExactly(s: State, blocks: seq<Block>, pad: Padding, w: nat -> Outcome, k: nat)
    requires IdsBelow(s) && k <= |blocks|
    ensures EnableUpTo(s, blocks, pad, w, k).1 <==> forall j :: 0 <= j < k ==> GoesThrough(s, blocks, pad, w, j)
  {
    if k > 0 {
      GoingExactly(s, blocks, pad, w, k - 1);
      if EnableUpTo(s, blocks, pad, w, k - 1).1 {
        EnableNext(s, blocks, pad, w, k - 1);
        StepGoesExactly(s, blocks, pad, w, k - 1);
      }
    }
  }

  /** Enable succeeds exactly when every block goes through. */
  lemma EnableSucceedsExactly(s: State, blocks: seq<Block>, pad: Padding, w: nat -> Outcome, undo: nat -> bool)
    requires IdsBelow(s)
    ensures RunEnable(s, blocks, pad, w, undo).1
            <==> forall k :: 0 <= k < |blocks| ==> GoesThrough(s, blocks, pad, w, k)
  {
    GoingExactly(s, blocks, pad, w, |blocks|);
  }

  // ----- Disable -----

  /** The write of block k of the [DISABLE] section goes through and covers x. */
  predicate DisableOver(mem: Memory, blocks: seq<Block>, w: nat -> Outcome, k: nat, x: int)
    requires k < |blocks|
  {
    var b := blocks[k];
    w(k).writeOk && Mapped(mem, b.address, |b.bytes|) && Within(x, b.address, |b.bytes|)
  }

  /** It is the last of the first n to do so. */
  predicate LastDisableOver(mem: Memory, blocks: seq<Block>, w: nat -> Outcome, n: nat, k: nat, x: int)
    requires k < n <= |blocks|
  {
    DisableOver(mem, blocks, w, k, x) && forall j | k < j < n :: !DisableOver(mem, blocks, w, j, x)
  }

  predicate NoneDisableOver(mem: Memory, blocks: seq<Block>, w: nat -> Outcome, n: nat, x: int)
    requires n <= |blocks|
  {
    forall k | 0 <= k < n :: !DisableOver(mem, blocks, w, k, x)
  }

  lemma WriteOne(mem: Memory, blocks: seq<Block>, w: nat -> Outcome, k: nat, x: int)
    requires k < |blocks| && x in mem
    ensures WriteEach(mem, blocks, w, k).Keys == WriteEach(mem, blocks, w, k + 1).Keys == mem.Keys
    ensures WriteEach(mem, blocks, w, k + 1)[x]
            == if DisableOver(mem, blocks, w, k, x) then blocks[k].bytes[x - blocks[k].address]
               else WriteEach(mem, blocks, w, k)[x]
  {
    var before, b := WriteEach(mem, blocks, w, k), blocks[k];
    WriteEachKeepsKeys(mem, blocks, w, k);
    assert Mapped(before, b.address, |b.bytes|) == Mapped(mem, b.address, |b.bytes|);
  }

  lemma {:induction false} WriteEachDecides(mem: Memory, blocks: seq<Block>, w: nat -> Outcome, n: nat, x: int)
    requires n <= |blocks| && x in mem
    ensures WriteEach(mem, blocks, w, n).Keys == mem.Keys
    ensures NoneDisableOver(mem, blocks, w, n, x) ==> WriteEach(mem, blocks, w, n)[x] == mem[x]
    ensures forall k: nat :: k < n && LastDisableOver(mem, blocks, w, n, k, x) ==>
              WriteEach(mem, blocks, w, n)[x] == blocks[k].bytes[x - blocks[k].address]
  {
    if n > 0 {
      WriteOne(mem, blocks, w, n - 1, x);
      WriteEachDecides(mem, blocks, w, n - 1, x);
      forall k: nat | k < n - 1 && LastDisableOver(mem, blocks, w, n, k, x)
        ensures LastDisableOver(mem, blocks, w, n - 1, k, x) && !DisableOver(mem, blocks, w, n - 1, x)
      {
      }
    }
  }

  lemma SameDisableOver(mem: Memory, now: Memory, blocks: seq<Block>, w: nat -> Outcome, k: nat, x: int)
    requires k < |blocks| && mem.Keys == now.Keys
    ensures DisableOver(now, blocks, w, k, x) == DisableOver(mem, blocks, w, k, x)
  {
    var b := blocks[k];
    assert Mapped(now, b.address, |b.bytes|) == Mapped(mem, b.address, |b.bytes|);
  }

  /**
   Disable ends with the section's own bytes: each address holds the byte of the last block written through over it,
   and one that no such block covers holds what undoing the recorded patches left.
   */
  lemma DisableLeaves(p: Progress, blocks: seq<Block>, w: nat -> Outcome, undo: nat -> bool, x: int)
    requires x in p.s.mem
    ensures var n := |blocks|;
            var undone := UndoAll(p.s, p.ids, undo).mem;
            var after := RunDisable(p, blocks, w, undo).mem;
            && undone.Keys == after.Keys == p.s.mem.Keys
            && (NoneDisableOver(p.s.mem, blocks, w, n, x) ==> after[x] == undone[x])
            && (forall k: nat :: k < n && LastDisableOver(p.s.mem, blocks, w, n, k, x) ==>
                  after[x] == blocks[k].bytes[x - blocks[k].address])
  {
    var undone := UndoAll(p.s, p.ids, undo).mem;
    UndoKeepsKeys(p.s, p.ids, undo);
    WriteEachDecides(undone, blocks, w, |blocks|, x);
    forall k: nat | k < |blocks|
      ensures DisableOver(undone, blocks, w, k, x) == DisableOver(p.s.mem, blocks, w, k, x)
    {
      SameDisableOver(p.s.mem, undone, blocks, w, k, x);
    }
  }
}
