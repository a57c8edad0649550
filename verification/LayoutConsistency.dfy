/** A script whose layout settles is self-consistent: every byte is where the final label values say it is. */
module LayoutConsistency {
  import opened Common
  import opened Layout

  /** Where line i is assembled under given label values, read off the lines alone. */
  function AddressAt(script: Script, layout: Labels, asm: Assembler, i: nat): Option<int>
    requires i <= |script.lines|
  {
    if i == 0 then None
    else
      var line := script.lines[i - 1];
      var before := AddressAt(script, layout, asm, i - 1);
      match line
      case Label(name) => if name in script.anchors then Some(script.anchors[name]) else before
      case Origin(resolved) => resolved
      case _ =>
        if before.None? then None
        else match CodeBytes(line, before.value, layout, asm)
          case None => None
          case Some(bytes) => Some(before.value + |bytes|)
  }

  /** The bytes of line i, empty for lines that are not code. */
  function LineBytes(script: Script, layout: Labels, asm: Assembler, i: nat): seq<Byte>
    requires i < |script.lines|
  {
    var at := AddressAt(script, layout, asm, i);
    if at.None? then []
    else match CodeBytes(script.lines[i], at.value, layout, asm)
      case None => []
      case Some(bytes) => bytes
  }

  function AllBytes(script: Script, layout: Labels, asm: Assembler, n: nat): seq<Byte>
    requires n <= |script.lines|
  {
    if n == 0 then [] else AllBytes(script, layout, asm, n - 1) + LineBytes(script, layout, asm, n - 1)
  }

  function Flatten(blocks: seq<Block>): seq<Byte>
  {
    if blocks == [] then [] else Flatten(blocks[..|blocks| - 1]) + blocks[|blocks| - 1].bytes
  }

  /** Some block holds these bytes at this address. */
  ghost predicate Holds(blocks: seq<Block>, a: int, bytes: seq<Byte>)
  {
    exists b, o :: b in blocks && HeldIn(b, o, a, bytes)
  }

  predicate HeldIn(b: Block, o: int, a: int, bytes: seq<Byte>)
  {
    0 <= o && o + |bytes| <= |b.bytes| && b.address + o == a && b.bytes[o..o + |bytes|] == bytes
  }

  predicate Defines(script: Script, i: nat, name: string)
    requires i < |script.lines|
  {
    script.lines[i] == Label(name) && name !in script.anchors
  }

  /** Line i is the last definition of the label among the first n lines. */
  predicate LastDefinition(script: Script, name: string, i: nat, n: nat)
    requires n <= |script.lines|
  {
    i < n && Defines(script, i, name) && forall j :: i < j < n ==> !Defines(script, j, name)
  }

  /** Line i has an address if it needs one, and assembles there. */
  predicate LinePlaced(script: Script, layout: Labels, asm: Assembler, i: nat)
    requires i < |script.lines|
  {
    var at := AddressAt(script, layout, asm, i);
    if IsCode(script.lines[i])
    then at.Some? && CodeBytes(script.lines[i], at.value, layout, asm) == Some(LineBytes(script, layout, asm, i))
    else AddressAt(script, layout, asm, i + 1).Some?
  }

  ghost predicate LinesPlaced(script: Script, layout: Labels, asm: Assembler, n: nat)
    requires n <= |script.lines|
  {
    forall i :: 0 <= i < n ==> LinePlaced(script, layout, asm, i)
  }

  ghost predicate LabelsPlaced(script: Script, layout: Labels, asm: Assembler, n: nat, next: Labels)
    requires n <= |script.lines|
  {
    && (forall name :: name in script.anchors ==> name in next && next[name] == script.anchors[name])
    && (forall name, i :: LastDefinition(script, name, i, n) ==>
          name in next && AddressAt(script, layout, asm, i) == Some(next[name]))
    && (forall name :: name in next && name !in script.anchors ==> exists i :: 0 <= i < n && Defines(script, i, name))
  }

  /** The bytes of line i lie in a block at its address. */
  ghost predicate LineHeld(script: Script, layout: Labels, asm: Assembler, i: nat, blocks: seq<Block>)
    requires i < |script.lines|
  {
    var at := AddressAt(script, layout, asm, i);
    LineBytes(script, layout, asm, i) != [] ==> at.Some? && Holds(blocks, at.value, LineBytes(script, layout, asm, i))
  }

  ghost predicate LinesHeld(script: Script, layout: Labels, asm: Assembler, n: nat, blocks: seq<Block>)
    requires n <= |script.lines|
  {
    forall i :: 0 <= i < n ==> LineHeld(script, layout, asm, i, blocks)
  }

  ghost predicate Flagged(allocations: seq<Range>, blocks: seq<Block>)
  {
    forall b :: b in blocks ==> b.intoAllocation == InsideAllocation(allocations, b.address)
  }

  ghost predicate BlocksPlaced(script: Script, layout: Labels, asm: Assembler, n: nat, blocks: seq<Block>)
    requires n <= |script.lines|
  {
    && Flatten(blocks) == AllBytes(script, layout, asm, n)
    && LinesHeld(script, layout, asm, n, blocks)
    && Flagged(script.allocations, blocks)
  }

  lemma StepPlaces(script: Script, layout: Labels, asm: Assembler, n: nat, was: PassState)
    requires 0 < n <= |script.lines| && was.at == AddressAt(script, layout, asm, n - 1)
    requires Step(script, layout, asm, script.lines[n - 1], was).Some?
    ensures Step(script, layout, asm, script.lines[n - 1], was).value.at == AddressAt(script, layout, asm, n)
    ensures LinePlaced(script, layout, asm, n - 1)
  {
  }

  lemma {:induction false} PassPlacesLines(script: Script, layout: Labels, asm: Assembler, n: nat)
    requires n <= |script.lines| && PassUpTo(script, layout, asm, n).Some?
    ensures PassUpTo(script, layout, asm, n).value.at == AddressAt(script, layout, asm, n)
    ensures LinesPlaced(script, layout, asm, n)
  {
    if n > 0 {
      PassPlacesLines(script, layout, asm, n - 1);
      StepPlaces(script, layout, asm, n, PassUpTo(script, layout, asm, n - 1).value);
    }
  }

  lemma {:induction false} PassPlacesLabels(script: Script, layout: Labels, asm: Assembler, n: nat)
    requires n <= |script.lines| && PassUpTo(script, layout, asm, n).Some?
    ensures LabelsPlaced(script, layout, asm, n, PassUpTo(script, layout, asm, n).value.next)
  {
    if n > 0 {
      PassPlacesLabels(script, layout, asm, n - 1);
      PassPlacesLines(script, layout, asm, n - 1);
      var next := PassUpTo(script, layout, asm, n).value.next;
      forall name, i: nat | LastDefinition(script, name, i, n)
        ensures name in next && AddressAt(script, layout, asm, i) == Some(next[name])
      {
        if i < n - 1 {
          assert LastDefinition(script, name, i, n - 1);
          assert !Defines(script, n - 1, name);
        }
      }
      forall name | name in next && name !in script.anchors
        ensures exists i :: 0 <= i < n && Defines(script, i, name)
      {
        if script.lines[n - 1] == Label(name) { assert Defines(script, n - 1, name); }
      }
    }
  }

  lemma FlattenEmit(blocks: seq<Block>, at: int, bytes: seq<Byte>, inside: bool)
    ensures Flatten(Emit(blocks, at, bytes, inside)) == Flatten(blocks) + bytes
    ensures Holds(Emit(blocks, at, bytes, inside), at, bytes)
  {
    var after := Emit(blocks, at, bytes, inside);
    var last := after[|after| - 1];
    assert last in after;
    if blocks == [] || EndOf(blocks[|blocks| - 1]) != at {
      assert after[..|after| - 1] == blocks;
      assert HeldIn(last, 0, at, bytes);
    } else {
      var prior := blocks[|blocks| - 1];
      assert after[..|after| - 1] == blocks[..|blocks| - 1];
      assert HeldIn(last, |prior.bytes|, at, bytes);
    }
  }

  lemma EmitKeeps(blocks: seq<Block>, at: int, bytes: seq<Byte>, inside: bool, a: int, held: seq<Byte>)
    requires Holds(blocks, a, held)
    ensures Holds(Emit(blocks, at, bytes, inside), a, held)
  {
    var after := Emit(blocks, at, bytes, inside);
    var b, o :| b in blocks && HeldIn(b, o, a, held);
    var k :| 0 <= k < |blocks| && blocks[k] == b;
    assert after[k] in after;
    assert HeldIn(after[k], o, a, held);
  }

  lemma AppendKeeps(blocks: seq<Block>, b: Block, a: int, held: seq<Byte>)
    requires Holds(blocks, a, held)
    ensures Holds(blocks + [b], a, held)
  {
    var c, o :| c in blocks && HeldIn(c, o, a, held);
    assert c in blocks + [b];
  }

  ghost predicate Keeps(blocks: seq<Block>, after: seq<Block>)
  {
    forall a, held :: Holds(blocks, a, held) ==> Holds(after, a, held)
  }

  /** Blocks that keep what they hold and gain exactly the next line. */
  lemma BlocksGrow(script: Script, layout: Labels, asm: Assembler, n: nat, blocks: seq<Block>, after: seq<Block>)
    requires n < |script.lines| && BlocksPlaced(script, layout, asm, n, blocks)
    requires Keeps(blocks, after) && LineHeld(script, layout, asm, n, after)
    requires Flatten(after) == Flatten(blocks) + LineBytes(script, layout, asm, n)
    requires Flagged(script.allocations, after)
    ensures BlocksPlaced(script, layout, asm, n + 1, after)
  {
    forall i | 0 <= i < n + 1
      ensures LineHeld(script, layout, asm, i, after)
    {
      if i < n { assert LineHeld(script, layout, asm, i, blocks); }
    }
  }

  lemma EmitFlags(allocations: seq<Range>, blocks: seq<Block>, at: int, bytes: seq<Byte>)
    requires Flagged(allocations, blocks)
    ensures Flagged(allocations, Emit(blocks, at, bytes, InsideAllocation(allocations, at)))
  {
    if blocks != [] { assert blocks[|blocks| - 1] in blocks; }
  }

  lemma CodeGrows(script: Script, layout: Labels, asm: Assembler, n: nat, blocks: seq<Block>, at: int,
                  after: seq<Block>)
    requires n < |script.lines| && BlocksPlaced(script, layout, asm, n, blocks)
    requires AddressAt(script, layout, asm, n) == Some(at)
    requires after == Emit(blocks, at, LineBytes(script, layout, asm, n), InsideAllocation(script.allocations, at))
    ensures BlocksPlaced(script, layout, asm, n + 1, after)
  {
    var bytes := LineBytes(script, layout, asm, n);
    var inside := InsideAllocation(script.allocations, at);
    assert Keeps(blocks, after) by {
      forall a, held | Holds(blocks, a, held) ensures Holds(after, a, held) {
        EmitKeeps(blocks, at, bytes, inside, a, held);
      }
    }
    assert Flagged(script.allocations, after) by { EmitFlags(script.allocations, blocks, at, bytes); }
    FlattenEmit(blocks, at, bytes, inside);
    BlocksGrow(script, layout, asm, n, blocks, after);
  }

  lemma StepEmits(script: Script, layout: Labels, asm: Assembler, n: nat, was: PassState)
    requires n < |script.lines| && IsCode(script.lines[n]) && LinePlaced(script, layout, asm, n)
    requires was.at == AddressAt(script, layout, asm, n)
    requires Step(script, layout, asm, script.lines[n], was).Some?
    ensures was.at.Some?
    ensures Step(script, layout, asm, script.lines[n], was).value.blocks
            == Emit(was.blocks, was.at.value, LineBytes(script, layout, asm, n),
                    InsideAllocation(script.allocations, was.at.value))
  {
  }

  /** A label or origin adds at most an empty block. */
  lemma MarkGrows(script: Script, layout: Labels, asm: Assembler, n: nat, was: PassState)
    requires n < |script.lines| && !IsCode(script.lines[n])
    requires BlocksPlaced(script, layout, asm, n, was.blocks)
    requires Step(script, layout, asm, script.lines[n], was).Some?
    ensures BlocksPlaced(script, layout, asm, n + 1, Step(script, layout, asm, script.lines[n], was).value.blocks)
  {
    var after := Step(script, layout, asm, script.lines[n], was).value.blocks;
    assert LineBytes(script, layout, asm, n) == [];
    if after != was.blocks {
      var b := after[|after| - 1];
      assert after == was.blocks + [b] && after[..|after| - 1] == was.blocks;
      forall a, held | Holds(was.blocks, a, held) ensures Holds(after, a, held) {
        AppendKeeps(was.blocks, b, a, held);
      }
    }
    BlocksGrow(script, layout, asm, n, was.blocks, after);
  }

  lemma {:induction false} PassPlacesBlocks(script: Script, layout: Labels, asm: Assembler, n: nat)
    requires n <= |script.lines| && PassUpTo(script, layout, asm, n).Some?
    ensures BlocksPlaced(script, layout, asm, n, PassUpTo(script, layout, asm, n).value.blocks)
  {
    if n > 0 {
      PassPlacesBlocks(script, layout, asm, n - 1);
      PassPlacesLines(script, layout, asm, n - 1);
      var was := PassUpTo(script, layout, asm, n - 1).value;
      StepPlaces(script, layout, asm, n, was);
      if IsCode(script.lines[n - 1]) {
        StepEmits(script, layout, asm, n - 1, was);
        CodeGrows(script, layout, asm, n - 1, was.blocks, was.at.value, PassUpTo(script, layout, asm, n).value.blocks);
      } else {
        MarkGrows(script, layout, asm, n - 1, was);
      }
    }
  }

  lemma {:induction false} FlattenAppend(blocks: seq<Block>, more: seq<Block>)
    ensures Flatten(blocks + more) == Flatten(blocks) + Flatten(more)
    decreases more
  {
    if more == [] {
      assert blocks + more == blocks;
    } else {
      var all := blocks + more;
      assert all[..|all| - 1] == blocks + more[..|more| - 1];
      FlattenAppend(blocks, more[..|more| - 1]);
    }
  }

  lemma {:induction false} FlattenNonEmpty(blocks: seq<Block>)
    ensures Flatten(NonEmpty(blocks)) == Flatten(blocks)
  {
    if blocks != [] {
      FlattenNonEmpty(blocks[1..]);
      assert blocks == [blocks[0]] + blocks[1..];
      FlattenAppend([blocks[0]], blocks[1..]);
      assert Flatten([blocks[0]]) == blocks[0].bytes;
      FlattenAppend(if blocks[0].bytes != [] then [blocks[0]] else [], NonEmpty(blocks[1..]));
    }
  }

  lemma NonEmptyKeeps(blocks: seq<Block>, a: int, held: seq<Byte>)
    requires Holds(blocks, a, held) && held != []
    ensures Holds(NonEmpty(blocks), a, held)
  {
    var b, o :| b in blocks && HeldIn(b, o, a, held);
    assert b in NonEmpty(blocks);
  }

  /** Settling names a layout whose own pass reproduces it. */
  lemma {:induction false} SettledReproduces(script: Script, start: Labels, asm: Assembler, passes: nat)
    requires Settle(script, start, asm, passes).Settled?
    ensures var s := Settle(script, start, asm, passes);
            && Pass(script, s.layout, asm).Some? && Agrees(s.layout, Pass(script, s.layout, asm).value.next)
            && s.blocks == Pass(script, s.layout, asm).value.blocks
            && (forall n :: n in start ==> n in s.layout)
            && (forall n :: n in start && n in s.layout && s.layout[n] != start[n] ==>
                  n in script.anchors || exists i :: 0 <= i < |script.lines| && Defines(script, i, n))
    decreases passes
  {
    var st := Pass(script, start, asm).value;
    PassPlacesLabels(script, start, asm, |script.lines|);
    if !Agrees(start, st.next) {
      SettledReproduces(script, start + st.next, asm, passes - 1);
    }
  }

  lemma TrimKeepsBlocks(script: Script, layout: Labels, asm: Assembler, n: nat, blocks: seq<Block>)
    requires n <= |script.lines| && BlocksPlaced(script, layout, asm, n, blocks)
    ensures BlocksPlaced(script, layout, asm, n, NonEmpty(blocks))
  {
    FlattenNonEmpty(blocks);
    forall i | 0 <= i < n
      ensures LineHeld(script, layout, asm, i, NonEmpty(blocks))
    {
      assert LineHeld(script, layout, asm, i, blocks);
      if LineBytes(script, layout, asm, i) != [] {
        NonEmptyKeeps(blocks, AddressAt(script, layout, asm, i).value, LineBytes(script, layout, asm, i));
      }
    }
  }

  ghost predicate Defined(script: Script, name: string)
  {
    name in script.anchors || exists i :: 0 <= i < |script.lines| && Defines(script, i, name)
  }

  lemma DeclaredAreDefined(script: Script, asm: Assembler, name: string)
    requires Compile(script, asm).Settled? && name in script.declared
    ensures Defined(script, name)
  {
    var first := FirstLayout(script);
    SettledReproduces(script, first, asm, MAX_LAYOUT_PASSES);
    var s := Settle(script, first, asm, MAX_LAYOUT_PASSES);
    if name !in script.anchors {
      assert name in DeclaredNames(script) && name in first && first[name] == script.placeholder;
      assert s.layout[name] != script.placeholder;
    }
  }

  /**
   What a successful compile guarantees. Under the final label values every code line assembles at its own
   address and its bytes lie in a block there; a label is the address of its last definition; the blocks are
   exactly the lines' bytes in order; and every declared label is defined.
   */
  lemma CompiledIsConsistent(script: Script, asm: Assembler)
    requires Compile(script, asm).Settled?
    ensures var c := Compile(script, asm);
            var n := |script.lines|;
            && Pass(script, c.layout, asm).Some?
            && LinesPlaced(script, c.layout, asm, n)
            && LabelsPlaced(script, c.layout, asm, n, Pass(script, c.layout, asm).value.next)
            && Agrees(c.layout, Pass(script, c.layout, asm).value.next)
            && BlocksPlaced(script, c.layout, asm, n, c.blocks)
            && (forall b :: b in c.blocks ==> b.bytes != [])
            && (forall name :: name in script.declared ==> Defined(script, name))
  {
    var first := FirstLayout(script);
    var s := Settle(script, first, asm, MAX_LAYOUT_PASSES);
    var n := |script.lines|;
    SettledReproduces(script, first, asm, MAX_LAYOUT_PASSES);
    PassPlacesLines(script, s.layout, asm, n);
    PassPlacesLabels(script, s.layout, asm, n);
    PassPlacesBlocks(script, s.layout, asm, n);
    TrimKeepsBlocks(script, s.layout, asm, n, s.blocks);
    forall name | name in script.declared ensures Defined(script, name) {
      DeclaredAreDefined(script, asm, name);
    }
  }

  /** With each label defined once, its final value is the address of that definition. */
  lemma LabelIsItsAddress(script: Script, asm: Assembler, name: string, i: nat)
    requires Compile(script, asm).Settled?
    requires i < |script.lines| && Defines(script, i, name)
    requires forall j :: 0 <= j < |script.lines| && Defines(script, j, name) ==> j == i
    ensures var c := Compile(script, asm);
            name in c.layout && AddressAt(script, c.layout, asm, i) == Some(c.layout[name])
  {
    CompiledIsConsistent(script, asm);
    assert LastDefinition(script, name, i, |script.lines|);
  }

  /**
   A layout that settles is refused only for a declared label still at its placeholder: one that is never
   defined, or one whose true address happens to equal the placeholder.
   */
  lemma RefusedOnlyAtPlaceholder(script: Script, asm: Assembler)
    requires Settle(script, FirstLayout(script), asm, MAX_LAYOUT_PASSES).Settled?
    ensures Compile(script, asm).Unassembled? <==>
            exists name :: name in DeclaredNames(script) && name !in script.anchors
              && ((forall i :: 0 <= i < |script.lines| ==> !Defines(script, i, name))
                  || exists i :: LastDefinition(script, name, i, |script.lines|)
                       && AddressAt(script, Settle(script, FirstLayout(script), asm, MAX_LAYOUT_PASSES).layout, asm, i)
                          == Some(script.placeholder))
  {
    var first := FirstLayout(script);
    var s := Settle(script, first, asm, MAX_LAYOUT_PASSES);
    SettledReproduces(script, first, asm, MAX_LAYOUT_PASSES);
    PassPlacesLabels(script, s.layout, asm, |script.lines|);
    forall name | name in DeclaredNames(script) && name !in script.anchors
      ensures s.layout[name] == script.placeholder <==>
              ((forall i :: 0 <= i < |script.lines| ==> !Defines(script, i, name))
                || exists i :: LastDefinition(script, name, i, |script.lines|)
                     && AddressAt(script, s.layout, asm, i) == Some(script.placeholder))
    {
      if i: nat :| 0 <= i < |script.lines| && Defines(script, i, name) {
        var k := LastOf(script, name, i, |script.lines|);
        assert LastDefinition(script, name, k, |script.lines|);
      }
    }
  }

  lemma LastOf(script: Script, name: string, i: nat, n: nat) returns (k: nat)
    requires i < n <= |script.lines| && Defines(script, i, name)
    ensures LastDefinition(script, name, k, n)
    decreases n - i
  {
    k := i;
    if j :| i < j < n && Defines(script, j, name) {
      k := LastOf(script, name, j, n);
    }
  }
}
