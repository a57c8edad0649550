/**
 What a compiled section contains, told from its lines: each data line's own bytes and each instruction's own code,
 at the addresses a cursor running down the lines gives, and nothing else.
 */
module Emission {
  import opened Common
  import opened Layout
  import opened LayoutConsistency

  /** Where line i stands: after the code before it, at the last anchor or origin. */
  function Cursor(script: Script, layout: Labels, asm: Assembler, i: nat): Option<int>
    requires i <= |script.lines|
  {
    if i == 0 then None
    else match script.lines[i - 1]
      case Label(name) =>
        if name in script.anchors then Some(script.anchors[name]) else Cursor(script, layout, asm, i - 1)
      case Origin(resolved) => resolved
      case Data(bytes) => Past(Cursor(script, layout, asm, i - 1), |bytes|)
      case BadData => None
      case Instruction(text) =>
        var at := Cursor(script, layout, asm, i - 1);
        if at.Some? && asm(text, at.value, layout).Some? then Past(at, |asm(text, at.value, layout).value|) else None
  }

  function Past(at: Option<int>, n: nat): Option<int>
  {
    match at
    case None => None
    case Some(a) => Some(a + n)
  }

  /** What line i puts into the target. */
  function Emitted(script: Script, layout: Labels, asm: Assembler, i: nat): seq<Byte>
    requires i < |script.lines|
  {
    match script.lines[i]
    case Data(bytes) => bytes
    case Instruction(text) =>
      var at := Cursor(script, layout, asm, i);
      if at.Some? && asm(text, at.value, layout).Some? then asm(text, at.value, layout).value else []
    case _ => []
  }

  function EmittedUpTo(script: Script, layout: Labels, asm: Assembler, n: nat): seq<Byte>
    requires n <= |script.lines|
  {
    if n == 0 then [] else EmittedUpTo(script, layout, asm, n - 1) + Emitted(script, layout, asm, n - 1)
  }

  lemma {:induction false} CursorIsAddress(script: Script, layout: Labels, asm: Assembler, i: nat)
    requires i <= |script.lines|
    ensures Cursor(script, layout, asm, i) == AddressAt(script, layout, asm, i)
  {
    if i > 0 { CursorIsAddress(script, layout, asm, i - 1); }
  }

  lemma EmittedIsLine(script: Script, layout: Labels, asm: Assembler, i: nat)
    requires i < |script.lines| && LinePlaced(script, layout, asm, i)
    ensures Emitted(script, layout, asm, i) == LineBytes(script, layout, asm, i)
  {
    CursorIsAddress(script, layout, asm, i);
  }

  lemma {:induction false} EmittedIsAll(script: Script, layout: Labels, asm: Assembler, n: nat)
    requires n <= |script.lines| && LinesPlaced(script, layout, asm, n)
    ensures EmittedUpTo(script, layout, asm, n) == AllBytes(script, layout, asm, n)
  {
    if n > 0 {
      EmittedIsAll(script, layout, asm, n - 1);
      EmittedIsLine(script, layout, asm, n - 1);
    }
  }

  /** Line i puts this byte at x. */
  predicate ComesFrom(script: Script, layout: Labels, asm: Assembler, i: nat, x: int, value: Byte)
    requires i < |script.lines|
  {
    var at, bytes := Cursor(script, layout, asm, i), Emitted(script, layout, asm, i);
    at.Some? && at.value <= x < at.value + |bytes| && bytes[x - at.value] == value
  }

  ghost predicate FromSomeLine(script: Script, layout: Labels, asm: Assembler, n: nat, x: int, value: Byte)
    requires n <= |script.lines|
  {
    exists i :: 0 <= i < n && ComesFrom(script, layout, asm, i, x, value)
  }

  ghost predicate BlockSourced(script: Script, layout: Labels, asm: Assembler, n: nat, b: Block)
    requires n <= |script.lines|
  {
    forall o :: 0 <= o < |b.bytes| ==> FromSomeLine(script, layout, asm, n, b.address + o, b.bytes[o])
  }

  /** No block holds anything but what some line puts there. */
  ghost predicate Sourced(script: Script, layout: Labels, asm: Assembler, n: nat, blocks: seq<Block>)
    requires n <= |script.lines|
  {
    forall b :: b in blocks ==> BlockSourced(script, layout, asm, n, b)
  }

  lemma SourcedLater(script: Script, layout: Labels, asm: Assembler, n: nat, blocks: seq<Block>)
    requires n < |script.lines| && Sourced(script, layout, asm, n, blocks)
    ensures Sourced(script, layout, asm, n + 1, blocks)
  {
    forall b | b in blocks ensures BlockSourced(script, layout, asm, n + 1, b) {
      forall o | 0 <= o < |b.bytes| ensures FromSomeLine(script, layout, asm, n + 1, b.address + o, b.bytes[o]) {
        assert FromSomeLine(script, layout, asm, n, b.address + o, b.bytes[o]);
      }
    }
  }

  /** The line's own bytes come from the line. */
  lemma LineSourced(script: Script, layout: Labels, asm: Assembler, n: nat, at: int, o: nat)
    requires n < |script.lines| && Cursor(script, layout, asm, n) == Some(at) && o < |Emitted(script, layout, asm, n)|
    ensures FromSomeLine(script, layout, asm, n + 1, at + o, Emitted(script, layout, asm, n)[o])
  {
    assert ComesFrom(script, layout, asm, n, at + o, Emitted(script, layout, asm, n)[o]);
  }

  lemma NewBlockSourced(script: Script, layout: Labels, asm: Assembler, n: nat, at: int, inside: bool)
    requires n < |script.lines| && Cursor(script, layout, asm, n) == Some(at)
    ensures BlockSourced(script, layout, asm, n + 1, Block(at, Emitted(script, layout, asm, n), inside))
  {
    forall o | 0 <= o < |Emitted(script, layout, asm, n)|
      ensures FromSomeLine(script, layout, asm, n + 1, at + o, Emitted(script, layout, asm, n)[o])
    {
      LineSourced(script, layout, asm, n, at, o);
    }
  }

  lemma JoinedBlockSourced(script: Script, layout: Labels, asm: Assembler, n: nat, b: Block, c: Block)
    requires n <= |script.lines| && BlockSourced(script, layout, asm, n, b) && BlockSourced(script, layout, asm, n, c)
    requires EndOf(b) == c.address
    ensures BlockSourced(script, layout, asm, n, b.(bytes := b.bytes + c.bytes))
  {
    var joined := b.bytes + c.bytes;
    forall o | 0 <= o < |joined| ensures FromSomeLine(script, layout, asm, n, b.address + o, joined[o]) {
      if o >= |b.bytes| {
        var k := o - |b.bytes|;
        assert joined[o] == c.bytes[k] && FromSomeLine(script, layout, asm, n, c.address + k, c.bytes[k]);
      }
    }
  }

  lemma LongerBlockSourced(script: Script, layout: Labels, asm: Assembler, n: nat, at: int, last: Block)
    requires n < |script.lines| && Cursor(script, layout, asm, n) == Some(at) && EndOf(last) == at
    requires BlockSourced(script, layout, asm, n + 1, last)
    ensures BlockSourced(script, layout, asm, n + 1, last.(bytes := last.bytes + Emitted(script, layout, asm, n)))
  {
    var more := Emitted(script, layout, asm, n);
    NewBlockSourced(script, layout, asm, n, at, last.intoAllocation);
    JoinedBlockSourced(script, layout, asm, n + 1, last, Block(at, more, last.intoAllocation));
  }

  lemma EmitSourced(script: Script, layout: Labels, asm: Assembler, n: nat, blocks: seq<Block>, at: int, inside: bool)
    requires n < |script.lines| && Cursor(script, layout, asm, n) == Some(at)
    requires Sourced(script, layout, asm, n, blocks)
    ensures Sourced(script, layout, asm, n + 1, Emit(blocks, at, Emitted(script, layout, asm, n), inside))
  {
    SourcedLater(script, layout, asm, n, blocks);
    if blocks == [] || EndOf(blocks[|blocks| - 1]) != at {
      NewBlockSourced(script, layout, asm, n, at, inside);
    } else {
      assert blocks[|blocks| - 1] in blocks;
      LongerBlockSourced(script, layout, asm, n, at, blocks[|blocks| - 1]);
    }
  }

  lemma StepSourced(script: Script, layout: Labels, asm: Assembler, n: nat, was: PassState)
    requires n < |script.lines| && was.at == AddressAt(script, layout, asm, n)
    requires Step(script, layout, asm, script.lines[n], was).Some? && LinePlaced(script, layout, asm, n)
    requires Sourced(script, layout, asm, n, was.blocks)
    ensures Sourced(script, layout, asm, n + 1, Step(script, layout, asm, script.lines[n], was).value.blocks)
  {
    if IsCode(script.lines[n]) {
      StepEmits(script, layout, asm, n, was);
      CursorIsAddress(script, layout, asm, n);
      EmittedIsLine(script, layout, asm, n);
      EmitSourced(script, layout, asm, n, was.blocks, was.at.value, InsideAllocation(script.allocations, was.at.value));
    } else {
      SourcedLater(script, layout, asm, n, was.blocks);
    }
  }

  lemma {:induction false} PassSourced(script: Script, layout: Labels, asm: Assembler, n: nat)
    requires n <= |script.lines| && PassUpTo(script, layout, asm, n).Some?
    ensures Sourced(script, layout, asm, n, PassUpTo(script, layout, asm, n).value.blocks)
  {
    if n > 0 {
      PassSourced(script, layout, asm, n - 1);
      PassPlacesLines(script, layout, asm, n - 1);
      PassPlacesLines(script, layout, asm, n);
      assert LinePlaced(script, layout, asm, n - 1);
      StepSourced(script, layout, asm, n - 1, PassUpTo(script, layout, asm, n - 1).value);
    }
  }

  /** A data line's bytes, and an instruction's code where it stands, lie in the blocks at the line's address. */
  ghost predicate LineCompiled(script: Script, layout: Labels, asm: Assembler, i: nat, blocks: seq<Block>)
    requires i < |script.lines|
  {
    var at := Cursor(script, layout, asm, i);
    match script.lines[i]
    case Data(bytes) => at.Some? && (bytes != [] ==> Holds(blocks, at.value, bytes))
    case Instruction(text) =>
      && at.Some? && asm(text, at.value, layout).Some?
      && (asm(text, at.value, layout).value != [] ==> Holds(blocks, at.value, asm(text, at.value, layout).value))
    case BadData => false
    case _ => true
  }

  /**
   What a successful compile emits, under the final label values: every data line's bytes and every instruction's code
   in a block at the line's address, in the order of the lines, and nothing else. Every label is where its last
   definition stands.
   */
  lemma CompiledBytes(script: Script, asm: Assembler)
    requires Compile(script, asm).Settled?
    ensures var c := Compile(script, asm);
            var n := |script.lines|;
            && (forall i :: 0 <= i < n ==> LineCompiled(script, c.layout, asm, i, c.blocks))
            && Sourced(script, c.layout, asm, n, c.blocks)
            && Flatten(c.blocks) == EmittedUpTo(script, c.layout, asm, n)
            && (forall name, i :: LastDefinition(script, name, i, n) ==>
                  name in c.layout && Cursor(script, c.layout, asm, i) == Some(c.layout[name]))
  {
    CompiledIsConsistent(script, asm);
    var c, n := Compile(script, asm), |script.lines|;
    EmittedIsAll(script, c.layout, asm, n);
    PassSourced(script, c.layout, asm, n);
    SettledReproduces(script, FirstLayout(script), asm, MAX_LAYOUT_PASSES);
    forall i: nat | i < n ensures LineCompiled(script, c.layout, asm, i, c.blocks) {
      CompiledLine(script, c.layout, asm, i, c.blocks);
    }
    forall name, i: nat | LastDefinition(script, name, i, n)
      ensures name in c.layout && Cursor(script, c.layout, asm, i) == Some(c.layout[name])
    {
      CursorIsAddress(script, c.layout, asm, i);
    }
  }

  lemma CompiledLine(script: Script, layout: Labels, asm: Assembler, i: nat, blocks: seq<Block>)
    requires i < |script.lines| && LinePlaced(script, layout, asm, i) && LineHeld(script, layout, asm, i, blocks)
    ensures LineCompiled(script, layout, asm, i, blocks)
  {
    CursorIsAddress(script, layout, asm, i);
    EmittedIsLine(script, layout, asm, i);
  }
}
