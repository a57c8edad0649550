/**
 Pass two of the auto-assembler: lay the lines out under the current label values, compare the labels
 that come out with the ones that went in, and repeat until nothing moves or the pass limit is reached.
 The assembler is any function of an instruction's text, its address and the label values.
 */
module Layout {
  import opened Common

  const MAX_LAYOUT_PASSES := 8

  // The lines of a section that are not directives, with definitions already substituted.
  datatype Line =
    | Label(name: string)
    | Origin(resolved: Option<int>)
    | Data(bytes: seq<Byte>)
    | BadData
    | Instruction(text: string)

  type Labels = map<string, int>

  type Assembler = (string, int, Labels) -> Option<seq<Byte>>

  datatype Block = Block(address: int, bytes: seq<Byte>, intoAllocation: bool)

  datatype Range = Range(low: int, high: int)

  // anchors: names with a value before layout. declared: names label() introduced.
  datatype Script = Script(lines: seq<Line>, anchors: Labels, declared: seq<string>, placeholder: int,
                           allocations: seq<Range>)

  datatype PassState = PassState(next: Labels, blocks: seq<Block>, at: Option<int>)

  predicate InsideAllocation(allocations: seq<Range>, a: int)
  {
    exists r | r in allocations :: r.low <= a < r.high
  }

  /** What a code line assembles to; None for lines that hold no bytes and for those that do not assemble. */
  function CodeBytes(line: Line, at: int, layout: Labels, asm: Assembler): Option<seq<Byte>>
  {
    match line
    case Data(bytes) => Some(bytes)
    case Instruction(text) => asm(text, at, layout)
    case _ => None
  }

  predicate IsCode(line: Line) { line.Data? || line.BadData? || line.Instruction? }

  function EndOf(b: Block): int { b.address + |b.bytes| }

  /** Bytes go to the end of the last block when they continue it, otherwise to a new one. */
  function Emit(blocks: seq<Block>, at: int, bytes: seq<Byte>, inside: bool): seq<Block>
  {
    if blocks == [] || EndOf(blocks[|blocks| - 1]) != at then blocks + [Block(at, bytes, inside)]
    else
      var last := blocks[|blocks| - 1];
      blocks[..|blocks| - 1] + [last.(bytes := last.bytes + bytes)]
  }

  function Step(script: Script, layout: Labels, asm: Assembler, line: Line, st: PassState): Option<PassState>
  {
    match line
    case Label(name) =>
      if name in script.anchors then
        var a := script.anchors[name];
        Some(PassState(st.next, st.blocks + [Block(a, [], InsideAllocation(script.allocations, a))], Some(a)))
      else if st.at.None? then None
      else Some(st.(next := st.next[name := st.at.value]))
    case Origin(resolved) =>
      if resolved.None? then None
      else
        var a := resolved.value;
        Some(PassState(st.next, st.blocks + [Block(a, [], InsideAllocation(script.allocations, a))], Some(a)))
    case _ =>
      if st.at.None? then None
      else match CodeBytes(line, st.at.value, layout, asm)
        case None => None
        case Some(bytes) =>
          Some(PassState(st.next,
                         Emit(st.blocks, st.at.value, bytes, InsideAllocation(script.allocations, st.at.value)),
                         Some(st.at.value + |bytes|)))
  }

  /** The first n lines of one pass. */
  function PassUpTo(script: Script, layout: Labels, asm: Assembler, n: nat): Option<PassState>
    requires n <= |script.lines|
  {
    if n == 0 then Some(PassState(script.anchors, [], None))
    else match PassUpTo(script, layout, asm, n - 1)
      case None => None
      case Some(st) => Step(script, layout, asm, script.lines[n - 1], st)
  }

  function Pass(script: Script, layout: Labels, asm: Assembler): Option<PassState>
  {
    PassUpTo(script, layout, asm, |script.lines|)
  }

  predicate Agrees(layout: Labels, next: Labels)
  {
    forall name | name in next :: name in layout && layout[name] == next[name]
  }

  datatype Settling = Unassembled | Unsettled | Settled(layout: Labels, blocks: seq<Block>)

  /** Passes from a layout until one leaves it unchanged, at most this many. */
  function Settle(script: Script, layout: Labels, asm: Assembler, passes: nat): Settling
    decreases passes
  {
    if passes == 0 then Unsettled
    else match Pass(script, layout, asm)
      case None => Unassembled
      case Some(st) =>
        if Agrees(layout, st.next) then Settled(layout, st.blocks)
        else Settle(script, layout + st.next, asm, passes - 1)
  }

  /** Every label the section mentions, whether by label() or by defining it. */
  function DeclaredNames(script: Script): (names: set<string>)
    ensures forall n :: n in names <==> n in script.declared || Label(n) in script.lines
  {
    (set n | n in script.declared) + (set line | line in script.lines && line.Label? :: line.name)
  }

  function FirstLayout(script: Script): (layout: Labels)
    ensures forall n :: n in layout <==> n in script.anchors || n in DeclaredNames(script)
    ensures forall n :: n in script.anchors ==> layout[n] == script.anchors[n]
    ensures forall n :: n in layout && n !in script.anchors ==> layout[n] == script.placeholder
  {
    map n | n in script.anchors.Keys + DeclaredNames(script) ::
      if n in script.anchors then script.anchors[n] else script.placeholder
  }

  /** A declared label that still has its placeholder value is reported as never defined. */
  predicate LooksUndefined(script: Script, layout: Labels)
  {
    exists n | n in DeclaredNames(script) ::
      n !in script.anchors && n in layout && layout[n] == script.placeholder
  }

  function NonEmpty(blocks: seq<Block>): (kept: seq<Block>)
    ensures forall b :: b in kept <==> b in blocks && b.bytes != []
  {
    if blocks == [] then []
    else (if blocks[0].bytes != [] then [blocks[0]] else []) + NonEmpty(blocks[1..])
  }

  function Compile(script: Script, asm: Assembler): Settling
  {
    match Settle(script, FirstLayout(script), asm, MAX_LAYOUT_PASSES)
    case Unassembled => Unassembled
    case Unsettled => Unsettled
    case Settled(layout, blocks) =>
      if LooksUndefined(script, layout) then Unassembled else Settled(layout, NonEmpty(blocks))
  }

  /** One line of a pass, in the order the source tests what it is. */
  method LayOutLine(script: Script, layout: Labels, asm: Assembler, line: Line, st: PassState)
    returns (after: Option<PassState>)
    ensures after == Step(script, layout, asm, line, st)
  {
    var next, blocks, at := st.next, st.blocks, st.at;
    if line.Label? && line.name !in script.anchors {
      if at.None? {
        return None;
      }
      next := next[line.name := at.value];
    } else if line.Label? || line.Origin? {
      at := if line.Label? then Some(script.anchors[line.name]) else line.resolved;
      if at.None? {
        return None;
      }
      blocks := blocks + [Block(at.value, [], InsideAllocation(script.allocations, at.value))];
    } else {
      var bytes := if at.None? then None else CodeBytes(line, at.value, layout, asm);
      if bytes.None? {
        return None;
      }
      if blocks == [] || EndOf(blocks[|blocks| - 1]) != at.value {
        blocks := blocks + [Block(at.value, [], InsideAllocation(script.allocations, at.value))];
        assert [] + bytes.value == bytes.value;
      }
      var last := blocks[|blocks| - 1];
      blocks := blocks[..|blocks| - 1] + [last.(bytes := last.bytes + bytes.value)];
      at := Some(at.value + |bytes.value|);
    }
    return Some(PassState(next, blocks, at));
  }

  method LayOutLines(script: Script, layout: Labels, asm: Assembler) returns (laidOut: Option<PassState>)
    ensures laidOut == Pass(script, layout, asm)
  {
    var st := PassState(script.anchors, [], None);
    for n := 0 to |script.lines|
      invariant PassUpTo(script, layout, asm, n) == Some(st)
    {
      var after := LayOutLine(script, layout, asm, script.lines[n], st);
      if after.None? {
        PassFails(script, layout, asm, n + 1);
        return None;
      }
      st := after.value;
    }
    return Some(st);
  }

  /** The passes as the source runs them: an outer loop over layouts, an inner one over lines. */
  method CompileSection(script: Script, asm: Assembler) returns (outcome: Settling)
    ensures outcome == Compile(script, asm)
  {
    var layout := FirstLayout(script);
    var blocks: seq<Block> := [];
    var settled := false;
    var pass := 0;
    while pass < MAX_LAYOUT_PASSES && !settled
      invariant 0 <= pass <= MAX_LAYOUT_PASSES
      invariant Settle(script, FirstLayout(script), asm, MAX_LAYOUT_PASSES)
                == if settled then Settled(layout, blocks) else Settle(script, layout, asm, MAX_LAYOUT_PASSES - pass)
      decreases MAX_LAYOUT_PASSES - pass, !settled
    {
      var laidOut := LayOutLines(script, layout, asm);
      if laidOut.None? {
        return Unassembled;
      }
      blocks := laidOut.value.blocks;
      settled := Agrees(layout, laidOut.value.next);
      if !settled {
        layout := layout + laidOut.value.next;
      }
      pass := pass + 1;
    }
    if !settled {
      return Unsettled;
    }
    if LooksUndefined(script, layout) {
      return Unassembled;
    }
    return Settled(layout, NonEmpty(blocks));
  }

  lemma {:induction false} PassFails(script: Script, layout: Labels, asm: Assembler, n: nat)
    requires n <= |script.lines| && PassUpTo(script, layout, asm, n).None?
    ensures Pass(script, layout, asm).None?
    decreases |script.lines| - n
  {
    if n < |script.lines| { PassFails(script, layout, asm, n + 1); }
  }
}
