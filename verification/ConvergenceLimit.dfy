/**
 The bound on passes is exact. For every n there is a script of n labels and x86 jumps to them, each label defined
 once and every length depending on earlier labels only, that has not settled after n passes.
 */
module ConvergenceLimit {
  import opened Common
  import opened Layout
  import opened LayoutConsistency
  import opened Convergence

  const ORIGIN := 0x1000_0000
  // The placeholder of a script that knows no symbol.
  const NO_SYMBOLS := 0x2000_0000

  const TWO_TO_THE_31 := 0x8000_0000
  // How far from its own address a two-byte jump reaches forwards.
  const SHORT_REACH := 129

  /** The 32-bit two's complement pattern of a number, low byte first. */
  function LittleEndian32(d: int): seq<Byte>
  {
    [d % 0x100, d / 0x100 % 0x100, d / 0x1_0000 % 0x100, d / 0x100_0000 % 0x100]
  }

  /** jmp over a distance from its own address: EB and a signed byte when that fits, else E9 and 32 signed bits. */
  function EncodeJump(distance: int): (code: Option<seq<Byte>>)
    ensures 0 <= distance <= SHORT_REACH ==> code.Some? && |code.value| == 2
    ensures SHORT_REACH < distance < TWO_TO_THE_31 ==> code.Some? && |code.value| == 5
    ensures -TWO_TO_THE_31 + 5 <= distance < TWO_TO_THE_31 ==> code.Some? && 2 <= |code.value| <= 5
  {
    if -0x80 <= distance - 2 < 0x80 then Some([0xEB, (distance - 2) % 0x100])
    else if -TWO_TO_THE_31 <= distance - 5 < TWO_TO_THE_31 then Some([0xE9] + LittleEndian32(distance - 5))
    else None
  }

  const CLEAR := "xor eax, eax"
  const JUMP := "jmp "

  /** As much of an x86 assembler as the script needs. */
  function Assemble(text: string, at: int, layout: Labels): Option<seq<Byte>>
  {
    if text == CLEAR then Some([0x31, 0xC0])
    else if JUMP <= text && text[|JUMP|..] in layout then EncodeJump(layout[text[|JUMP|..]] - at)
    else None
  }

  function Name(j: nat): (name: string)
    ensures |name| == j
  {
    seq(j, _ => 'a')
  }

  lemma AssembleJump(j: nat, at: int, layout: Labels)
    requires Name(j) in layout
    ensures Assemble(JUMP + Name(j), at, layout) == EncodeJump(layout[Name(j)] - at)
  {
    var text := JUMP + Name(j);
    assert text[|JUMP|..] == Name(j) && text[0] == 'j';
  }

  function Start(step: nat, j: nat): int { ORIGIN - step * j }

  /** Label j's address when the two bytes before its data are enough. */
  function Close(step: nat, j: nat): int { Start(step, j) + SHORT_REACH - step }

  lemma CloseIsInReach(step: nat, j: nat)
    ensures Close(step, j) == Start(step, j + 1) + SHORT_REACH
  {
  }

  function Padding(step: nat): seq<Byte>
    requires step <= 66
  {
    seq(SHORT_REACH - 2 - step, _ => 0)
  }

  function CodeText(j: nat): string
    requires j > 0
  {
    if j == 1 then CLEAR else JUMP + Name(j - 1)
  }

  /** Group j, from 1: an origin, a jump to label j - 1 (the first clears a register instead), data, label j. */
  function GroupLine(step: nat, j: nat, r: nat): Line
    requires step <= 66 && j > 0
  {
    match r
    case 0 => Origin(Some(Start(step, j)))
    case 1 => Instruction(CodeText(j))
    case 2 => Data(Padding(step))
    case _ => Label(Name(j))
  }

  /** Groups a step below one another; with a step of 66 they lie end to end. */
  function Chain(step: nat, n: nat): (script: Script)
    requires step <= 66
    ensures |script.lines| == 4 * n
  {
    Script(seq(4 * n, i requires 0 <= i < 4 * n => GroupLine(step, i / 4 + 1, i % 4)), map[], [], NO_SYMBOLS, [])
  }

  lemma ChainLine(step: nat, n: nat, j: nat, r: nat)
    requires step <= 66 && 1 <= j <= n && r < 4
    ensures Chain(step, n).lines[4 * j - 4 + r] == GroupLine(step, j, r)
  {
    var i := 4 * j - 4 + r;
    assert i / 4 == j - 1 && i % 4 == r;
  }

  predicate Room(step: nat, n: nat) { step <= 66 && step * n <= ORIGIN }

  lemma StartInRoom(step: nat, n: nat, j: nat)
    requires Room(step, n) && j <= n
    ensures 0 <= Start(step, j) <= ORIGIN
  {
    assert step * j <= step * n;
  }

  lemma LabelLine(step: nat, n: nat, j: nat)
    requires step <= 66 && 1 <= j <= n
    ensures Defines(Chain(step, n), 4 * j - 1, Name(j)) && Name(j) in DeclaredNames(Chain(step, n))
  {
    ChainLine(step, n, j, 3);
    assert Chain(step, n).lines[4 * j - 1] in Chain(step, n).lines;
  }

  /** A line that defines a label is the last of that label's group. */
  lemma DefinesInGroup(step: nat, n: nat, i: nat, name: string)
    requires step <= 66 && i < 4 * n && Defines(Chain(step, n), i, name)
    ensures i == 4 * |name| - 1 && 1 <= |name| <= n && name == Name(|name|)
  {
    ChainLine(step, n, i / 4 + 1, i % 4);
    assert name == Name(i / 4 + 1);
  }

  /** Only the last line of a group defines a label. */
  lemma LabelIsLast(step: nat, n: nat, i: nat)
    requires step <= 66 && i < 4 * n
    ensures Chain(step, n).lines[i].Label? <==> i % 4 == 3
  {
    ChainLine(step, n, i / 4 + 1, i % 4);
  }

  lemma {:induction false} EveryFourthDefines(script: Script, i: nat)
    requires i <= |script.lines| && script.anchors == map[]
    requires forall k :: 0 <= k < |script.lines| ==> (script.lines[k].Label? <==> k % 4 == 3)
    ensures Definitions(script, i) == i / 4
  {
    if i > 0 { EveryFourthDefines(script, i - 1); }
  }

  lemma ChainDefinitions(step: nat, n: nat, i: nat)
    requires step <= 66 && i <= 4 * n
    ensures Definitions(Chain(step, n), i) == i / 4
  {
    forall k | 0 <= k < 4 * n ensures Chain(step, n).lines[k].Label? <==> k % 4 == 3 {
      LabelIsLast(step, n, k);
    }
    EveryFourthDefines(Chain(step, n), i);
  }

  /** Layouts that hold every label, each no further up than the placeholder. */
  ghost predicate InReach(step: nat, n: nat, layout: Labels)
    requires step <= 66
  {
    Fits(Chain(step, n), layout) && forall j: nat :: 1 <= j <= n ==> Reachable(layout, j)
  }

  predicate Reachable(layout: Labels, j: nat)
  {
    Name(j) in layout && 0 <= layout[Name(j)] <= NO_SYMBOLS
  }

  ghost function Reach(step: nat, n: nat): iset<Labels>
    requires step <= 66
  {
    iset layout | InReach(step, n, layout)
  }

  function Place(step: nat, n: nat, layout: Labels, i: nat): Option<int>
    requires step <= 66 && i <= 4 * n
  {
    AddressAt(Chain(step, n), layout, Assemble, i)
  }

  /** The code of group j under a layout, None when its jump does not assemble. */
  function Code(step: nat, layout: Labels, j: nat): Option<seq<Byte>>
    requires j > 0
  {
    Assemble(CodeText(j), Start(step, j), layout)
  }

  /** An origin, an instruction and data: where each of them ends. */
  lemma AfterGroup(script: Script, layout: Labels, asm: Assembler, i: nat, start: int, text: string, padding: seq<Byte>)
    requires i + 3 <= |script.lines| && script.lines[i] == Origin(Some(start))
    requires script.lines[i + 1] == Instruction(text) && script.lines[i + 2] == Data(padding)
    ensures AddressAt(script, layout, asm, i + 1) == Some(start)
    ensures asm(text, start, layout).Some? ==>
              AddressAt(script, layout, asm, i + 3) == Some(start + |asm(text, start, layout).value| + |padding|)
  {
    assert AddressAt(script, layout, asm, i + 1) == Some(start);
    if asm(text, start, layout).Some? {
      assert AddressAt(script, layout, asm, i + 2) == Some(start + |asm(text, start, layout).value|);
    }
  }

  /** Each group starts at its own origin, so its label's address follows from its own code alone. */
  lemma GroupPlaces(step: nat, n: nat, layout: Labels, j: nat)
    requires step <= 66 && 1 <= j <= n
    ensures Place(step, n, layout, 4 * j - 3) == Some(Start(step, j))
    ensures Code(step, layout, j).Some? ==>
              Place(step, n, layout, 4 * j - 1)
              == Some(Start(step, j) + |Code(step, layout, j).value| + SHORT_REACH - 2 - step)
  {
    ChainLine(step, n, j, 0);
    ChainLine(step, n, j, 1);
    ChainLine(step, n, j, 2);
    AfterGroup(Chain(step, n), layout, Assemble, 4 * j - 4, Start(step, j), CodeText(j), Padding(step));
  }

  /** Under a layout in reach every group assembles, to at most five bytes. */
  lemma CodeAssembles(step: nat, n: nat, layout: Labels, j: nat)
    requires Room(step, n) && InReach(step, n, layout) && 1 <= j <= n
    ensures Code(step, layout, j).Some? && 2 <= |Code(step, layout, j).value| <= 5
  {
    if j > 1 {
      StartInRoom(step, n, j);
      assert Reachable(layout, j - 1);
      AssembleJump(j - 1, Start(step, j), layout);
    }
  }

  lemma ChainIsWellFormed(step: nat, n: nat)
    requires step <= 66
    ensures WellFormed(Chain(step, n)) && DefinedOnce(Chain(step, n))
  {
    var script := Chain(step, n);
    forall i: nat, j: nat, name | i < 4 * n && j < 4 * n && Defines(script, i, name) && Defines(script, j, name)
      ensures i == j
    {
      DefinesInGroup(step, n, i, name);
      DefinesInGroup(step, n, j, name);
    }
    forall i: nat | i < 4 * n
      ensures !script.lines[i].BadData? && (script.lines[i].Origin? ==> script.lines[i].resolved.Some?)
      ensures Positions(script, i) || exists j :: 0 <= j < i && Positions(script, j)
    {
      ChainLine(step, n, i / 4 + 1, i % 4);
      ChainLine(step, n, 1, 0);
      assert Positions(script, 0);
    }
  }

  /** An instruction is the second line of its group. */
  lemma InstructionInGroup(step: nat, n: nat, i: nat)
    requires step <= 66 && i < 4 * n && Chain(step, n).lines[i].Instruction?
    ensures i % 4 == 1 && Chain(step, n).lines[i] == GroupLine(step, i / 4 + 1, 1)
  {
    ChainLine(step, n, i / 4 + 1, i % 4);
  }

  lemma InstructionPlace(step: nat, n: nat, layout: Labels, i: nat)
    requires step <= 66 && i < 4 * n && Chain(step, n).lines[i].Instruction?
    ensures i % 4 == 1 && Chain(step, n).lines[i].text == CodeText(i / 4 + 1)
    ensures Place(step, n, layout, i) == Some(Start(step, i / 4 + 1))
  {
    InstructionInGroup(step, n, i);
    GroupPlaces(step, n, layout, i / 4 + 1);
  }

  lemma ChainAssembles(step: nat, n: nat, layout: Labels)
    requires Room(step, n) && InReach(step, n, layout)
    ensures Assembles(Chain(step, n), Assemble, layout)
  {
    var script := Chain(step, n);
    forall i: nat | i < |script.lines| && script.lines[i].Instruction? && AddressAt(script, layout, Assemble, i).Some?
      ensures AssemblesAlike(Assemble, script.lines[i].text, AddressAt(script, layout, Assemble, i).value,
                             layout, layout)
    {
      InstructionPlace(step, n, layout, i);
      CodeAssembles(step, n, layout, i / 4 + 1);
    }
  }

  /** What the next pass gives label j. */
  lemma NextAt(step: nat, n: nat, layout: Labels, j: nat)
    requires Room(step, n) && InReach(step, n, layout) && 1 <= j <= n
    ensures Code(step, layout, j).Some?
    ensures var next := NextLayout(Chain(step, n), Assemble, layout);
            Name(j) in next && next[Name(j)] == Close(step, j) + |Code(step, layout, j).value| - 2
  {
    ChainIsWellFormed(step, n);
    ChainAssembles(step, n, layout);
    NextHoldsAddresses(Chain(step, n), Assemble, layout);
    LabelLine(step, n, j);
    CodeAssembles(step, n, layout, j);
    GroupPlaces(step, n, layout, j);
  }

  lemma StaysInReach(step: nat, n: nat, layout: Labels)
    requires Room(step, n) && InReach(step, n, layout)
    ensures InReach(step, n, NextLayout(Chain(step, n), Assemble, layout))
  {
    ChainIsWellFormed(step, n);
    ChainAssembles(step, n, layout);
    NextHoldsAddresses(Chain(step, n), Assemble, layout);
    forall j: nat | 1 <= j <= n ensures Reachable(NextLayout(Chain(step, n), Assemble, layout), j) {
      NextAt(step, n, layout, j);
      CodeAssembles(step, n, layout, j);
      StartInRoom(step, n, j);
    }
  }

  lemma ChainConverges(step: nat, n: nat)
    requires Room(step, n)
    ensures Converges(Chain(step, n), Assemble, Reach(step, n))
    ensures FirstLayout(Chain(step, n)) in Reach(step, n)
    ensures Definitions(Chain(step, n), |Chain(step, n).lines|) == n
  {
    var script := Chain(step, n);
    ChainIsWellFormed(step, n);
    ChainDefinitions(step, n, 4 * n);
    forall layout | layout in Reach(step, n)
      ensures Fits(script, layout) && NextLayout(script, Assemble, layout) in Reach(step, n)
    {
      StaysInReach(step, n, layout);
    }
    forall i: nat, l, m |
      i < 4 * n && script.lines[i].Instruction? && l in Reach(step, n) && m in Reach(step, n)
      && AlikeBefore(script, Assemble, l, m, i)
      ensures AssemblesAlike(Assemble, script.lines[i].text, AddressAt(script, l, Assemble, i).value, l, m)
    {
      SameCode(step, n, l, m, i);
    }
    forall j: nat | 1 <= j <= n ensures Reachable(FirstLayout(script), j) {
      LabelLine(step, n, j);
    }
  }

  /** A jump depends on the label before it alone. */
  lemma SameCode(step: nat, n: nat, l: Labels, m: Labels, i: nat)
    requires Room(step, n) && InReach(step, n, l) && InReach(step, n, m)
    requires i < 4 * n && Chain(step, n).lines[i].Instruction? && AlikeBefore(Chain(step, n), Assemble, l, m, i)
    ensures AssemblesAlike(Assemble, Chain(step, n).lines[i].text, AddressAt(Chain(step, n), l, Assemble, i).value,
                           l, m)
  {
    var j := i / 4 + 1;
    InstructionPlace(step, n, l, i);
    CodeAssembles(step, n, l, j);
    assert Code(step, l, j) == Code(step, m, j) by {
      if j > 1 {
        SameTarget(step, n, l, m, j - 1, i);
        AssembleJump(j - 1, Start(step, j), l);
        AssembleJump(j - 1, Start(step, j), m);
      }
    }
  }

  lemma SameTarget(step: nat, n: nat, l: Labels, m: Labels, j: nat, i: nat)
    requires step <= 66 && 1 <= j <= n && 4 * j <= i < 4 * n
    requires AgreeOn(Chain(step, n), l, m, Definitions(Chain(step, n), i))
    ensures SameValue(l, m, Name(j))
  {
    LabelLine(step, n, j);
    ChainDefinitions(step, n, i);
    ChainDefinitions(step, n, 4 * j - 1);
  }

  /** The first k labels are final, and every later one lies beyond its final address. */
  ghost predicate Shape(step: nat, n: nat, layout: Labels, k: nat)
    requires step <= 66
  {
    && InReach(step, n, layout)
    && (forall j: nat :: 1 <= j <= k && j <= n ==> IsClose(step, layout, j))
    && (forall j: nat :: k < j <= n ==> IsBeyond(step, layout, j))
  }

  predicate IsClose(step: nat, layout: Labels, j: nat)
  {
    Name(j) in layout && layout[Name(j)] == Close(step, j)
  }

  predicate IsBeyond(step: nat, layout: Labels, j: nat)
  {
    Name(j) in layout && Close(step, j) < layout[Name(j)]
  }

  /** The jump to a label in its final place is short, the jump to one beyond it is near. */
  lemma CodeUnder(step: nat, n: nat, layout: Labels, k: nat, j: nat)
    requires Room(step, n) && Shape(step, n, layout, k) && 1 <= j <= n
    ensures Code(step, layout, j).Some? && |Code(step, layout, j).value| == if j <= k + 1 then 2 else 5
  {
    if j > 1 {
      StartInRoom(step, n, j);
      assert Reachable(layout, j - 1);
      AssembleJump(j - 1, Start(step, j), layout);
      CloseIsInReach(step, j - 1);
      assert if j - 1 <= k then IsClose(step, layout, j - 1) else IsBeyond(step, layout, j - 1);
    }
  }

  lemma ShapeAdvances(step: nat, n: nat, layout: Labels, k: nat)
    requires Room(step, n) && Shape(step, n, layout, k)
    ensures Shape(step, n, NextLayout(Chain(step, n), Assemble, layout), k + 1)
  {
    var next := NextLayout(Chain(step, n), Assemble, layout);
    StaysInReach(step, n, layout);
    forall j: nat | 1 <= j <= n
      ensures if j <= k + 1 then IsClose(step, next, j) else IsBeyond(step, next, j)
    {
      NextAt(step, n, layout, j);
      CodeUnder(step, n, layout, k, j);
    }
  }

  /** As long as a label is missing from its final place, the pass moves it there. */
  lemma ShapeMoves(step: nat, n: nat, layout: Labels, k: nat)
    requires Room(step, n) && Shape(step, n, layout, k) && k < n
    ensures Pass(Chain(step, n), layout, Assemble).Some?
    ensures !Agrees(layout, Pass(Chain(step, n), layout, Assemble).value.next)
  {
    ChainIsWellFormed(step, n);
    ChainAssembles(step, n, layout);
    NextHoldsAddresses(Chain(step, n), Assemble, layout);
    ShapeAdvances(step, n, layout, k);
    assert IsClose(step, NextLayout(Chain(step, n), Assemble, layout), k + 1) && IsBeyond(step, layout, k + 1);
  }

  lemma {:induction false} ChainKeepsMoving(step: nat, n: nat, layout: Labels, k: nat, passes: nat)
    requires Room(step, n) && Shape(step, n, layout, k) && k + passes <= n
    ensures Settle(Chain(step, n), layout, Assemble, passes).Unsettled?
    decreases passes
  {
    if passes > 0 {
      ShapeAdvances(step, n, layout, k);
      ShapeMoves(step, n, layout, k);
      ChainKeepsMoving(step, n, NextLayout(Chain(step, n), Assemble, layout), k + 1, passes - 1);
    }
  }

  lemma FirstShape(step: nat, n: nat)
    requires Room(step, n)
    ensures Shape(step, n, FirstLayout(Chain(step, n)), 0)
  {
    ChainConverges(step, n);
    forall j: nat | 1 <= j <= n ensures IsBeyond(step, FirstLayout(Chain(step, n)), j) {
      LabelLine(step, n, j);
      StartInRoom(step, n, j);
    }
  }

  /** n labels need n + 1 passes: any fewer are not enough. */
  lemma ChainIsUnsettled(step: nat, n: nat, passes: nat)
    requires Room(step, n) && passes <= n
    ensures Settle(Chain(step, n), FirstLayout(Chain(step, n)), Assemble, passes).Unsettled?
  {
    FirstShape(step, n);
    ChainKeepsMoving(step, n, FirstLayout(Chain(step, n)), 0, passes);
  }

  /** Every section of n labels whose lengths depend on earlier labels only settles within this many passes. */
  ghost predicate AllSettle(n: nat, passes: nat)
  {
    forall script, asm, reach ::
      Converges(script, asm, reach) && FirstLayout(script) in reach && Definitions(script, |script.lines|) == n
      ==> Settle(script, FirstLayout(script), asm, passes).Settled?
  }

  /** The bound is exact: n labels always settle within a number of passes if and only if it is above n. */
  lemma PassesNeededExactly(n: nat, passes: nat)
    ensures AllSettle(n, passes) <==> n < passes
  {
    if n < passes {
      forall script, asm, reach |
        Converges(script, asm, reach) && FirstLayout(script) in reach && Definitions(script, |script.lines|) == n
        ensures Settle(script, FirstLayout(script), asm, passes).Settled?
      {
        LabelsSettle(script, asm, reach, passes);
      }
    } else {
      ChainConverges(0, n);
      ChainIsUnsettled(0, n, passes);
      assert Converges(Chain(0, n), Assemble, Reach(0, n));
    }
  }

  /** The compiler gives up on no section of n labels whose lengths depend on earlier labels only. */
  ghost predicate NoneGivenUp(n: nat)
  {
    forall script, asm, reach ::
      Converges(script, asm, reach) && FirstLayout(script) in reach && Definitions(script, |script.lines|) == n
      ==> !Compile(script, asm).Unsettled?
  }

  lemma GivenUpExactly(n: nat)
    ensures NoneGivenUp(n) <==> n < MAX_LAYOUT_PASSES
  {
    if n < MAX_LAYOUT_PASSES {
      forall script, asm, reach |
        Converges(script, asm, reach) && FirstLayout(script) in reach && Definitions(script, |script.lines|) == n
        ensures !Compile(script, asm).Unsettled?
      {
        LabelsSettle(script, asm, reach, MAX_LAYOUT_PASSES);
      }
    } else {
      ChainConverges(0, n);
      ChainIsUnsettled(0, n, MAX_LAYOUT_PASSES);
      assert Converges(Chain(0, n), Assemble, Reach(0, n));
    }
  }

  /** Eight groups end to end are refused although the ninth pass would settle them. */
  lemma EightLabelsReachTheLimit()
    ensures Compile(Chain(66, 8), Assemble).Unsettled?
    ensures Settle(Chain(66, 8), FirstLayout(Chain(66, 8)), Assemble, MAX_LAYOUT_PASSES + 1).Settled?
  {
    ChainConverges(66, 8);
    ChainIsUnsettled(66, 8, MAX_LAYOUT_PASSES);
    LabelsSettle(Chain(66, 8), Assemble, Reach(66, 8), MAX_LAYOUT_PASSES + 1);
  }
}
