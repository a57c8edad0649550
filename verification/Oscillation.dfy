/**
 Why the passes need a limit: a section whose one instruction takes fewer bytes when the label after it is further
 on. Its length then depends on a later label, and no number of passes settles it.
 */
module Oscillation {
  import opened Common
  import opened Layout
  import opened ConvergenceLimit

  const LABEL := "after"
  // From here the label's two possible addresses lie on either side of what a signed byte holds.
  const PIVOT := ORIGIN + 5 + 127

  /** add eax, imm: 83 C0 and a signed byte when that fits, else 05 and four bytes. */
  function EncodeAdd(value: int): Option<seq<Byte>>
  {
    if -0x80 <= value < 0x80 then Some([0x83, 0xC0, value % 0x100])
    else if -TWO_TO_THE_31 <= value < TWO_TO_THE_31 then Some([0x05] + LittleEndian32(value))
    else None
  }

  /** Every text is taken for "add eax, PIVOT - after". */
  function AssembleAdd(text: string, at: int, layout: Labels): Option<seq<Byte>>
  {
    if LABEL in layout then EncodeAdd(PIVOT - layout[LABEL]) else None
  }

  function Section(text: string): Script
  {
    Script([Origin(Some(ORIGIN)), Instruction(text), Label(LABEL)], map[], [], NO_SYMBOLS, [])
  }

  /** The label's address after a pass that started with it at v. */
  function Moved(v: int): int { if -0x80 <= PIVOT - v < 0x80 then ORIGIN + 3 else ORIGIN + 5 }

  lemma SectionPass(text: string, v: int)
    requires 0 <= v <= NO_SYMBOLS
    ensures var pass := Pass(Section(text), map[LABEL := v], AssembleAdd);
            pass.Some? && pass.value.next == map[LABEL := Moved(v)]
  {
    var script, layout := Section(text), map[LABEL := v];
    assert PassUpTo(script, layout, AssembleAdd, 0) == Some(PassState(map[], [], None));
    var first := PassUpTo(script, layout, AssembleAdd, 1);
    assert first == Step(script, layout, AssembleAdd, script.lines[0], PassState(map[], [], None));
    var second := PassUpTo(script, layout, AssembleAdd, 2);
    assert second == Step(script, layout, AssembleAdd, script.lines[1], first.value);
    assert CodeBytes(script.lines[1], ORIGIN, layout, AssembleAdd) == EncodeAdd(PIVOT - v);
    assert second.Some? && second.value.at == Some(Moved(v)) && second.value.next == map[];
    assert Pass(script, layout, AssembleAdd) == Step(script, layout, AssembleAdd, script.lines[2], second.value);
  }

  lemma {:induction false} KeepsMoving(text: string, v: int, passes: nat)
    requires v in {NO_SYMBOLS, ORIGIN + 3, ORIGIN + 5}
    ensures Settle(Section(text), map[LABEL := v], AssembleAdd, passes).Unsettled?
    decreases passes
  {
    if passes > 0 {
      SectionPass(text, v);
      assert map[LABEL := v] + map[LABEL := Moved(v)] == map[LABEL := Moved(v)];
      KeepsMoving(text, Moved(v), passes - 1);
    }
  }

  /** The section never settles, however many passes it is given, and the compiler gives up on it. */
  lemma NeverSettles(text: string, passes: nat)
    ensures Settle(Section(text), FirstLayout(Section(text)), AssembleAdd, passes).Unsettled?
    ensures Compile(Section(text), AssembleAdd).Unsettled?
  {
    var script := Section(text);
    assert Label(LABEL) in script.lines by { assert script.lines[2] == Label(LABEL); }
    assert FirstLayout(script) == map[LABEL := NO_SYMBOLS] by {
      assert DeclaredNames(script) == {LABEL} by {
        forall name | name in DeclaredNames(script) ensures name == LABEL {
          assert Label(name) in script.lines;
        }
      }
    }
    KeepsMoving(text, NO_SYMBOLS, passes);
    KeepsMoving(text, NO_SYMBOLS, MAX_LAYOUT_PASSES);
  }
}
