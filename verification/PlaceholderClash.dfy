/**
 Which sections are refused over the placeholder. A label whose true address is the placeholder is reported as never
 defined; when instruction lengths do not depend on labels, the lines alone decide whether that happens.
 */
module PlaceholderClash {
  import opened Common
  import opened Layout
  import opened LayoutConsistency
  import opened Convergence

  /** The length of an instruction at an address, whatever the labels are worth. */
  type Width = (string, int) -> nat

  /** Where line i is assembled when instructions have fixed lengths, read off the lines alone. */
  function FixedAt(script: Script, width: Width, i: nat): Option<int>
    requires i <= |script.lines|
  {
    if i == 0 then None
    else
      var before := FixedAt(script, width, i - 1);
      match script.lines[i - 1]
      case Label(name) => if name in script.anchors then Some(script.anchors[name]) else before
      case Origin(resolved) => resolved
      case Data(bytes) => if before.None? then None else Some(before.value + |bytes|)
      case BadData => None
      case Instruction(text) => if before.None? then None else Some(before.value + width(text, before.value))
  }

  predicate HasWidth(asm: Assembler, width: Width, text: string, at: int, layout: Labels)
  {
    asm(text, at, layout).Some? && |asm(text, at, layout).value| == width(text, at)
  }

  /** Under every layout the passes run through, an instruction assembles to its fixed length where it stands. */
  ghost predicate FixedLengths(script: Script, asm: Assembler, width: Width, reach: iset<Labels>)
  {
    forall i: nat, l ::
      i < |script.lines| && script.lines[i].Instruction? && l in reach && FixedAt(script, width, i).Some?
      ==> HasWidth(asm, width, script.lines[i].text, FixedAt(script, width, i).value, l)
  }

  /** A well-formed section with fixed lengths, and layouts its passes do not leave. */
  ghost predicate Fixed(script: Script, asm: Assembler, width: Width, reach: iset<Labels>)
  {
    && WellFormed(script) && Closed(script, asm, reach) && FirstLayout(script) in reach
    && FixedLengths(script, asm, width, reach)
  }

  lemma {:induction false} AddressIsFixed(
    script: Script, asm: Assembler, width: Width, reach: iset<Labels>, layout: Labels, i: nat)
    requires i <= |script.lines| && Fixed(script, asm, width, reach) && layout in reach
    ensures AddressAt(script, layout, asm, i) == FixedAt(script, width, i)
  {
    if i > 0 {
      AddressIsFixed(script, asm, width, reach, layout, i - 1);
      var line := script.lines[i - 1];
      if line.Instruction? && FixedAt(script, width, i - 1).Some? {
        assert HasWidth(asm, width, line.text, FixedAt(script, width, i - 1).value, layout);
      }
    }
  }

  /** A pass puts every label at the address its last definition has on the lines. */
  lemma FixedPass(script: Script, asm: Assembler, width: Width, reach: iset<Labels>, layout: Labels)
    requires Fixed(script, asm, width, reach) && layout in reach
    ensures Pass(script, layout, asm).Some?
    ensures forall name :: name in script.anchors ==>
              name in Pass(script, layout, asm).value.next
              && Pass(script, layout, asm).value.next[name] == script.anchors[name]
    ensures forall name, i :: LastDefinition(script, name, i, |script.lines|) ==>
              name in Pass(script, layout, asm).value.next
              && FixedAt(script, width, i) == Some(Pass(script, layout, asm).value.next[name])
    ensures forall name :: name in Pass(script, layout, asm).value.next && name !in script.anchors ==>
              exists i :: LastDefinition(script, name, i, |script.lines|)
  {
    var n := |script.lines|;
    forall i: nat | i < n && script.lines[i].Instruction? && AddressAt(script, layout, asm, i).Some?
      ensures AssemblesAlike(asm, script.lines[i].text, AddressAt(script, layout, asm, i).value, layout, layout)
    {
      AddressIsFixed(script, asm, width, reach, layout, i);
      assert HasWidth(asm, width, script.lines[i].text, FixedAt(script, width, i).value, layout);
    }
    AddressesKnown(script, asm, layout, n);
    PassPlacesLabels(script, layout, asm, n);
    forall name, i: nat | LastDefinition(script, name, i, n)
      ensures AddressAt(script, layout, asm, i) == FixedAt(script, width, i)
    {
      AddressIsFixed(script, asm, width, reach, layout, i);
    }
    forall name | name in Pass(script, layout, asm).value.next && name !in script.anchors
      ensures exists i :: LastDefinition(script, name, i, n)
    {
      var i: nat :| i < n && Defines(script, i, name);
      var k := LastOf(script, name, i, n);
    }
  }

  /** The second pass finds every label where the first one put it. */
  lemma SecondPassAgrees(script: Script, asm: Assembler, width: Width, reach: iset<Labels>, layout: Labels)
    requires Fixed(script, asm, width, reach) && layout in reach
    ensures Pass(script, layout, asm).Some? && Pass(script, NextLayout(script, asm, layout), asm).Some?
    ensures Agrees(NextLayout(script, asm, layout), Pass(script, NextLayout(script, asm, layout), asm).value.next)
  {
    var second := NextLayout(script, asm, layout);
    FixedPass(script, asm, width, reach, layout);
    FixedPass(script, asm, width, reach, second);
    var next := Pass(script, second, asm).value.next;
    forall name | name in next ensures name in second && second[name] == next[name] {
      if name !in script.anchors {
        var i :| LastDefinition(script, name, i, |script.lines|);
      }
    }
  }

  lemma FixedSettles(script: Script, asm: Assembler, width: Width, reach: iset<Labels>, passes: nat)
    requires Fixed(script, asm, width, reach) && passes >= 2
    ensures Settle(script, FirstLayout(script), asm, passes).Settled?
    ensures Settle(script, FirstLayout(script), asm, passes).layout in reach
  {
    var first := FirstLayout(script);
    SecondPassAgrees(script, asm, width, reach, first);
    assert NextLayout(script, asm, first) in reach;
    if !Agrees(first, Pass(script, first, asm).value.next) {
      assert Settle(script, first, asm, passes) == Settle(script, NextLayout(script, asm, first), asm, passes - 1);
    }
  }

  /** No line of the section defines the label. */
  predicate NeverDefined(script: Script, name: string)
  {
    forall i :: 0 <= i < |script.lines| ==> !Defines(script, i, name)
  }

  /** The last definition of the label stands at the placeholder. */
  predicate DefinedAtPlaceholder(script: Script, width: Width, name: string)
  {
    exists i :: 0 <= i < |script.lines| && LastDefinition(script, name, i, |script.lines|)
      && FixedAt(script, width, i) == Some(script.placeholder)
  }

  /** With fixed lengths, a section is refused exactly when its lines omit a label or put one at the placeholder. */
  lemma RefusedOnLines(script: Script, asm: Assembler, width: Width, reach: iset<Labels>)
    requires Fixed(script, asm, width, reach)
    ensures !Compile(script, asm).Unsettled?
    ensures Compile(script, asm).Unassembled? <==>
            exists name :: name in DeclaredNames(script) && name !in script.anchors
              && (NeverDefined(script, name) || DefinedAtPlaceholder(script, width, name))
  {
    FixedSettles(script, asm, width, reach, MAX_LAYOUT_PASSES);
    RefusedOnlyAtPlaceholder(script, asm);
    var layout := Settle(script, FirstLayout(script), asm, MAX_LAYOUT_PASSES).layout;
    forall i: nat | i < |script.lines|
      ensures AddressAt(script, layout, asm, i) == FixedAt(script, width, i)
    {
      AddressIsFixed(script, asm, width, reach, layout, i);
    }
  }

  /** Such a section: an origin at the placeholder and a label there, defined and yet reported as undefined. */
  lemma DefinedYetRefused(asm: Assembler, name: string)
    ensures var script := Script([Origin(Some(0x2000_0000)), Label(name)], map[], [], 0x2000_0000, []);
            Defined(script, name) && Compile(script, asm).Unassembled?
  {
    var lines := [Origin(Some(0x2000_0000)), Label(name)];
    var script := Script(lines, map[], [], 0x2000_0000, []);
    assert Defines(script, 1, name) && lines[1] in lines;
    var first := FirstLayout(script);
    assert PassUpTo(script, first, asm, 1) == Step(script, first, asm, lines[0], PassState(map[], [], None));
    assert Pass(script, first, asm) == Step(script, first, asm, lines[1], PassUpTo(script, first, asm, 1).value);
    assert name in DeclaredNames(script);
  }
}
