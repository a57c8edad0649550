/**
 When the layout settles. If, under the layouts the passes run through, every instruction assembles where it stands
 and its length depends only on anchors and on labels defined before it, each pass makes at least one more label
 final, so n labels need at most n + 1 passes.
 */
module Convergence {
  import opened Common
  import opened Layout
  import opened LayoutConsistency

  /** How many label definitions the first n lines hold. */
  function Definitions(script: Script, n: nat): (count: nat)
    requires n <= |script.lines|
  {
    if n == 0 then 0
    else
      var here := if script.lines[n - 1].Label? && script.lines[n - 1].name !in script.anchors then 1 else 0;
      Definitions(script, n - 1) + here
  }

  ghost predicate DefinedOnce(script: Script)
  {
    forall i, j, name | 0 <= i < |script.lines| && 0 <= j < |script.lines| ::
      Defines(script, i, name) && Defines(script, j, name) ==> i == j
  }

  predicate Positions(script: Script, i: nat)
    requires i < |script.lines|
  {
    match script.lines[i]
    case Label(name) => name in script.anchors
    case Origin(resolved) => resolved.Some?
    case _ => false
  }

  /** The text is fine apart from what the assembler says: every line has an address and every operand reads. */
  ghost predicate WellFormed(script: Script)
  {
    forall i :: 0 <= i < |script.lines| ==>
      && !script.lines[i].BadData?
      && (script.lines[i].Origin? ==> script.lines[i].resolved.Some?)
      && (Positions(script, i) || exists j :: 0 <= j < i && Positions(script, j))
  }

  /** A layout with a value for every name, and the right one for anchors. */
  ghost predicate Fits(script: Script, layout: Labels)
  {
    && (forall name :: name in script.anchors ==> name in layout && layout[name] == script.anchors[name])
    && (forall name :: name in DeclaredNames(script) ==> name in layout)
  }

  predicate SameValue(l: Labels, m: Labels, name: string)
  {
    name in l && name in m && l[name] == m[name]
  }

  /** Two layouts agree on the first k labels to be defined. */
  ghost predicate AgreeOn(script: Script, l: Labels, m: Labels, k: nat)
  {
    forall i, name :: 0 <= i < |script.lines| && Defines(script, i, name) && Definitions(script, i) < k
      ==> SameValue(l, m, name)
  }

  ghost predicate AssemblesAlike(asm: Assembler, text: string, at: int, l: Labels, m: Labels)
  {
    asm(text, at, l).Some? && asm(text, at, m).Some? && |asm(text, at, l).value| == |asm(text, at, m).value|
  }

  /** The layout the next pass starts from. */
  function NextLayout(script: Script, asm: Assembler, layout: Labels): Labels
  {
    match Pass(script, layout, asm)
    case None => layout
    case Some(st) => layout + st.next
  }

  /** A set of layouts the passes do not leave. */
  ghost predicate Closed(script: Script, asm: Assembler, reach: iset<Labels>)
  {
    forall l :: l in reach ==> Fits(script, l) && NextLayout(script, asm, l) in reach
  }

  /** Both layouts put line i at the same known address and agree on the labels defined before it. */
  ghost predicate AlikeBefore(script: Script, asm: Assembler, l: Labels, m: Labels, i: nat)
    requires i < |script.lines|
  {
    && AddressAt(script, l, asm, i).Some?
    && AddressAt(script, l, asm, i) == AddressAt(script, m, asm, i)
    && AgreeOn(script, l, m, Definitions(script, i))
  }

  /** Where such layouts put it, an instruction assembles to one length: forward references do not change it. */
  ghost predicate BackwardLengths(script: Script, asm: Assembler, reach: iset<Labels>)
  {
    forall i: nat, l, m | i < |script.lines| && script.lines[i].Instruction? && l in reach && m in reach ::
      AlikeBefore(script, asm, l, m, i)
      ==> AssemblesAlike(asm, script.lines[i].text, AddressAt(script, l, asm, i).value, l, m)
  }

  ghost predicate Converges(script: Script, asm: Assembler, reach: iset<Labels>)
  {
    WellFormed(script) && DefinedOnce(script) && Closed(script, asm, reach) && BackwardLengths(script, asm, reach)
  }

  lemma {:induction false} DefinitionsGrow(script: Script, i: nat, n: nat)
    requires i <= n <= |script.lines|
    ensures Definitions(script, i) <= Definitions(script, n)
    ensures i < n && script.lines[i].Label? && script.lines[i].name !in script.anchors
            ==> Definitions(script, i) < Definitions(script, n)
    decreases n - i
  {
    if i < n { DefinitionsGrow(script, i, n - 1); }
  }

  /** Every instruction assembles where this layout puts it. */
  ghost predicate Assembles(script: Script, asm: Assembler, layout: Labels)
  {
    forall i: nat :: i < |script.lines| && script.lines[i].Instruction? && AddressAt(script, layout, asm, i).Some?
      ==> AssemblesAlike(asm, script.lines[i].text, AddressAt(script, layout, asm, i).value, layout, layout)
  }

  lemma ReachAssembles(script: Script, asm: Assembler, reach: iset<Labels>, layout: Labels)
    requires Converges(script, asm, reach) && layout in reach
    ensures Assembles(script, asm, layout)
  {
    forall i: nat | i < |script.lines| && script.lines[i].Instruction? && AddressAt(script, layout, asm, i).Some?
      ensures AssemblesAlike(asm, script.lines[i].text, AddressAt(script, layout, asm, i).value, layout, layout)
    {
      assert AlikeBefore(script, asm, layout, layout, i);
    }
  }

  lemma LineKnown(script: Script, asm: Assembler, layout: Labels, n: nat)
    requires n < |script.lines| && WellFormed(script) && Assembles(script, asm, layout)
    requires Positions(script, n) || AddressAt(script, layout, asm, n).Some?
    ensures AddressAt(script, layout, asm, n + 1).Some?
    ensures forall st: PassState :: st.at == AddressAt(script, layout, asm, n)
              ==> Step(script, layout, asm, script.lines[n], st).Some?
  {
    var line := script.lines[n];
    if line.Instruction? {
      assert AssemblesAlike(asm, line.text, AddressAt(script, layout, asm, n).value, layout, layout);
    }
  }

  /** Addresses are known from the first positioned line on. */
  lemma {:induction false} AddressesKnown(script: Script, asm: Assembler, layout: Labels, n: nat)
    requires n <= |script.lines| && WellFormed(script) && Assembles(script, asm, layout)
    ensures PassUpTo(script, layout, asm, n).Some?
    ensures (exists j :: 0 <= j < n && Positions(script, j)) ==> AddressAt(script, layout, asm, n).Some?
  {
    if n > 0 {
      AddressesKnown(script, asm, layout, n - 1);
      PassPlacesLines(script, layout, asm, n - 1);
      LineKnown(script, asm, layout, n - 1);
    }
  }

  /** Layouts that agree on the labels defined before line n put that line at the same address. */
  lemma {:induction false} SameAddress(
    script: Script, asm: Assembler, reach: iset<Labels>, l: Labels, m: Labels, n: nat)
    requires n <= |script.lines| && Converges(script, asm, reach) && l in reach && m in reach
    requires AgreeOn(script, l, m, Definitions(script, n))
    ensures AddressAt(script, l, asm, n) == AddressAt(script, m, asm, n)
  {
    if n > 0 {
      DefinitionsGrow(script, n - 1, n);
      SameAddress(script, asm, reach, l, m, n - 1);
      var line := script.lines[n - 1];
      var at := AddressAt(script, l, asm, n - 1);
      if line.Instruction? && at.Some? {
        assert AlikeBefore(script, asm, l, m, n - 1) && AssemblesAlike(asm, line.text, at.value, l, m);
      }
    }
  }

  /** After a pass every label holds the address its definition had in that pass. */
  lemma NextHoldsAddresses(script: Script, asm: Assembler, layout: Labels)
    requires WellFormed(script) && DefinedOnce(script) && Fits(script, layout) && Assembles(script, asm, layout)
    ensures Pass(script, layout, asm).Some? && Fits(script, NextLayout(script, asm, layout))
    ensures forall i, name :: 0 <= i < |script.lines| && Defines(script, i, name) ==>
              && name in NextLayout(script, asm, layout)
              && AddressAt(script, layout, asm, i) == Some(NextLayout(script, asm, layout)[name])
  {
    var n := |script.lines|;
    AddressesKnown(script, asm, layout, n);
    PassPlacesLabels(script, layout, asm, n);
    forall i: nat, name | i < n && Defines(script, i, name)
      ensures LastDefinition(script, name, i, n)
    {
    }
  }

  lemma ReachHoldsAddresses(script: Script, asm: Assembler, reach: iset<Labels>, layout: Labels)
    requires Converges(script, asm, reach) && layout in reach
    ensures Pass(script, layout, asm).Some? && NextLayout(script, asm, layout) in reach
    ensures forall i, name :: 0 <= i < |script.lines| && Defines(script, i, name) ==>
              && name in NextLayout(script, asm, layout)
              && AddressAt(script, layout, asm, i) == Some(NextLayout(script, asm, layout)[name])
  {
    ReachAssembles(script, asm, reach, layout);
    NextHoldsAddresses(script, asm, layout);
  }

  /** One more label is final after a pass. */
  lemma PassFixesOneMore(script: Script, asm: Assembler, reach: iset<Labels>, l: Labels, m: Labels, k: nat)
    requires Converges(script, asm, reach) && l in reach && m in reach && AgreeOn(script, l, m, k)
    ensures AgreeOn(script, NextLayout(script, asm, l), NextLayout(script, asm, m), k + 1)
  {
    ReachHoldsAddresses(script, asm, reach, l);
    ReachHoldsAddresses(script, asm, reach, m);
    forall i: nat, name | i < |script.lines| && Defines(script, i, name) && Definitions(script, i) < k + 1
      ensures SameValue(NextLayout(script, asm, l), NextLayout(script, asm, m), name)
    {
      SameAddress(script, asm, reach, l, m, i);
    }
  }

  /** The layout after k passes. */
  function After(script: Script, asm: Assembler, start: Labels, k: nat): Labels
    decreases k
  {
    if k == 0 then start else After(script, asm, NextLayout(script, asm, start), k - 1)
  }

  /** Pass k fixes the first k labels: from any start, every later layout agrees on them. */
  lemma {:induction false} PassKFixesKLabels(
    script: Script, asm: Assembler, reach: iset<Labels>, l: Labels, m: Labels, k: nat)
    requires Converges(script, asm, reach) && l in reach && m in reach
    ensures AgreeOn(script, After(script, asm, l, k), After(script, asm, m, k), k)
    decreases k
  {
    AgreementGrows(script, asm, reach, l, m, 0, k);
  }

  lemma {:induction false} AgreementGrows(
    script: Script, asm: Assembler, reach: iset<Labels>, l: Labels, m: Labels, had: nat, k: nat)
    requires Converges(script, asm, reach) && l in reach && m in reach && AgreeOn(script, l, m, had)
    ensures AgreeOn(script, After(script, asm, l, k), After(script, asm, m, k), had + k)
    decreases k
  {
    if k > 0 {
      ReachHoldsAddresses(script, asm, reach, l);
      ReachHoldsAddresses(script, asm, reach, m);
      PassFixesOneMore(script, asm, reach, l, m, had);
      AgreementGrows(script, asm, reach, NextLayout(script, asm, l), NextLayout(script, asm, m), had + 1, k - 1);
    }
  }

  /** With every label final, the pass reproduces the layout it started from. */
  lemma AgreementSettles(script: Script, asm: Assembler, reach: iset<Labels>, layout: Labels)
    requires Converges(script, asm, reach) && layout in reach
    requires AgreeOn(script, layout, NextLayout(script, asm, layout), Definitions(script, |script.lines|))
    ensures Pass(script, layout, asm).Some? && Agrees(layout, Pass(script, layout, asm).value.next)
  {
    ReachHoldsAddresses(script, asm, reach, layout);
    PassPlacesLabels(script, layout, asm, |script.lines|);
    var next := Pass(script, layout, asm).value.next;
    forall name | name in next ensures name in layout && layout[name] == next[name] {
      if name !in script.anchors {
        var i: nat :| i < |script.lines| && Defines(script, i, name);
        DefinitionsGrow(script, i, |script.lines|);
        assert SameValue(layout, NextLayout(script, asm, layout), name);
      }
    }
  }

  lemma {:induction false} SettlesWithin(
    script: Script, asm: Assembler, reach: iset<Labels>, layout: Labels, had: nat, passes: nat)
    requires Converges(script, asm, reach) && layout in reach
    requires AgreeOn(script, layout, NextLayout(script, asm, layout), had)
    requires Definitions(script, |script.lines|) < had + passes
    ensures passes > 0 ==> Settle(script, layout, asm, passes).Settled?
    decreases passes
  {
    if passes > 0 {
      ReachHoldsAddresses(script, asm, reach, layout);
      if Definitions(script, |script.lines|) <= had {
        AgreementSettles(script, asm, reach, layout);
      } else if !Agrees(layout, Pass(script, layout, asm).value.next) {
        PassFixesOneMore(script, asm, reach, layout, NextLayout(script, asm, layout), had);
        SettlesWithin(script, asm, reach, NextLayout(script, asm, layout), had + 1, passes - 1);
      }
    }
  }

  /** n labels settle within any number of passes above n, so at most seven never reach the limit of eight. */
  lemma LabelsSettle(script: Script, asm: Assembler, reach: iset<Labels>, passes: nat)
    requires Converges(script, asm, reach) && FirstLayout(script) in reach
    requires Definitions(script, |script.lines|) < passes
    ensures Settle(script, FirstLayout(script), asm, passes).Settled?
    ensures passes <= MAX_LAYOUT_PASSES ==> !Compile(script, asm).Unsettled?
  {
    ReachHoldsAddresses(script, asm, reach, FirstLayout(script));
    SettlesWithin(script, asm, reach, FirstLayout(script), 0, passes);
    SettlesWithin(script, asm, reach, FirstLayout(script), 0, Max(passes, MAX_LAYOUT_PASSES));
  }

  /** The answer does not depend on the placeholder: two layouts that reproduce themselves agree on every label. */
  lemma SettledLayoutIsUnique(script: Script, asm: Assembler, reach: iset<Labels>, l: Labels, m: Labels)
    requires Converges(script, asm, reach) && l in reach && m in reach
    requires NextLayout(script, asm, l) == l && NextLayout(script, asm, m) == m
    ensures AgreeOn(script, l, m, Definitions(script, |script.lines|))
  {
    var n := Definitions(script, |script.lines|);
    PassKFixesKLabels(script, asm, reach, l, m, n);
    Stationary(script, asm, l, n);
    Stationary(script, asm, m, n);
  }

  lemma {:induction false} Stationary(script: Script, asm: Assembler, l: Labels, k: nat)
    requires NextLayout(script, asm, l) == l
    ensures After(script, asm, l, k) == l
    decreases k
  {
    if k > 0 { Stationary(script, asm, l, k - 1); }
  }
}
