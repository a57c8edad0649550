/** The pump's invariants over whole runs, what they give on removal and detach, and runs that break them. */
module PumpRuns {
  import opened Common
  import opened PumpState
  import opened PumpInvariants

  ghost predicate AlwaysOneWay(s: State, own: Memory, es: seq<Event>)
    requires ValidEvents(es)
    decreases es
  {
    OneWay(s, own) && (es == [] || AlwaysOneWay(Apply(s, es[0]), own, es[1..]))
  }

  ghost predicate AlwaysExact(s: State, own: Memory, es: seq<Event>)
    requires ValidEvents(es)
    decreases es
  {
    Exact(s, own) && (es == [] || AlwaysExact(Apply(s, es[0]), own, es[1..]))
  }

  predicate HitHazardFree(s: State, own: Memory, es: seq<Event>)
    requires ValidEvents(es)
    decreases es
  {
    es == [] || (!HitHazard(s, own, es[0]) && HitHazardFree(Apply(s, es[0]), own, es[1..]))
  }

  predicate HazardFree(s: State, own: Memory, es: seq<Event>)
    requires ValidEvents(es)
    decreases es
  {
    es == [] || (!Hazard(s, own, es[0]) && HazardFree(Apply(s, es[0]), own, es[1..]))
  }

  /** With any number of threads mid-step, a run keeps OneWay throughout exactly when no hit is hazardous. */
  lemma {:induction false} RunOneWay(s: State, own: Memory, es: seq<Event>)
    requires OneWay(s, own) && ValidEvents(es)
    ensures AlwaysOneWay(s, own, es) <==> HitHazardFree(s, own, es)
    ensures HitHazardFree(s, own, es) ==> OneWay(Run(s, es), own)
    decreases es
  {
    if es != [] {
      OneWayStep(s, own, es[0]);
      if OneWay(Apply(s, es[0]), own) {
        RunOneWay(Apply(s, es[0]), own, es[1..]);
      }
    }
  }

  /** A run keeps memory exactly as the table says throughout precisely when it meets no hazard. */
  lemma {:induction false} RunExact(s: State, own: Memory, es: seq<Event>)
    requires Exact(s, own) && ValidEvents(es)
    ensures AlwaysExact(s, own, es) <==> HazardFree(s, own, es)
    ensures HazardFree(s, own, es) ==> Exact(Run(s, es), own)
    decreases es
  {
    if es != [] {
      ExactStep(s, own, es[0]);
      if Exact(Apply(s, es[0]), own) {
        RunExact(Apply(s, es[0]), own, es[1..]);
      }
    }
  }

  /** From attach, through any hazard-free run, an armed byte is int3 exactly when no thread steps over it. */
  lemma ArmedByteFollowsSteppers(own: Memory, es: seq<Event>, a: int)
    requires ValidEvents(es) && HazardFree(Attached(own), own, es)
    requires a in own && own[a] != INT3
    ensures var s := Run(Attached(own), es);
            && a in s.mem
            && (s.mem[a] == INT3 <==> Armed(s.breakpoints, a) && !SteppingOver(s.stepping, a))
            && (s.mem[a] == own[a] <==> !Armed(s.breakpoints, a) || SteppingOver(s.stepping, a))
  {
    RunExact(Attached(own), own, es);
  }

  /** Removal whose write succeeds gives the byte back unless it was re-armed under a thread mid-step. */
  lemma RemoveRestores(s: State, own: Memory, a: int)
    requires OneWay(s, own) && Armed(s.breakpoints, a)
    ensures OnRemove(s, a, true).mem[a] == own[a] <==> !(SteppingOver(s.stepping, a) && s.mem[a] == INT3)
  {
  }

  /** The target's own code still holds an int3 of the pump's that disarming would not find. */
  predicate Stray(s: State, own: Memory, a: int)
  {
    && a in s.mem && a in own && s.mem[a] == INT3 && own[a] != INT3
    && (!Armed(s.breakpoints, a) || SteppingOver(s.stepping, a))
  }

  predicate Drained(e: Event) { e.Hit? || e.SingleStep? || e.ThreadExit? }

  lemma {:induction false} DrainWritesNothing(s: State, ds: seq<Event>)
    requires s.breakpoints == map[] && forall i :: 0 <= i < |ds| ==> Drained(ds[i])
    ensures ValidEvents(ds) && Run(s, ds).mem == s.mem && Run(s, ds).breakpoints == map[]
    decreases ds
  {
    if ds != [] {
      var e := ds[0];
      if e.SingleStep? {
        assert FiredAt(s.breakpoints, e.fired) == {};
      }
      DrainWritesNothing(Apply(s, e), ds[1..]);
    }
  }

  /**
   Detaching: disarming with writes that succeed, then draining any queued events, gives all of memory
   back precisely when no stray int3 was left behind earlier.
   */
  lemma DetachRestores(s: State, own: Memory, ds: seq<Event>)
    requires OneWay(s, own) && forall i :: 0 <= i < |ds| ==> Drained(ds[i])
    ensures ValidEvents([DisarmAll({})] + ds)
    ensures Run(s, [DisarmAll({})] + ds).mem == own <==> forall a :: a in s.mem ==> !Stray(s, own, a)
  {
    var es := [DisarmAll({})] + ds;
    var s' := OnDisarmAll(s, {});
    DrainWritesNothing(s', ds);
    assert es[0] == DisarmAll({}) && es[1..] == ds;
    assert Run(s, es).mem == s'.mem;
    forall a | a in s.mem
      ensures s'.mem[a] == own[a] <==> !Stray(s, own, a)
    {
    }
  }

  /** So after a hazard-free run detaching leaves the target as it was before attach. */
  lemma CleanDetach(own: Memory, es: seq<Event>, ds: seq<Event>)
    requires ValidEvents(es) && HazardFree(Attached(own), own, es)
    requires forall i :: 0 <= i < |ds| ==> Drained(ds[i])
    ensures ValidEvents([DisarmAll({})] + ds)
    ensures Run(Run(Attached(own), es), [DisarmAll({})] + ds).mem == own
  {
    RunExact(Attached(own), own, es);
    DetachRestores(Run(Attached(own), es), own, ds);
  }

  // ----- Runs that show each hazard is real -----

  lemma RunOn(s: State, own: Memory, e: Event, es: seq<Event>)
    requires ValidEvent(e) && ValidEvents(es)
    ensures ValidEvents([e] + es) && Run(s, [e] + es) == Run(Apply(s, e), es)
    ensures HitHazardFree(s, own, [e] + es) <==> !HitHazard(s, own, e) && HitHazardFree(Apply(s, e), own, es)
  {
    var all := [e] + es;
    assert all[0] == e && all[1..] == es;
  }

  /** Threads 1 and 2 are both mid-step over one software breakpoint. */
  function TwoSteppers(a: int, original: Byte): State
  {
    State(map[a := original], map[a := Breakpoint(original, 2, true, Software, 1, -1)], map[1 := a, 2 := a], {}, false)
  }

  lemma ReachTwoSteppers(a: int, original: Byte)
    requires original != INT3
    ensures var s := Apply(Attached(map[a := original]), AddSoftware(a, true, true));
            Apply(Apply(s, Hit(a, 1, true, true, true)), Hit(a, 2, true, true, true)) == TwoSteppers(a, original)
  {
  }

  lemma RearmUnderSecondStepper(a: int, original: Byte)
    requires original != INT3
    ensures var s := Apply(TwoSteppers(a, original), SingleStep(1, true, {}, true));
            && s.mem == map[a := INT3] && s.stepping == map[2 := a]
            && Apply(s, Remove(a, true)) == State(map[a := INT3], map[], map[2 := a], {a}, false)
  {
    var s := Apply(TwoSteppers(a, original), SingleStep(1, true, {}, true));
    assert s.mem == map[a := INT3] && s.stepping == map[2 := a];
    assert 2 in s.stepping;
  }

  /**
   Thread 1 hits; thread 2's queued trap hits too; thread 1 steps and re-arms under thread 2; removal
   then believes the byte is already back. Detaching, however the queue drains, never restores it.
   */
  lemma SecondStepperLeavesInt3(a: int, original: Byte, ds: seq<Event>)
    requires original != INT3 && forall i :: 0 <= i < |ds| ==> Drained(ds[i])
    ensures var own := map[a := original];
            var es := [AddSoftware(a, true, true)] + ([Hit(a, 1, true, true, true)] + ([Hit(a, 2, true, true, true)]
                      + ([SingleStep(1, true, {}, true)] + ([Remove(a, true)] + []))));
            && ValidEvents(es) && ValidEvents([DisarmAll({})] + ds) && HitHazardFree(Attached(own), own, es)
            && Run(Attached(own), es).mem == map[a := INT3] && Run(Attached(own), es).breakpoints == map[]
            && Run(Run(Attached(own), es), [DisarmAll({})] + ds).mem != own
  {
    var own: Memory := map[a := original];
    var s0 := Attached(own);
    var s1 := Apply(s0, AddSoftware(a, true, true));
    var s2 := Apply(s1, Hit(a, 1, true, true, true));
    var s4 := Apply(TwoSteppers(a, original), SingleStep(1, true, {}, true));
    ReachTwoSteppers(a, original);
    RearmUnderSecondStepper(a, original);
    RunOn(s4, own, Remove(a, true), []);
    RunOn(TwoSteppers(a, original), own, SingleStep(1, true, {}, true), [Remove(a, true)] + []);
    RunOn(s2, own, Hit(a, 2, true, true, true), [SingleStep(1, true, {}, true)] + ([Remove(a, true)] + []));
    RunOn(s1, own, Hit(a, 1, true, true, true),
          [Hit(a, 2, true, true, true)] + ([SingleStep(1, true, {}, true)] + ([Remove(a, true)] + [])));
    RunOn(s0, own, AddSoftware(a, true, true),
          [Hit(a, 1, true, true, true)] + ([Hit(a, 2, true, true, true)]
          + ([SingleStep(1, true, {}, true)] + ([Remove(a, true)] + []))));
    var end := Apply(s4, Remove(a, true));
    assert Stray(end, own, a);
    DetachRestores(end, own, ds);
  }

  /**
   A trap in flight from a removed software breakpoint lands after a hardware one was set at the same
   address: the handler writes the hardware entry's unset saved byte, a zero, over the target's code.
   */
  lemma LateTrapZeroesCodeUnderHardware(a: int, original: Byte)
    requires original != INT3 && original != 0
    ensures var own := map[a := original];
            var s := State(own, map[], map[], {a}, false);
            && Exact(s, own)
            && s == Apply(Apply(Attached(own), AddSoftware(a, true, true)), Remove(a, true))
            && var hw := Apply(s, AddHardware(a, HardwareExecute, 1));
               && Exact(hw, own) && Claims(hw, a)
               && Apply(hw, Hit(a, 1, true, true, true)).mem[a] == 0
  {
    var s1 := Apply(Attached(map[a := original]), AddSoftware(a, true, true));
    var s2 := Apply(s1, Remove(a, true));
    assert s2.mem == map[a := original] && s2.breakpoints == map[];
  }
}
