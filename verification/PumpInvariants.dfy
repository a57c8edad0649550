/**
 What every run of the pump keeps in target memory, given the target's own bytes.

 The source re-arms a breakpoint when a thread finishes its step without asking whether another thread
 is still stepping over it, lets a breakpoint be added back while a step is pending, and does not look at
 the kind of the entry an int3 exception lands on. Each of those breaks an invariant, so the theorems
 here name the exact condition (a Hazard, testable before the event) under which a step breaks it.
 */
module PumpInvariants {
  import opened Common
  import opened PumpState

  /** Every byte is the target's own or int3; saved bytes are genuine; an unstepped breakpoint is armed. */
  ghost predicate OneWay(s: State, own: Memory)
  {
    && s.mem.Keys == own.Keys
    && (forall a :: a in s.mem ==> s.mem[a] == own[a] || s.mem[a] == INT3)
    && (forall a :: a in s.breakpoints ==>
          s.breakpoints[a].enabled && (Armed(s.breakpoints, a) || s.breakpoints[a].original == 0))
    && (forall a :: Armed(s.breakpoints, a) ==>
          a in own && s.breakpoints[a].original == own[a] && own[a] != INT3)
    && (forall a :: Armed(s.breakpoints, a) && !SteppingOver(s.stepping, a) ==> s.mem[a] == INT3)
  }

  /** Besides, int3 appears nowhere else: memory is determined by the table and the threads mid-step. */
  ghost predicate Exact(s: State, own: Memory)
  {
    && OneWay(s, own)
    && forall a :: a in s.mem && (!Armed(s.breakpoints, a) || SteppingOver(s.stepping, a)) ==> s.mem[a] == own[a]
  }

  predicate OtherStepper(stepping: map<int, int>, t: int, a: int)
  {
    exists u | u in stepping :: u != t && stepping[u] == a
  }

  /**
   The hits that break OneWay: the entry is a hardware one, whose saved byte is zero, or the thread was
   still stepping over a different live breakpoint that nobody else will re-arm.
   */
  predicate HitHazard(s: State, own: Memory, e: Event)
  {
    && e.Hit? && e.contextOk && e.writeOk && e.address in s.breakpoints && e.address in s.mem && e.address in own
    && ((!Armed(s.breakpoints, e.address) && own[e.address] != 0)
        || (e.setOk && e.thread in s.stepping
            && var b := s.stepping[e.thread];
               && b != e.address && Armed(s.breakpoints, b) && b in s.mem && s.mem[b] != INT3
               && !OtherStepper(s.stepping, e.thread, b)))
  }

  predicate StepHazard(s: State, own: Memory, e: Event)
  {
    && e.SingleStep? && e.writeOk && e.thread in s.stepping
    && var a := s.stepping[e.thread];
       && a in s.breakpoints && a in s.mem && a in own
       && if Armed(s.breakpoints, a) then OtherStepper(s.stepping, e.thread, a) else own[a] != INT3
  }

  predicate ExitHazard(s: State, own: Memory, e: Event)
  {
    && e.ThreadExit? && e.writeOk && e.thread in s.stepping
    && var a := s.stepping[e.thread];
       && a in s.breakpoints && !Armed(s.breakpoints, a) && a in s.mem && a in own && own[a] != INT3
       && !OtherStepper(s.stepping, e.thread, a)
  }

  predicate AddHazard(s: State, e: Event)
  {
    && e.AddSoftware? && e.readOk && e.writeOk && e.address !in s.breakpoints
    && e.address in s.mem && s.mem[e.address] != INT3 && SteppingOver(s.stepping, e.address)
  }

  predicate RestoreHazard(s: State, e: Event)
  {
    || (e.Remove? && !e.writeOk && Armed(s.breakpoints, e.address) && !SteppingOver(s.stepping, e.address))
    || (e.DisarmAll? && exists a | a in e.unwritable ::
          Armed(s.breakpoints, a) && !SteppingOver(s.stepping, a))
  }

  predicate Hazard(s: State, own: Memory, e: Event)
  {
    HitHazard(s, own, e) || StepHazard(s, own, e) || ExitHazard(s, own, e) || AddHazard(s, e) || RestoreHazard(s, e)
  }

  // ----- One step -----

  /** A completed hit moves only its own thread; every other thread steps where it stepped. */
  lemma SteppingAfterHit(stepping: map<int, int>, t: int, a: int, b: int)
    requires b != a
    ensures SteppingOver(stepping[t := a], b) <==> OtherStepper(stepping, t, b)
    ensures SteppingOver(stepping, b) <==> OtherStepper(stepping, t, b) || (t in stepping && stepping[t] == b)
  {
    var after := stepping[t := a];
    if OtherStepper(stepping, t, b) {
      var u :| u in stepping && u != t && stepping[u] == b;
      assert u in after && after[u] == b;
    }
  }

  lemma SteppingAfterStep(stepping: map<int, int>, t: int, b: int)
    ensures SteppingOver(stepping - {t}, b) <==> OtherStepper(stepping, t, b)
    ensures SteppingOver(stepping, b) <==> OtherStepper(stepping, t, b) || (t in stepping && stepping[t] == b)
  {
    var after := stepping - {t};
    if OtherStepper(stepping, t, b) {
      var u :| u in stepping && u != t && stepping[u] == b;
      assert u in after && after[u] == b;
    }
  }

  lemma OneWayHit(s: State, own: Memory, e: Event)
    requires OneWay(s, own) && e.Hit?
    ensures OneWay(Apply(s, e), own) <==> !HitHazard(s, own, e)
  {
    var s' := Apply(s, e);
    var a, t := e.address, e.thread;
    if a in s.breakpoints && e.contextOk && e.writeOk && a in s.mem {
      if e.setOk {
        forall b | b != a
          ensures SteppingOver(s'.stepping, b) <==> OtherStepper(s.stepping, t, b)
          ensures SteppingOver(s.stepping, b) <==>
                  OtherStepper(s.stepping, t, b) || (t in s.stepping && s.stepping[t] == b)
        {
          SteppingAfterHit(s.stepping, t, a, b);
        }
        assert s'.stepping[t] == a;
      }
      assert s'.mem[a] == s.breakpoints[a].original;
      if HitHazard(s, own, e) && Armed(s.breakpoints, a) {
        var b := s.stepping[t];
        assert Armed(s'.breakpoints, b) && !SteppingOver(s'.stepping, b) && s'.mem[b] != INT3;
      }
    }
  }

  lemma OneWayHardware(s: State, own: Memory, contextOk: bool, fired: set<int>)
    requires OneWay(s, own)
    ensures OneWay(OnHardware(s, contextOk, fired), own) && OnHardware(s, contextOk, fired).stepping == s.stepping
  {
  }

  lemma OneWaySoftwareStep(s: State, own: Memory, t: int, writeOk: bool)
    requires OneWay(s, own) && t in s.stepping
    ensures OneWay(OnSoftwareStep(s, t, writeOk), own)
  {
    forall b
      ensures SteppingOver(s.stepping - {t}, b) <==> OtherStepper(s.stepping, t, b)
      ensures SteppingOver(s.stepping, b) <==> OtherStepper(s.stepping, t, b) || s.stepping[t] == b
    {
      SteppingAfterStep(s.stepping, t, b);
    }
  }

  lemma OneWaySingleStep(s: State, own: Memory, e: Event)
    requires OneWay(s, own) && e.SingleStep?
    ensures OneWay(Apply(s, e), own)
  {
    var counted := if s.hardwareUsed then OnHardware(s, e.contextOk, e.fired) else s;
    OneWayHardware(s, own, e.contextOk, e.fired);
    if e.thread in s.stepping { OneWaySoftwareStep(counted, own, e.thread, e.writeOk); }
  }

  lemma OneWayThreadExit(s: State, own: Memory, e: Event)
    requires OneWay(s, own) && e.ThreadExit?
    ensures OneWay(Apply(s, e), own)
  {
    var t := e.thread;
    if t in s.stepping {
      forall b
        ensures SteppingOver(s.stepping - {t}, b) <==> OtherStepper(s.stepping, t, b)
        ensures SteppingOver(s.stepping, b) <==> OtherStepper(s.stepping, t, b) || s.stepping[t] == b
      {
        SteppingAfterStep(s.stepping, t, b);
      }
    }
  }

  lemma OneWayStep(s: State, own: Memory, e: Event)
    requires OneWay(s, own) && ValidEvent(e)
    ensures OneWay(Apply(s, e), own) <==> !HitHazard(s, own, e)
  {
    match e
    case Hit(_, _, _, _, _) => OneWayHit(s, own, e);
    case SingleStep(_, _, _, _) => OneWaySingleStep(s, own, e);
    case ThreadExit(_, _) => OneWayThreadExit(s, own, e);
    case AddSoftware(_, _, _) =>
    case AddHardware(_, _, _) =>
    case Remove(_, _) =>
    case DisarmAll(_) =>
  }

  lemma ExactHit(s: State, own: Memory, e: Event)
    requires Exact(s, own) && e.Hit?
    ensures Exact(Apply(s, e), own) <==> !HitHazard(s, own, e)
  {
    OneWayHit(s, own, e);
    var s' := Apply(s, e);
    if !HitHazard(s, own, e) && s'.stepping != s.stepping {
      forall b | b != e.address
        ensures SteppingOver(s'.stepping, b) ==> SteppingOver(s.stepping, b)
      {
        SteppingAfterHit(s.stepping, e.thread, e.address, b);
      }
    }
  }

  lemma ExactSingleStep(s: State, own: Memory, e: Event)
    requires Exact(s, own) && e.SingleStep?
    ensures Exact(Apply(s, e), own) <==> !StepHazard(s, own, e)
  {
    OneWaySingleStep(s, own, e);
    var s' := Apply(s, e);
    var t := e.thread;
    if t in s.stepping {
      var a := s.stepping[t];
      forall b
        ensures SteppingOver(s'.stepping, b) <==> OtherStepper(s.stepping, t, b)
        ensures SteppingOver(s.stepping, b) <==> OtherStepper(s.stepping, t, b) || a == b
      {
        SteppingAfterStep(s.stepping, t, b);
      }
      if StepHazard(s, own, e) {
        assert s'.mem[a] == INT3 && (!Armed(s'.breakpoints, a) || SteppingOver(s'.stepping, a));
      }
    }
  }

  lemma ExactThreadExit(s: State, own: Memory, e: Event)
    requires Exact(s, own) && e.ThreadExit?
    ensures Exact(Apply(s, e), own) <==> !ExitHazard(s, own, e)
  {
    OneWayThreadExit(s, own, e);
    var s' := Apply(s, e);
    var t := e.thread;
    if t in s.stepping {
      var a := s.stepping[t];
      forall b
        ensures SteppingOver(s'.stepping, b) <==> OtherStepper(s.stepping, t, b)
        ensures SteppingOver(s.stepping, b) <==> OtherStepper(s.stepping, t, b) || a == b
      {
        SteppingAfterStep(s.stepping, t, b);
      }
      if ExitHazard(s, own, e) {
        assert s'.mem[a] == INT3 && !Armed(s'.breakpoints, a);
      }
    }
  }

  lemma ExactAdd(s: State, own: Memory, e: Event)
    requires Exact(s, own) && ValidEvent(e) && (e.AddSoftware? || e.AddHardware?)
    ensures Exact(Apply(s, e), own) <==> !AddHazard(s, e)
  {
    OneWayStep(s, own, e);
    var s' := Apply(s, e);
    if AddHazard(s, e) {
      assert s'.mem[e.address] == INT3 && SteppingOver(s'.stepping, e.address);
    }
  }

  lemma ExactRestore(s: State, own: Memory, e: Event)
    requires Exact(s, own) && (e.Remove? || e.DisarmAll?)
    ensures Exact(Apply(s, e), own) <==> !RestoreHazard(s, e)
  {
    OneWayStep(s, own, e);
    var s' := Apply(s, e);
    if RestoreHazard(s, e) {
      var a := if e.Remove? then e.address
               else var b :| b in e.unwritable && Armed(s.breakpoints, b) && !SteppingOver(s.stepping, b); b;
      assert s'.mem[a] == INT3 && !Armed(s'.breakpoints, a);
    }
  }

  /** One step keeps the exact reading of memory precisely when it is not hazardous. */
  lemma ExactStep(s: State, own: Memory, e: Event)
    requires Exact(s, own) && ValidEvent(e)
    ensures Exact(Apply(s, e), own) <==> !Hazard(s, own, e)
  {
    match e
    case Hit(_, _, _, _, _) => ExactHit(s, own, e);
    case SingleStep(_, _, _, _) => ExactSingleStep(s, own, e);
    case ThreadExit(_, _) => ExactThreadExit(s, own, e);
    case AddSoftware(_, _, _) => ExactAdd(s, own, e);
    case AddHardware(_, _, _) => ExactAdd(s, own, e);
    case Remove(_, _) => ExactRestore(s, own, e);
    case DisarmAll(_) => ExactRestore(s, own, e);
  }
}
