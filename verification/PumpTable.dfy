/**
 How the breakpoint table changes: which event adds an entry and what it stores, which one drops it, and which one
 counts a hit. Over whole runs an entry's hit count is the number of its hits, and no watch hit goes uncounted.
 */
module PumpTable {
  import opened Common
  import opened PumpState
  import opened HardwareSlots

  /** A live hardware breakpoint whose register is among those that fired. */
  predicate Fires(breakpoints: map<int, Breakpoint>, fired: set<int>, a: int)
  {
    a in breakpoints && breakpoints[a].enabled && !breakpoints[a].kind.Software? && breakpoints[a].slot in fired
  }

  predicate LowestFiring(breakpoints: map<int, Breakpoint>, fired: set<int>, a: int)
  {
    Fires(breakpoints, fired, a) && forall b :: b in breakpoints && Fires(breakpoints, fired, b) ==> a <= b
  }

  lemma FiredIsFiring(breakpoints: map<int, Breakpoint>, fired: set<int>)
    ensures FiredAt(breakpoints, fired) == {} <==> forall a :: !Fires(breakpoints, fired, a)
    ensures FiredAt(breakpoints, fired) != {} ==> LowestFiring(breakpoints, fired, Least(FiredAt(breakpoints, fired)))
  {
    forall a ensures Fires(breakpoints, fired, a) <==> a in FiredAt(breakpoints, fired) {
    }
    NoMember(FiredAt(breakpoints, fired));
  }

  // ----- One event -----

  /** The event completes a hit on the entry at a. */
  predicate CountsHit(s: State, e: Event, a: int)
  {
    match e
    case Hit(b, _, contextOk, writeOk, setOk) =>
      a == b && a in s.breakpoints && s.breakpoints[a].enabled && contextOk && writeOk && setOk && a in s.mem
    case SingleStep(_, contextOk, fired, _) => s.hardwareUsed && contextOk && LowestFiring(s.breakpoints, fired, a)
    case _ => false
  }

  /** An entry that stays in the table changes in its hit count alone, and only by an event that counts a hit on it. */
  lemma EntryStep(s: State, e: Event, a: int)
    requires ValidEvent(e) && a in s.breakpoints && a in Apply(s, e).breakpoints
    ensures var was := s.breakpoints[a];
            Apply(s, e).breakpoints[a] == was.(hits := was.hits + if CountsHit(s, e, a) then 1 else 0)
  {
    if e.SingleStep? { FiredIsFiring(s.breakpoints, e.fired); }
  }

  predicate AddsSoftware(s: State, e: Event, a: int)
  {
    && e.AddSoftware? && e.address == a && e.readOk && e.writeOk
    && a !in s.breakpoints && a in s.mem && s.mem[a] != INT3
  }

  /** Bytes a hardware breakpoint watches: an execute breakpoint always one. */
  function WatchLength(kind: Kind, length: int): int { if kind.HardwareExecute? then 1 else length }

  predicate AddsHardware(s: State, e: Event, a: int)
  {
    && e.AddHardware? && e.address == a && a !in s.breakpoints && |InUse(s.breakpoints)| < DEBUG_SLOT_COUNT
    && WatchLength(e.kind, e.length) in {1, 2, 4, 8} && a % WatchLength(e.kind, e.length) == 0
  }

  /** What an accepted software breakpoint leaves: the byte it replaced, and int3 in its place. */
  lemma SoftwareAdded(s: State, e: Event, a: int)
    requires ValidEvent(e) && AddsSoftware(s, e, a)
    ensures var t := Apply(s, e);
            && a in t.breakpoints && t.breakpoints[a].original == s.mem[a] && t.breakpoints[a].kind.Software?
            && t.breakpoints[a].enabled && t.breakpoints[a].hits == 0
            && t.mem == s.mem[a := INT3] && t.disarmed == s.disarmed - {a}
            && t.stepping == s.stepping && t.hardwareUsed == s.hardwareUsed
            && forall b :: b != a ==> (b in t.breakpoints <==> b in s.breakpoints)
  {
  }

  /** What an accepted hardware breakpoint leaves: the kind and length asked for, and a register of its own. */
  lemma HardwareAdded(s: State, e: Event, a: int)
    requires ValidEvent(e) && SlotsSound(s.breakpoints) && AddsHardware(s, e, a)
    ensures var t := Apply(s, e);
            && a in t.breakpoints && t.breakpoints[a].kind == e.kind
            && t.breakpoints[a].length == WatchLength(e.kind, e.length)
            && t.breakpoints[a].enabled && t.breakpoints[a].hits == 0
            && 0 <= t.breakpoints[a].slot < DEBUG_SLOT_COUNT
            && (forall b :: Hardware(s.breakpoints, b) ==> s.breakpoints[b].slot != t.breakpoints[a].slot)
            && t.hardwareUsed && t.mem == s.mem && t.disarmed == s.disarmed && t.stepping == s.stepping
            && forall b :: b != a ==> (b in t.breakpoints <==> b in s.breakpoints)
  {
    AtMostFourInUse(s.breakpoints);
    forall b | Hardware(s.breakpoints, b) ensures s.breakpoints[b].slot != FreeSlot(s.breakpoints) {
      assert b in s.breakpoints;
    }
  }

  /** An address enters the table by an accepted add and in no other way. */
  lemma EntersExactly(s: State, e: Event, a: int)
    requires ValidEvent(e) && SlotsSound(s.breakpoints) && a !in s.breakpoints
    ensures a in Apply(s, e).breakpoints <==> AddsSoftware(s, e, a) || AddsHardware(s, e, a)
  {
    AtMostFourInUse(s.breakpoints);
    if e.SingleStep? { FiredIsFiring(s.breakpoints, e.fired); }
  }

  /** Re-arming the entry that a thread was stepping over is due and refused. */
  predicate RearmRefused(s: State, a: int, t: int, writeOk: bool)
  {
    t in s.stepping && s.stepping[t] == a && !(writeOk && a in s.mem)
  }

  /** The event drops the entry at a. */
  predicate Drops(s: State, e: Event, a: int)
  {
    match e
    case Remove(b, _) => a == b
    case DisarmAll(_) => true
    case Hit(b, _, contextOk, writeOk, setOk) => a == b && contextOk && writeOk && !setOk && a in s.mem
    case SingleStep(t, _, _, writeOk) => RearmRefused(s, a, t, writeOk)
    case ThreadExit(t, writeOk) =>
      RearmRefused(s, a, t, writeOk) && forall u :: u in s.stepping && u != t ==> s.stepping[u] != a
    case _ => false
  }

  /** A live entry leaves the table by removal, disarming, a hit that cannot be stepped or a refused re-arm. */
  lemma LeavesExactly(s: State, e: Event, a: int)
    requires ValidEvent(e) && a in s.breakpoints && s.breakpoints[a].enabled
    ensures a !in Apply(s, e).breakpoints <==> Drops(s, e, a)
  {
    if e.SingleStep? { FiredIsFiring(s.breakpoints, e.fired); }
    if e.ThreadExit? && e.thread in s.stepping {
      var rest := s.stepping - {e.thread};
      assert SteppingOver(rest, a) <==> exists u :: u in s.stepping && u != e.thread && s.stepping[u] == a by {
        if u :| u in s.stepping && u != e.thread && s.stepping[u] == a { assert u in rest; }
      }
    }
  }

  // ----- Whole runs -----

  /** How many events of the run complete a hit at a. */
  function HitsOver(s: State, es: seq<Event>, a: int): nat
    requires ValidEvents(es)
    decreases es
  {
    if es == [] then 0 else (if CountsHit(s, es[0], a) then 1 else 0) + HitsOver(Apply(s, es[0]), es[1..], a)
  }

  predicate StaysListed(s: State, es: seq<Event>, a: int)
    requires ValidEvents(es)
    decreases es
  {
    a in s.breakpoints && (es == [] || StaysListed(Apply(s, es[0]), es[1..], a))
  }

  /** Whatever happens to the others, an entry that stays gains exactly the hits completed on it and keeps the rest. */
  lemma {:induction false} HitCountExactly(s: State, es: seq<Event>, a: int)
    requires ValidEvents(es) && StaysListed(s, es, a)
    ensures var was := s.breakpoints[a];
            && a in Run(s, es).breakpoints
            && Run(s, es).breakpoints[a] == was.(hits := was.hits + HitsOver(s, es, a))
    decreases es
  {
    if es != [] {
      EntryStep(s, es[0], a);
      HitCountExactly(Apply(s, es[0]), es[1..], a);
    }
  }

  /** Some hardware breakpoint is accepted during the run. */
  ghost predicate HardwareEverAdded(s: State, es: seq<Event>)
    requires ValidEvents(es)
    decreases es
  {
    es != [] && ((exists a :: AddsHardware(s, es[0], a)) || HardwareEverAdded(Apply(s, es[0]), es[1..]))
  }

  lemma HardwareUsedStep(s: State, e: Event)
    requires ValidEvent(e) && SlotsSound(s.breakpoints)
    ensures Apply(s, e).hardwareUsed <==> s.hardwareUsed || exists a :: AddsHardware(s, e, a)
  {
    AtMostFourInUse(s.breakpoints);
    if a :| AddsHardware(s, e, a) { HardwareAdded(s, e, a); }
    if e.AddHardware? && !s.hardwareUsed && Apply(s, e).hardwareUsed { assert AddsHardware(s, e, e.address); }
  }

  /** The flag says that a hardware breakpoint has been accepted, and is never taken back. */
  lemma {:induction false} HardwareUsedExactly(s: State, es: seq<Event>)
    requires ValidEvents(es) && SlotsSound(s.breakpoints)
    ensures Run(s, es).hardwareUsed <==> s.hardwareUsed || HardwareEverAdded(s, es)
    decreases es
  {
    if es != [] {
      HardwareUsedStep(s, es[0]);
      SlotsStep(s, es[0]);
      HardwareUsedExactly(Apply(s, es[0]), es[1..]);
    }
  }

  ghost predicate LiveHardwareIsUsed(s: State)
  {
    SlotsSound(s.breakpoints) && ((exists a :: Hardware(s.breakpoints, a)) ==> s.hardwareUsed)
  }

  lemma LiveHardwareStep(s: State, e: Event)
    requires ValidEvent(e) && LiveHardwareIsUsed(s)
    ensures LiveHardwareIsUsed(Apply(s, e))
  {
    var t := Apply(s, e);
    SlotsStep(s, e);
    HardwareUsedStep(s, e);
    if a :| Hardware(t.breakpoints, a) {
      if a in s.breakpoints {
        EntryStep(s, e, a);
        assert Hardware(s.breakpoints, a);
      } else {
        EntersExactly(s, e, a);
        if AddsSoftware(s, e, a) { SoftwareAdded(s, e, a); }
        assert AddsHardware(s, e, a);
      }
    }
  }

  lemma {:induction false} LiveHardwareOverRun(s: State, es: seq<Event>)
    requires ValidEvents(es) && LiveHardwareIsUsed(s)
    ensures LiveHardwareIsUsed(Run(s, es))
    decreases es
  {
    if es != [] {
      LiveHardwareStep(s, es[0]);
      LiveHardwareOverRun(Apply(s, es[0]), es[1..]);
    }
  }

  /**
   After any run from attach: when a register of a live hardware breakpoint has fired, the single step is handled and
   the lowest-addressed such breakpoint gains exactly one hit, unless the thread was also stepping over that very
   address and re-arming it was refused.
   */
  lemma WatchHitIsCounted(own: Memory, es: seq<Event>, t: int, fired: set<int>, writeOk: bool, a: int)
    requires ValidEvents(es) && LowestFiring(Run(Attached(own), es).breakpoints, fired, a)
    ensures var s := Run(Attached(own), es);
            var after := Apply(s, SingleStep(t, true, fired, writeOk)).breakpoints;
            && Handled(s, t)
            && (a in after <==> !RearmRefused(s, a, t, writeOk))
            && (a in after ==> after[a] == s.breakpoints[a].(hits := s.breakpoints[a].hits + 1))
  {
    var s := Run(Attached(own), es);
    LiveHardwareOverRun(Attached(own), es);
    assert Hardware(s.breakpoints, a);
    var e := SingleStep(t, true, fired, writeOk);
    LeavesExactly(s, e, a);
    if a in Apply(s, e).breakpoints { EntryStep(s, e, a); }
  }
}
