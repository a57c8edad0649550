/**
 Traps in flight. A thread that executes an int3 of the pump's raises an exception that may be delivered
 long after the byte was restored; letting it through kills the target, so the pump must claim it.
 */
module PumpClaims {
  import opened Common
  import opened PumpState
  import opened PumpInvariants

  // pending: the threads whose int3 exception, caused by a byte the pump wrote, has not been delivered.
  datatype World = World(pump: State, pending: map<int, int>)

  datatype Move = Execute(thread: int, address: int) | Handle(event: Event)

  predicate ValidMove(m: Move) { m.Handle? ==> ValidEvent(m.event) }

  /** Memory at a holds an int3 that is not the target's own. */
  predicate PumpInt3(s: State, own: Memory, a: int)
  {
    a in s.mem && s.mem[a] == INT3 && a in own && own[a] != INT3
  }

  function Advance(w: World, own: Memory, m: Move): World
    requires ValidMove(m)
  {
    match m
    case Execute(t, a) =>
      if t !in w.pending && PumpInt3(w.pump, own, a) then w.(pending := w.pending[t := a]) else w
    case Handle(e) =>
      World(Apply(w.pump, e),
            if e.Hit? && e.thread in w.pending && w.pending[e.thread] == e.address
            then w.pending - {e.thread} else w.pending)
  }

  /** A breakpoint exception is delivered only for a trap in flight or for an int3 of the target's own. */
  predicate Feasible(w: World, own: Memory, m: Move)
  {
    m.Handle? && m.event.Hit? ==>
      var e := m.event;
      (e.thread in w.pending && w.pending[e.thread] == e.address) || (e.address in own && own[e.address] == INT3)
  }

  predicate PendingAt(pending: map<int, int>, a: int)
  {
    exists t | t in pending :: pending[t] == a
  }

  /** Something may still raise, or write, an int3 of the pump's at a. */
  predicate Live(w: World, own: Memory, a: int)
  {
    || PendingAt(w.pending, a)
    || PumpInt3(w.pump, own, a)
    || (SteppingOver(w.pump.stepping, a) && a in own && own[a] != INT3)
  }

  predicate Held(s: State, a: int) { Armed(s.breakpoints, a) || a in s.disarmed }

  ghost predicate ClaimsHold(w: World, own: Memory)
  {
    && w.pump.mem.Keys == own.Keys
    && (forall a :: a in w.pump.breakpoints ==> w.pump.breakpoints[a].enabled && w.pump.breakpoints[a].original != INT3)
    && (forall t :: t in w.pending ==> w.pending[t] in own && own[w.pending[t]] != INT3)
    && (forall t :: t in w.pump.stepping ==> w.pump.stepping[t] in own)
    && (forall a :: Live(w, own, a) ==> Held(w.pump, a))
  }

  /** A failed re-arm forgets an address that was never disarmed while something there is still live. */
  predicate RearmLost(w: World, own: Memory, m: Move)
  {
    && m.Handle? && (m.event.SingleStep? || m.event.ThreadExit?)
    && var t := m.event.thread;
       && t in w.pump.stepping && !m.event.writeOk
       && var a := w.pump.stepping[t];
          && Armed(w.pump.breakpoints, a) && a !in w.pump.disarmed
          && (m.event.ThreadExit? ==> !OtherStepper(w.pump.stepping, t, a))
          && a in own && own[a] != INT3
          && (PendingAt(w.pending, a) || PumpInt3(w.pump, own, a) || OtherStepper(w.pump.stepping, t, a))
  }

  lemma ClaimsExecute(w: World, own: Memory, m: Move)
    requires ClaimsHold(w, own) && m.Execute?
    ensures ClaimsHold(Advance(w, own, m), own)
  {
    var w' := Advance(w, own, m);
    forall a | Live(w', own, a)
      ensures Live(w, own, a)
    {
      if PendingAt(w'.pending, a) {
        var t :| t in w'.pending && w'.pending[t] == a;
        if t in w.pending && w.pending[t] == a { assert PendingAt(w.pending, a); }
      }
    }
  }

  lemma ClaimsHit(w: World, own: Memory, m: Move)
    requires ClaimsHold(w, own) && m.Handle? && m.event.Hit? && Feasible(w, own, m)
    ensures ClaimsHold(Advance(w, own, m), own)
  {
    var w' := Advance(w, own, m);
    var e := m.event;
    forall a | Live(w', own, a)
      ensures Held(w'.pump, a)
    {
      if a != e.address {
        if PendingAt(w'.pending, a) {
          var t :| t in w'.pending && w'.pending[t] == a;
          assert t in w.pending && w.pending[t] == a;
        } else if SteppingOver(w'.pump.stepping, a) {
          var t :| t in w'.pump.stepping && w'.pump.stepping[t] == a;
          assert t in w.pump.stepping && w.pump.stepping[t] == a;
        }
        assert Live(w, own, a);
      } else {
        assert PendingAt(w.pending, a);
        assert Live(w, own, a);
      }
    }
  }

  lemma ClaimsStep(w: World, own: Memory, m: Move)
    requires ClaimsHold(w, own) && m.Handle? && (m.event.SingleStep? || m.event.ThreadExit?)
    ensures ClaimsHold(Advance(w, own, m), own) <==> !RearmLost(w, own, m)
  {
    var w' := Advance(w, own, m);
    var t := m.event.thread;
    if t !in w.pump.stepping {
      forall b | Live(w', own, b)
        ensures Held(w'.pump, b)
      {
        assert Live(w, own, b);
      }
    } else {
      var a := w.pump.stepping[t];
      forall b
        ensures SteppingOver(w'.pump.stepping, b) <==> OtherStepper(w.pump.stepping, t, b)
        ensures SteppingOver(w.pump.stepping, b) <==> OtherStepper(w.pump.stepping, t, b) || a == b
      {
        SteppingAfterStep(w.pump.stepping, t, b);
      }
      if RearmLost(w, own, m) {
        assert Live(w', own, a) && !Held(w'.pump, a);
      } else {
        forall b | Live(w', own, b)
          ensures Held(w'.pump, b)
        {
          assert b != a ==> Live(w, own, b) && Held(w.pump, b);
          if b == a && own[a] != INT3 {
            assert Live(w, own, a) && Held(w.pump, a);
          }
        }
      }
    }
  }

  lemma ClaimsTable(w: World, own: Memory, m: Move)
    requires ClaimsHold(w, own) && ValidMove(m) && m.Handle?
    requires m.event.AddSoftware? || m.event.AddHardware? || m.event.Remove? || m.event.DisarmAll?
    ensures ClaimsHold(Advance(w, own, m), own)
  {
    var w' := Advance(w, own, m);
    forall a | Live(w', own, a) && !Armed(w'.pump.breakpoints, a)
      ensures Live(w, own, a)
    {
    }
  }

  /** One move keeps every live trap claimed exactly when it is not a lost re-arm. */
  lemma ClaimsMove(w: World, own: Memory, m: Move)
    requires ClaimsHold(w, own) && ValidMove(m) && Feasible(w, own, m)
    ensures ClaimsHold(Advance(w, own, m), own) <==> !RearmLost(w, own, m)
  {
    match m
    case Execute(_, _) => ClaimsExecute(w, own, m);
    case Handle(e) =>
      match e
      case Hit(_, _, _, _, _) => ClaimsHit(w, own, m);
      case SingleStep(_, _, _, _) => ClaimsStep(w, own, m);
      case ThreadExit(_, _) => ClaimsStep(w, own, m);
      case AddSoftware(_, _, _) => ClaimsTable(w, own, m);
      case AddHardware(_, _, _) => ClaimsTable(w, own, m);
      case Remove(_, _) => ClaimsTable(w, own, m);
      case DisarmAll(_) => ClaimsTable(w, own, m);
  }

  function RunMoves(w: World, own: Memory, ms: seq<Move>): World
    requires forall i :: 0 <= i < |ms| ==> ValidMove(ms[i])
    decreases ms
  {
    if ms == [] then w else RunMoves(Advance(w, own, ms[0]), own, ms[1..])
  }

  /** Every move is one Windows can deliver, and no re-arm write fails while its address is still live. */
  predicate Faithful(w: World, own: Memory, ms: seq<Move>)
    decreases ms
  {
    ms == [] ||
    (ValidMove(ms[0]) && Feasible(w, own, ms[0]) && !RearmLost(w, own, ms[0])
     && Faithful(Advance(w, own, ms[0]), own, ms[1..]))
  }

  lemma {:induction false} FaithfulIsValid(w: World, own: Memory, ms: seq<Move>)
    requires Faithful(w, own, ms)
    ensures forall i :: 0 <= i < |ms| ==> ValidMove(ms[i])
    decreases ms
  {
    if ms != [] {
      FaithfulIsValid(Advance(w, own, ms[0]), own, ms[1..]);
      forall i | 0 <= i < |ms| ensures ValidMove(ms[i]) {
        if i > 0 { assert ms[i] == ms[1..][i - 1]; }
      }
    }
  }

  lemma {:induction false} RunClaims(w: World, own: Memory, ms: seq<Move>)
    requires ClaimsHold(w, own) && Faithful(w, own, ms)
    requires forall i :: 0 <= i < |ms| ==> ValidMove(ms[i])
    ensures ClaimsHold(RunMoves(w, own, ms), own)
    decreases ms
  {
    if ms != [] {
      ClaimsMove(w, own, ms[0]);
      RunClaims(Advance(w, own, ms[0]), own, ms[1..]);
    }
  }

  /** However late it is delivered, a trap the pump caused since attach is claimed. */
  lemma EveryPumpTrapIsClaimed(own: Memory, ms: seq<Move>, t: int)
    requires Faithful(World(Attached(own), map[]), own, ms)
    requires forall i :: 0 <= i < |ms| ==> ValidMove(ms[i])
    ensures var w := RunMoves(World(Attached(own), map[]), own, ms);
            t in w.pending ==> Claims(w.pump, w.pending[t])
  {
    var w0 := World(Attached(own), map[]);
    RunClaims(w0, own, ms);
    var w := RunMoves(w0, own, ms);
    if t in w.pending {
      assert PendingAt(w.pending, w.pending[t]);
      assert Live(w, own, w.pending[t]);
    }
  }

  /** The excepted case is real: after a lost re-arm the trap still in flight is handed to the target. */
  lemma LostRearmDropsTrap(w: World, own: Memory, m: Move, u: int)
    requires ClaimsHold(w, own) && RearmLost(w, own, m)
    requires u in w.pending && w.pending[u] == w.pump.stepping[m.event.thread]
    ensures var w' := Advance(w, own, m);
            u in w'.pending && !Claims(w'.pump, w'.pending[u])
  {
  }

  lemma LostRearmIsReachable(a: int, original: Byte)
    requires original != INT3
    ensures var own := map[a := original];
            var w := World(Apply(Apply(Attached(own), AddSoftware(a, true, true)), Hit(a, 1, true, true, true)),
                           map[2 := a]);
            && w == Advance(Advance(Advance(Advance(World(Attached(own), map[]), own,
                      Handle(AddSoftware(a, true, true))), own, Execute(1, a)), own, Execute(2, a)), own,
                      Handle(Hit(a, 1, true, true, true)))
            && ClaimsHold(w, own) && RearmLost(w, own, Handle(SingleStep(1, true, {}, false)))
  {
    var own: Memory := map[a := original];
    var w1 := Advance(World(Attached(own), map[]), own, Handle(AddSoftware(a, true, true)));
    var w2 := Advance(w1, own, Execute(1, a));
    var w3 := Advance(w2, own, Execute(2, a));
    assert w3.pending == map[1 := a, 2 := a];
    var w4 := Advance(w3, own, Handle(Hit(a, 1, true, true, true)));
    assert w4.pending == map[2 := a];
    assert w4.pump.stepping == map[1 := a];
    assert PendingAt(w4.pending, a) by { assert 2 in w4.pending; }
  }

  predicate Adds(e: Event, a: int) { (e.AddSoftware? || e.AddHardware?) && e.address == a }

  /** Conversely nothing is claimed at an address no breakpoint was ever set at. */
  lemma {:induction false} OnlyAddedAddressesAreClaimed(s: State, es: seq<Event>, a: int)
    requires ValidEvents(es) && !Claims(s, a) && a !in s.breakpoints && !SteppingOver(s.stepping, a)
    requires forall i :: 0 <= i < |es| ==> !Adds(es[i], a)
    ensures !Claims(Run(s, es), a)
    decreases es
  {
    if es != [] {
      var e := es[0];
      var s' := Apply(s, e);
      if (e.SingleStep? || e.ThreadExit?) && e.thread in s.stepping {
        SteppingAfterStep(s.stepping, e.thread, a);
      } else if e.Hit? && s'.stepping != s.stepping {
        SteppingAfterHit(s.stepping, e.thread, e.address, a);
      }
      OnlyAddedAddressesAreClaimed(s', es[1..], a);
    }
  }
}
