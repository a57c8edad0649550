/** The pump itself: fields its handlers update in place, each handler tied to its step function. */
module DebugPump {
  import opened Common
  import opened PumpState
  import opened HardwareSlots
  import opened PumpTable

  /** Slot k belongs to a hardware breakpoint at one of the addresses already walked. */
  ghost predicate TakenAmong(breakpoints: map<int, Breakpoint>, done: set<int>, k: int)
  {
    exists a :: a in done && Hardware(breakpoints, a) && breakpoints[a].slot == k
  }

  lemma TakenOneMore(breakpoints: map<int, Breakpoint>, done: set<int>, a: int)
    requires a in breakpoints
    ensures forall k :: TakenAmong(breakpoints, done + {a}, k) <==>
              TakenAmong(breakpoints, done, k) || (Hardware(breakpoints, a) && breakpoints[a].slot == k)
  {
    forall k
      ensures TakenAmong(breakpoints, done + {a}, k) <==>
              TakenAmong(breakpoints, done, k) || (Hardware(breakpoints, a) && breakpoints[a].slot == k)
    {
      assert a in done + {a};
      if TakenAmong(breakpoints, done, k) {
        var b :| b in done && Hardware(breakpoints, b) && breakpoints[b].slot == k;
        assert b in done + {a};
      }
    }
  }

  /** What a debug exception means for the hardware breakpoints. */
  datatype HardwareVerdict = NotOurs | Stale | Hit

  /** The lowest-addressed breakpoint that fired has one hit more, and nothing else in the table differs. */
  ghost predicate CountsLowest(was: map<int, Breakpoint>, fired: set<int>, now: map<int, Breakpoint>)
  {
    exists a :: LowestFiring(was, fired, a) && now == was[a := was[a].(hits := was[a].hits + 1)]
  }

  class DebugEventPump {
    var target: Memory
    var breakpoints: map<int, Breakpoint>
    var stepping: map<int, int>
    var disarmed: set<int>
    var hardwareUsed: bool

    function Now(): State
      reads this
    {
      State(target, breakpoints, stepping, disarmed, hardwareUsed)
    }

    constructor (own: Memory)
      ensures Now() == Attached(own)
    {
      target, breakpoints, stepping := own, map[], map[];
      disarmed, hardwareUsed := {}, false;
    }

    /** Writes one byte; a refused or unmapped write changes nothing. */
    method PutByte(a: int, value: Byte, ok: bool) returns (done: bool)
      modifies this`target
      ensures done <==> ok && a in old(target)
      ensures target == if done then old(target)[a := value] else old(target)
    {
      done := ok && a in target;
      if done {
        target := target[a := value];
      }
    }

    method RearmLocked(a: int, writeOk: bool)
      modifies this
      ensures Now() == Rearm(old(Now()), a, writeOk)
    {
      if a !in breakpoints || !breakpoints[a].enabled {
        return;
      }
      var armed := PutByte(a, INT3, writeOk);
      if !armed {
        breakpoints := breakpoints - {a};
      }
    }

    /** The exception is swallowed exactly when the address is live or was disarmed, however late it comes. */
    method HandleBreakpoint(a: int, t: int, contextOk: bool, writeOk: bool, setOk: bool) returns (claimed: bool)
      modifies this
      ensures claimed == Claims(old(Now()), a)
      ensures Now() == OnHit(old(Now()), a, t, contextOk, writeOk, setOk)
    {
      if a !in breakpoints || !breakpoints[a].enabled {
        return a in disarmed;
      }
      var entry := breakpoints[a];
      if !contextOk {
        return true;
      }
      var restored := PutByte(a, entry.original, writeOk);
      if !restored {
        return true;
      }
      if !setOk {
        disarmed := disarmed + {a};
        breakpoints := breakpoints - {a};
        return true;
      }
      stepping := stepping[t := a];
      breakpoints := breakpoints[a := entry.(hits := entry.hits + 1)];
      return true;
    }

    /**
     Walks the table upwards and stops at the first live hardware entry whose register fired. Exactly that entry, the
     lowest-addressed one, gains a hit; a status without such an entry is stale, one without a register is not ours.
     */
    method HandleHardwareHit(contextOk: bool, fired: set<int>) returns (verdict: HardwareVerdict)
      modifies this`breakpoints
      ensures Now() == OnHardware(old(Now()), contextOk, fired)
      ensures verdict.NotOurs? <==> !contextOk || fired == {}
      ensures verdict.Hit? <==> contextOk && exists a :: Fires(old(breakpoints), fired, a)
      ensures if verdict.Hit? then CountsLowest(old(breakpoints), fired, breakpoints)
              else breakpoints == old(breakpoints)
    {
      if !contextOk || fired == {} {
        return NotOurs;
      }
      var rest := breakpoints.Keys;
      while rest != {}
        invariant rest <= breakpoints.Keys && breakpoints == old(breakpoints)
        invariant forall a, b :: a in breakpoints && a !in rest && b in rest ==> a < b
        invariant forall a :: a in breakpoints && a !in rest ==> !Fires(breakpoints, fired, a)
      {
        var a := Least(rest);
        var entry := breakpoints[a];
        if !entry.kind.Software? && entry.enabled && entry.slot in fired {
          assert LowestFiring(breakpoints, fired, a) && a in FiredAt(breakpoints, fired);
          breakpoints := breakpoints[a := entry.(hits := entry.hits + 1)];
          return HardwareVerdict.Hit;
        }
        rest := rest - {a};
      }
      assert forall a :: a !in FiredAt(breakpoints, fired);
      NoMember(FiredAt(breakpoints, fired));
      return Stale;
    }

    method HandleSoftwareStep(t: int, writeOk: bool)
      requires t in stepping
      modifies this
      ensures Now() == OnSoftwareStep(old(Now()), t, writeOk)
    {
      var a := stepping[t];
      stepping := stepping - {t};
      RearmLocked(a, writeOk);
    }

    /** A single step is ours when the thread was mid-step, or once any debug register has been used. */
    method HandleSingleStep(t: int, contextOk: bool, fired: set<int>, writeOk: bool) returns (handled: bool)
      modifies this
      ensures handled <==> Handled(old(Now()), t)
      ensures Now() == OnSingleStep(old(Now()), t, contextOk, fired, writeOk)
    {
      handled := false;
      if hardwareUsed {
        var verdict := HandleHardwareHit(contextOk, fired);
        handled := !verdict.NotOurs?;
      }
      if t in stepping {
        HandleSoftwareStep(t, writeOk);
        handled := true;
      }
      if !handled && hardwareUsed {
        handled := true;
      }
    }

    method HandleThreadExit(t: int, writeOk: bool)
      modifies this
      ensures Now() == OnThreadExit(old(Now()), t, writeOk)
    {
      if t !in stepping {
        return;
      }
      var a := stepping[t];
      stepping := stepping - {t};
      if !SteppingOver(stepping, a) {
        RearmLocked(a, writeOk);
      }
    }

    method AddSoftwareBreakpoint(a: int, readOk: bool, writeOk: bool) returns (added: bool)
      modifies this
      ensures Now() == OnAddSoftware(old(Now()), a, readOk, writeOk)
      ensures added <==> && readOk && writeOk && a !in old(breakpoints)
                         && a in old(target) && old(target)[a] != INT3
      ensures added ==> a in breakpoints && breakpoints[a].original == old(target)[a]
      ensures !added ==> Now() == old(Now())
    {
      if a in breakpoints || !readOk || a !in target || target[a] == INT3 {
        return false;
      }
      var original := target[a];
      added := PutByte(a, INT3, writeOk);
      if added {
        disarmed := disarmed - {a};
        breakpoints := breakpoints[a := Breakpoint(original, 0, true, Software, 1, -1)];
      }
    }

    /** Marks the slots in use over one walk of the table, then takes the first that is clear. */
    method FreeDebugSlot() returns (slot: int)
      ensures slot == FreeSlot(breakpoints)
    {
      var taken := new bool[DEBUG_SLOT_COUNT](_ => false);
      var rest := breakpoints.Keys;
      while rest != {}
        invariant rest <= breakpoints.Keys
        invariant forall k :: 0 <= k < DEBUG_SLOT_COUNT ==>
                    (taken[k] <==> TakenAmong(breakpoints, breakpoints.Keys - rest, k))
        decreases rest
      {
        NoMember(rest);
        var a: int :| a in rest;
        ghost var done := breakpoints.Keys - rest;
        rest := rest - {a};
        assert breakpoints.Keys - rest == done + {a};
        var info := breakpoints[a];
        TakenOneMore(breakpoints, done, a);
        if !info.kind.Software? && 0 <= info.slot < DEBUG_SLOT_COUNT {
          taken[info.slot] := true;
        }
      }
      assert breakpoints.Keys - rest == breakpoints.Keys;
      slot := 0;
      while slot < DEBUG_SLOT_COUNT
        invariant 0 <= slot <= DEBUG_SLOT_COUNT
        invariant forall k :: 0 <= k < DEBUG_SLOT_COUNT ==> (taken[k] <==> Taken(breakpoints, k))
        invariant forall k :: 0 <= k < slot ==> Taken(breakpoints, k)
      {
        if !taken[slot] {
          return;
        }
        slot := slot + 1;
      }
      slot := -1;
    }

    method AddHardwareBreakpoint(a: int, kind: Kind, length: int) returns (added: bool)
      requires !kind.Software?
      modifies this
      ensures Now() == OnAddHardware(old(Now()), a, kind, length)
      ensures added <==> && a !in old(breakpoints) && WatchLength(kind, length) in {1, 2, 4, 8}
                         && a % WatchLength(kind, length) == 0
                         && exists k :: 0 <= k < DEBUG_SLOT_COUNT && !Taken(old(breakpoints), k)
      ensures added ==> && hardwareUsed && a in breakpoints && !Taken(old(breakpoints), breakpoints[a].slot)
                        && breakpoints[a].kind == kind && breakpoints[a].length == WatchLength(kind, length)
      ensures !added ==> Now() == old(Now())
    {
      if a in breakpoints {
        return false;
      }
      var width := if kind.HardwareExecute? then 1 else length;
      if !ValidWatchLength(width) || a % width != 0 {
        return false;
      }
      var slot := FreeDebugSlot();
      if slot < 0 {
        return false;
      }
      breakpoints := breakpoints[a := Breakpoint(0, 0, true, kind, width, slot)];
      hardwareUsed := true;
      return true;
    }

    /** Reports failure when the entry is gone but its int3 could not be taken out. */
    method RemoveBreakpoint(a: int, writeOk: bool) returns (ok: bool)
      modifies this
      ensures Now() == OnRemove(old(Now()), a, writeOk)
      ensures a !in breakpoints
      ensures ok <==> a in old(breakpoints)
                      && (Armed(old(breakpoints), a) && !SteppingOver(stepping, a) ==> writeOk && a in old(target))
    {
      if a !in breakpoints {
        return false;
      }
      if !breakpoints[a].kind.Software? {
        breakpoints := breakpoints - {a};
        return true;
      }
      var original := breakpoints[a].original;
      var steppingOver := SteppingOver(stepping, a);
      breakpoints := breakpoints - {a};
      disarmed := disarmed + {a};
      ok := true;
      if !steppingOver {
        ok := PutByte(a, original, writeOk);
      }
    }

    /** Writes every saved byte back, continuing past the ones that cannot be written. */
    method DisarmEverything(unwritable: set<int>)
      modifies this
      ensures Now() == OnDisarmAll(old(Now()), unwritable)
    {
      ghost var before := Now();
      var rest := breakpoints.Keys;
      while rest != {}
        invariant rest <= breakpoints.Keys
        invariant breakpoints == before.breakpoints && stepping == before.stepping
        invariant hardwareUsed == before.hardwareUsed
        invariant target.Keys == before.mem.Keys
        invariant forall a :: a in target ==>
                    target[a] == if Restorable(before, unwritable, a) && a !in rest
                                 then before.breakpoints[a].original else before.mem[a]
        invariant disarmed == before.disarmed
                    + (set a | a in before.breakpoints && a !in rest && before.breakpoints[a].kind.Software?)
        decreases rest
      {
        NoMember(rest);
        var a: int :| a in rest;
        rest := rest - {a};
        if breakpoints[a].kind.Software? {
          if !SteppingOver(stepping, a) {
            var restored := PutByte(a, breakpoints[a].original, a !in unwritable);
          }
          disarmed := disarmed + {a};
        }
      }
      breakpoints := map[];
      assert target == OnDisarmAll(before, unwritable).mem;
    }
  }
}
