/**
 The debug event pump as a state machine over target memory, the breakpoint table, the threads
 mid-step and the disarmed addresses. Every handler runs under the pump's lock, so each is one step.
 What Windows decides (whether a context or byte could be read or written) is part of the event.
 */
module PumpState {
  import opened Common

  const INT3: Byte := 0xCC
  const DEBUG_SLOT_COUNT := 4

  datatype Kind = Software | HardwareExecute | HardwareWrite | HardwareReadWrite

  datatype Breakpoint = Breakpoint(original: Byte, hits: nat, enabled: bool, kind: Kind, length: int, slot: int)

  datatype State = State(
    mem: Memory,
    breakpoints: map<int, Breakpoint>,
    stepping: map<int, int>,
    disarmed: set<int>,
    hardwareUsed: bool)

  datatype Event =
    | AddSoftware(address: int, readOk: bool, writeOk: bool)
    | AddHardware(address: int, kind: Kind, length: int)
    | Hit(address: int, thread: int, contextOk: bool, writeOk: bool, setOk: bool)
    | SingleStep(thread: int, contextOk: bool, fired: set<int>, writeOk: bool)
    | ThreadExit(thread: int, writeOk: bool)
    | Remove(address: int, writeOk: bool)
    | DisarmAll(unwritable: set<int>)

  /** A one-byte write: nothing changes when Windows refuses it or the byte is not mapped. */
  function WriteByte(mem: Memory, a: int, value: Byte, ok: bool): Option<Memory>
  {
    if ok && a in mem then Some(mem[a := value]) else None
  }

  predicate SteppingOver(stepping: map<int, int>, a: int)
  {
    exists t | t in stepping :: stepping[t] == a
  }

  /** A software breakpoint is in the table at a. */
  predicate Armed(breakpoints: map<int, Breakpoint>, a: int)
  {
    a in breakpoints && breakpoints[a].kind.Software?
  }

  /** A breakpoint exception at a is swallowed rather than handed to the target. */
  predicate Claims(s: State, a: int)
  {
    (a in s.breakpoints && s.breakpoints[a].enabled) || a in s.disarmed
  }

  /** A single step of the thread is swallowed: it was mid-step, or some debug register has been in use. */
  predicate Handled(s: State, t: int) { t in s.stepping || s.hardwareUsed }

  // ----- One function per handler -----

  function Rearm(s: State, a: int, writeOk: bool): State
  {
    if a !in s.breakpoints || !s.breakpoints[a].enabled then s
    else match WriteByte(s.mem, a, INT3, writeOk)
      case Some(mem) => s.(mem := mem)
      case None => s.(breakpoints := s.breakpoints - {a})
  }

  function OnHit(s: State, a: int, t: int, contextOk: bool, writeOk: bool, setOk: bool): State
  {
    if a !in s.breakpoints || !s.breakpoints[a].enabled || !contextOk then s
    else match WriteByte(s.mem, a, s.breakpoints[a].original, writeOk)
      case None => s
      case Some(mem) =>
        if !setOk then
          s.(mem := mem, disarmed := s.disarmed + {a}, breakpoints := s.breakpoints - {a})
        else
          var entry := s.breakpoints[a];
          s.(mem := mem, stepping := s.stepping[t := a],
             breakpoints := s.breakpoints[a := entry.(hits := entry.hits + 1)])
  }

  /** Addresses of the enabled hardware breakpoints whose register is among those that fired. */
  function FiredAt(breakpoints: map<int, Breakpoint>, fired: set<int>): set<int>
  {
    set a | a in breakpoints && !breakpoints[a].kind.Software? && breakpoints[a].enabled
            && breakpoints[a].slot in fired
  }

  ghost predicate IsLeast(s: set<int>, x: int) { x in s && forall y :: y in s ==> x <= y }

  function Least(s: set<int>): (x: int)
    requires s != {}
    ensures IsLeast(s, x)
  {
    LeastExists(s);
    var x :| x in s && forall y :: y in s ==> x <= y;
    x
  }

  lemma {:induction false} LeastExists(s: set<int>)
    requires s != {}
    ensures exists x :: IsLeast(s, x)
  {
    NoMember(s);
    var x: int :| x in s;
    if s == {x} {
      assert IsLeast(s, x);
    } else {
      LeastExists(s - {x});
      var y :| IsLeast(s - {x}, y);
      assert forall z :: z in s ==> z == x || z in s - {x};
      assert IsLeast(s, Min(x, y));
    }
  }

  /** A fired debug register counts a hit against the first matching entry of the address-ordered table. */
  function OnHardware(s: State, contextOk: bool, fired: set<int>): State
  {
    var hit := FiredAt(s.breakpoints, fired);
    if !contextOk || hit == {} then s
    else
      var a := Least(hit);
      s.(breakpoints := s.breakpoints[a := s.breakpoints[a].(hits := s.breakpoints[a].hits + 1)])
  }

  function OnSoftwareStep(s: State, t: int, writeOk: bool): State
    requires t in s.stepping
  {
    Rearm(s.(stepping := s.stepping - {t}), s.stepping[t], writeOk)
  }

  function OnSingleStep(s: State, t: int, contextOk: bool, fired: set<int>, writeOk: bool): State
  {
    var counted := if s.hardwareUsed then OnHardware(s, contextOk, fired) else s;
    if t in s.stepping then OnSoftwareStep(counted, t, writeOk) else counted
  }

  function OnThreadExit(s: State, t: int, writeOk: bool): State
  {
    if t !in s.stepping then s
    else
      var a := s.stepping[t];
      var rest := s.(stepping := s.stepping - {t});
      if SteppingOver(rest.stepping, a) then rest else Rearm(rest, a, writeOk)
  }

  function OnAddSoftware(s: State, a: int, readOk: bool, writeOk: bool): State
  {
    if a in s.breakpoints || !readOk || a !in s.mem || s.mem[a] == INT3 then s
    else match WriteByte(s.mem, a, INT3, writeOk)
      case None => s
      case Some(mem) =>
        s.(mem := mem, disarmed := s.disarmed - {a},
           breakpoints := s.breakpoints[a := Breakpoint(s.mem[a], 0, true, Software, 1, -1)])
  }

  /** Slot k belongs to a hardware breakpoint. */
  predicate Taken(breakpoints: map<int, Breakpoint>, k: int)
  {
    exists a | a in breakpoints :: !breakpoints[a].kind.Software? && breakpoints[a].slot == k
  }

  /** The first debug register no hardware breakpoint holds, or -1 when all four are taken. */
  function FreeSlot(breakpoints: map<int, Breakpoint>): (slot: int)
    ensures slot == -1 <==> forall k :: 0 <= k < DEBUG_SLOT_COUNT ==> Taken(breakpoints, k)
    ensures slot != -1 ==> 0 <= slot < DEBUG_SLOT_COUNT && !Taken(breakpoints, slot)
    ensures forall k :: 0 <= k < slot ==> Taken(breakpoints, k)
  {
    if !Taken(breakpoints, 0) then 0
    else if !Taken(breakpoints, 1) then 1
    else if !Taken(breakpoints, 2) then 2
    else if !Taken(breakpoints, 3) then 3
    else -1
  }

  predicate ValidWatchLength(length: int) { length == 1 || length == 2 || length == 4 || length == 8 }

  function OnAddHardware(s: State, a: int, kind: Kind, length: int): State
    requires !kind.Software?
  {
    var width := if kind.HardwareExecute? then 1 else length;
    var slot := FreeSlot(s.breakpoints);
    if a in s.breakpoints || !ValidWatchLength(width) || a % width != 0 || slot < 0 then s
    else s.(breakpoints := s.breakpoints[a := Breakpoint(0, 0, true, kind, width, slot)], hardwareUsed := true)
  }

  function OnRemove(s: State, a: int, writeOk: bool): State
  {
    if a !in s.breakpoints then s
    else if !s.breakpoints[a].kind.Software? then s.(breakpoints := s.breakpoints - {a})
    else
      var gone := s.(breakpoints := s.breakpoints - {a}, disarmed := s.disarmed + {a});
      if SteppingOver(s.stepping, a) then gone
      else match WriteByte(s.mem, a, s.breakpoints[a].original, writeOk)
        case Some(mem) => gone.(mem := mem)
        case None => gone
  }

  /** The armed addresses that disarming writes the saved byte back to. */
  predicate Restorable(s: State, unwritable: set<int>, a: int)
  {
    Armed(s.breakpoints, a) && !SteppingOver(s.stepping, a) && a !in unwritable && a in s.mem
  }

  function OnDisarmAll(s: State, unwritable: set<int>): State
  {
    State(
      map a | a in s.mem :: if Restorable(s, unwritable, a) then s.breakpoints[a].original else s.mem[a],
      map[], s.stepping,
      s.disarmed + (set a | a in s.breakpoints && s.breakpoints[a].kind.Software?),
      s.hardwareUsed)
  }

  predicate ValidEvent(e: Event) { e.AddHardware? ==> !e.kind.Software? }

  /** One locked handler. */
  function Apply(s: State, e: Event): State
    requires ValidEvent(e)
  {
    match e
    case AddSoftware(a, readOk, writeOk) => OnAddSoftware(s, a, readOk, writeOk)
    case AddHardware(a, kind, length) => OnAddHardware(s, a, kind, length)
    case Hit(a, t, contextOk, writeOk, setOk) => OnHit(s, a, t, contextOk, writeOk, setOk)
    case SingleStep(t, contextOk, fired, writeOk) => OnSingleStep(s, t, contextOk, fired, writeOk)
    case ThreadExit(t, writeOk) => OnThreadExit(s, t, writeOk)
    case Remove(a, writeOk) => OnRemove(s, a, writeOk)
    case DisarmAll(unwritable) => OnDisarmAll(s, unwritable)
  }

  predicate ValidEvents(es: seq<Event>) { forall i :: 0 <= i < |es| ==> ValidEvent(es[i]) }

  function Run(s: State, es: seq<Event>): State
    requires ValidEvents(es)
    decreases es
  {
    if es == [] then s else Run(Apply(s, es[0]), es[1..])
  }

  /** The pump as it is when the debugger has just attached. */
  function Attached(own: Memory): State { State(own, map[], map[], {}, false) }
}
