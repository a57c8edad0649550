/**
 The four debug registers: slots are never shared, and the DR7 word written from the table reads back,
 register by register, as the enabled breakpoints and nothing else. Field positions and encodings are
 those of section 17.2.4 of the Intel SDM, Volume 3B.
 */
module HardwareSlots {
  import opened Common
  import opened PumpState

  predicate Hardware(breakpoints: map<int, Breakpoint>, a: int)
  {
    a in breakpoints && !breakpoints[a].kind.Software?
  }

  predicate SlotsSound(breakpoints: map<int, Breakpoint>)
  {
    && (forall a | a in breakpoints :: Hardware(breakpoints, a) ==>
          && 0 <= breakpoints[a].slot < DEBUG_SLOT_COUNT && breakpoints[a].enabled
          && ValidWatchLength(breakpoints[a].length) && a % breakpoints[a].length == 0
          && (breakpoints[a].kind.HardwareExecute? ==> breakpoints[a].length == 1))
    && (forall a, b | a in breakpoints && b in breakpoints ::
          a != b && Hardware(breakpoints, a) && Hardware(breakpoints, b) ==>
          breakpoints[a].slot != breakpoints[b].slot)
  }

  lemma SlotsAdd(breakpoints: map<int, Breakpoint>, a: int, entry: Breakpoint)
    requires SlotsSound(breakpoints) && a !in breakpoints
    requires !entry.kind.Software? ==>
               && 0 <= entry.slot < DEBUG_SLOT_COUNT && !Taken(breakpoints, entry.slot) && entry.enabled
               && ValidWatchLength(entry.length) && a % entry.length == 0
               && (entry.kind.HardwareExecute? ==> entry.length == 1)
    ensures SlotsSound(breakpoints[a := entry])
  {
  }

  lemma SlotsUpdate(breakpoints: map<int, Breakpoint>, a: int, hits: nat)
    requires SlotsSound(breakpoints) && a in breakpoints
    ensures SlotsSound(breakpoints[a := breakpoints[a].(hits := hits)])
  {
    var after := breakpoints[a := breakpoints[a].(hits := hits)];
    assert forall b :: b in after <==> b in breakpoints;
    assert forall b :: b in after ==>
             && after[b].kind == breakpoints[b].kind && after[b].slot == breakpoints[b].slot
             && after[b].length == breakpoints[b].length && after[b].enabled == breakpoints[b].enabled;
  }

  lemma SlotsErase(breakpoints: map<int, Breakpoint>, a: int)
    requires SlotsSound(breakpoints)
    ensures SlotsSound(breakpoints - {a})
  {
  }

  lemma SlotsAddHardware(s: State, a: int, kind: Kind, length: int)
    requires SlotsSound(s.breakpoints) && !kind.Software?
    ensures SlotsSound(OnAddHardware(s, a, kind, length).breakpoints)
  {
    var width := if kind.HardwareExecute? then 1 else length;
    var slot := FreeSlot(s.breakpoints);
    if a !in s.breakpoints && ValidWatchLength(width) && a % width == 0 && slot >= 0 {
      SlotsAdd(s.breakpoints, a, Breakpoint(0, 0, true, kind, width, slot));
    }
  }

  lemma SlotsRearm(s: State, a: int, writeOk: bool)
    requires SlotsSound(s.breakpoints)
    ensures SlotsSound(Rearm(s, a, writeOk).breakpoints)
  {
    SlotsErase(s.breakpoints, a);
  }

  lemma SlotsHit(s: State, a: int, t: int, contextOk: bool, writeOk: bool, setOk: bool)
    requires SlotsSound(s.breakpoints)
    ensures SlotsSound(OnHit(s, a, t, contextOk, writeOk, setOk).breakpoints)
  {
    SlotsErase(s.breakpoints, a);
    if a in s.breakpoints {
      SlotsUpdate(s.breakpoints, a, s.breakpoints[a].hits + 1);
    }
  }

  lemma SlotsSingleStep(s: State, t: int, contextOk: bool, fired: set<int>, writeOk: bool)
    requires SlotsSound(s.breakpoints)
    ensures SlotsSound(OnSingleStep(s, t, contextOk, fired, writeOk).breakpoints)
  {
    var hit := FiredAt(s.breakpoints, fired);
    if hit != {} {
      SlotsUpdate(s.breakpoints, Least(hit), s.breakpoints[Least(hit)].hits + 1);
    }
    var counted := if s.hardwareUsed then OnHardware(s, contextOk, fired) else s;
    if t in s.stepping {
      SlotsRearm(counted.(stepping := counted.stepping - {t}), counted.stepping[t], writeOk);
    }
  }

  lemma SlotsThreadExit(s: State, t: int, writeOk: bool)
    requires SlotsSound(s.breakpoints)
    ensures SlotsSound(OnThreadExit(s, t, writeOk).breakpoints)
  {
    if t in s.stepping {
      SlotsRearm(s.(stepping := s.stepping - {t}), s.stepping[t], writeOk);
    }
  }

  lemma SlotsAddSoftware(s: State, a: int, readOk: bool, writeOk: bool)
    requires SlotsSound(s.breakpoints)
    ensures SlotsSound(OnAddSoftware(s, a, readOk, writeOk).breakpoints)
  {
    if a in s.mem && a !in s.breakpoints {
      SlotsAdd(s.breakpoints, a, Breakpoint(s.mem[a], 0, true, Software, 1, -1));
    }
  }

  lemma SlotsStep(s: State, e: Event)
    requires SlotsSound(s.breakpoints) && ValidEvent(e)
    ensures SlotsSound(Apply(s, e).breakpoints)
  {
    match e
    case AddSoftware(a, readOk, writeOk) => SlotsAddSoftware(s, a, readOk, writeOk);
    case AddHardware(a, kind, length) => SlotsAddHardware(s, a, kind, length);
    case Hit(a, t, contextOk, writeOk, setOk) => SlotsHit(s, a, t, contextOk, writeOk, setOk);
    case SingleStep(t, contextOk, fired, writeOk) => SlotsSingleStep(s, t, contextOk, fired, writeOk);
    case ThreadExit(t, writeOk) => SlotsThreadExit(s, t, writeOk);
    case Remove(a, _) => SlotsErase(s.breakpoints, a);
    case DisarmAll(_) =>
  }

  lemma {:induction false} RunSlots(s: State, es: seq<Event>)
    requires SlotsSound(s.breakpoints) && ValidEvents(es)
    ensures SlotsSound(Run(s, es).breakpoints)
    decreases es
  {
    if es != [] {
      SlotsStep(s, es[0]);
      RunSlots(Apply(s, es[0]), es[1..]);
    }
  }

  function HolderOf(breakpoints: map<int, Breakpoint>, k: int): set<int>
  {
    set a | a in breakpoints && Hardware(breakpoints, a) && breakpoints[a].slot == k
  }

  function InUse(breakpoints: map<int, Breakpoint>): set<int>
  {
    set a | a in breakpoints && Hardware(breakpoints, a)
  }

  lemma HolderCount(breakpoints: map<int, Breakpoint>, k: int)
    requires SlotsSound(breakpoints)
    ensures |HolderOf(breakpoints, k)| == if Taken(breakpoints, k) then 1 else 0
  {
    var holders := HolderOf(breakpoints, k);
    if Taken(breakpoints, k) {
      var a :| a in breakpoints && !breakpoints[a].kind.Software? && breakpoints[a].slot == k;
      assert holders == {a};
    } else {
      assert holders == {};
    }
  }

  /** At most four hardware breakpoints are live, and a fifth is refused exactly when four are. */
  lemma AtMostFourInUse(breakpoints: map<int, Breakpoint>)
    requires SlotsSound(breakpoints)
    ensures |InUse(breakpoints)| <= DEBUG_SLOT_COUNT
    ensures FreeSlot(breakpoints) == -1 <==> |InUse(breakpoints)| == DEBUG_SLOT_COUNT
  {
    var h0, h1 := HolderOf(breakpoints, 0), HolderOf(breakpoints, 1);
    var h2, h3 := HolderOf(breakpoints, 2), HolderOf(breakpoints, 3);
    HolderCount(breakpoints, 0);
    HolderCount(breakpoints, 1);
    HolderCount(breakpoints, 2);
    HolderCount(breakpoints, 3);
    InUseIsHeld(breakpoints);
    UnionCount(h0, h1, h2, h3);
    assert Taken(breakpoints, 0) && Taken(breakpoints, 1) && Taken(breakpoints, 2) && Taken(breakpoints, 3) <==>
           FreeSlot(breakpoints) == -1;
  }

  lemma InUseIsHeld(breakpoints: map<int, Breakpoint>)
    requires SlotsSound(breakpoints)
    ensures HolderOf(breakpoints, 0) !! HolderOf(breakpoints, 1) !! HolderOf(breakpoints, 2) !! HolderOf(breakpoints, 3)
    ensures InUse(breakpoints) == HolderOf(breakpoints, 0) + HolderOf(breakpoints, 1)
                                  + HolderOf(breakpoints, 2) + HolderOf(breakpoints, 3)
  {
  }

  lemma UnionCount(h0: set<int>, h1: set<int>, h2: set<int>, h3: set<int>)
    requires h0 !! h1 !! h2 !! h3
    ensures |h0 + h1 + h2 + h3| == |h0| + |h1| + |h2| + |h3|
  {
    assert |h0 + h1| == |h0| + |h1|;
    assert |h0 + h1 + h2| == |h0 + h1| + |h2|;
    assert |h0 + h1 + h2 + h3| == |h0 + h1 + h2| + |h3|;
  }

  /** Over any run from attach the live hardware breakpoints hold distinct registers, at most four of them. */
  lemma LiveHardwareFitsRegisters(own: Memory, es: seq<Event>)
    requires ValidEvents(es)
    ensures var bps := Run(Attached(own), es).breakpoints;
            && SlotsSound(bps) && |InUse(bps)| <= DEBUG_SLOT_COUNT
            && (FreeSlot(bps) == -1 <==> |InUse(bps)| == DEBUG_SLOT_COUNT)
  {
    RunSlots(Attached(own), es);
    AtMostFourInUse(Run(Attached(own), es).breakpoints);
  }

  // ----- The DR7 word -----

  // A 64-bit word as the positions of its one bits: bitwise or is union, a shifted field its positions.
  type Word = set<int>

  function ReadWriteBits(kind: Kind): int
  {
    match kind
    case HardwareWrite => 1
    case HardwareReadWrite => 3
    case HardwareExecute => 0
    case Software => 0
  }

  function LengthBits(length: int): int
  {
    if length == 2 then 1 else if length == 8 then 2 else if length == 4 then 3 else 0
  }

  /** The two-bit number v shifted left by at. */
  function TwoBits(v: int, at: int): Word
    requires 0 <= v < 4
  {
    (if v % 2 == 1 then {at} else {}) + (if v >= 2 then {at + 1} else {})
  }

  /** What one breakpoint contributes: local enable at 2k, R/W at 16 + 4k, LEN at 18 + 4k. */
  function SlotBits(k: int, kind: Kind, length: int): Word
  {
    {2 * k} + TwoBits(ReadWriteBits(kind), 16 + 4 * k) + TwoBits(LengthBits(length), 18 + 4 * k)
  }

  /** The two-bit field of a word at a position. */
  function FieldAt(control: Word, at: int): int
  {
    (if at in control then 1 else 0) + (if at + 1 in control then 2 else 0)
  }

  datatype Meaning = Off | Io(width: int) | Watch(kind: Kind, width: int)

  /** The manual's reading of register k: enabled locally (2k) or globally (2k + 1), R/W and LEN fields. */
  function Decode(control: Word, k: int): Meaning
  {
    var rw, len := FieldAt(control, 16 + 4 * k), FieldAt(control, 18 + 4 * k);
    var width := if len == 0 then 1 else if len == 1 then 2 else if len == 2 then 8 else 4;
    if FieldAt(control, 2 * k) == 0 then Off
    else if rw == 0 then Watch(HardwareExecute, width)
    else if rw == 1 then Watch(HardwareWrite, width)
    else if rw == 2 then Io(width)
    else Watch(HardwareReadWrite, width)
  }

  /** The positions the word uses for register k. */
  predicate Owns(k: int, bit: int)
  {
    bit == 2 * k || 16 + 4 * k <= bit < 20 + 4 * k
  }

  ghost predicate Agree(control: Word, word: Word, k: int)
  {
    forall bit :: Owns(k, bit) ==> (bit in control <==> bit in word)
  }

  /** The word and the address registers hold exactly the breakpoints walked so far. */
  ghost predicate Programs(control: Word, addresses: seq<int>, breakpoints: map<int, Breakpoint>, done: set<int>)
  {
    && |addresses| == DEBUG_SLOT_COUNT
    && (forall bit :: bit in control ==> exists k :: 0 <= k < DEBUG_SLOT_COUNT && Owns(k, bit))
    && (forall a :: a in done && Hardware(breakpoints, a) && 0 <= breakpoints[a].slot < DEBUG_SLOT_COUNT ==>
          && addresses[breakpoints[a].slot] == a
          && Agree(control, SlotBits(breakpoints[a].slot, breakpoints[a].kind, breakpoints[a].length),
                   breakpoints[a].slot))
    && (forall k :: 0 <= k < DEBUG_SLOT_COUNT && HolderOf(breakpoints, k) !! done ==>
          addresses[k] == 0 && Agree(control, {}, k))
  }

  lemma DecodeAgrees(control: Word, k: int, kind: Kind, length: int)
    requires 0 <= k < DEBUG_SLOT_COUNT && !kind.Software? && ValidWatchLength(length)
    requires forall bit :: bit in control ==> exists j :: 0 <= j < DEBUG_SLOT_COUNT && Owns(j, bit)
    ensures Agree(control, SlotBits(k, kind, length), k) ==> Decode(control, k) == Watch(kind, length)
    ensures Agree(control, {}, k) ==> Decode(control, k) == Off
  {
    assert Owns(k, 2 * k) && Owns(k, 16 + 4 * k) && Owns(k, 17 + 4 * k) && Owns(k, 18 + 4 * k) && Owns(k, 19 + 4 * k);
    if 2 * k + 1 in control {
      var j :| 0 <= j < DEBUG_SLOT_COUNT && Owns(j, 2 * k + 1);
      assert false;
    }
  }

  lemma ProgramOne(control: Word, addresses: seq<int>, breakpoints: map<int, Breakpoint>, done: set<int>, a: int)
    requires SlotsSound(breakpoints) && Hardware(breakpoints, a) && a !in done && done <= breakpoints.Keys
    requires Programs(control, addresses, breakpoints, done)
    ensures var info := breakpoints[a];
            Programs(control + SlotBits(info.slot, info.kind, info.length), addresses[info.slot := a],
                     breakpoints, done + {a})
  {
    var info := breakpoints[a];
    var bits := SlotBits(info.slot, info.kind, info.length);
    var control', addresses' := control + bits, addresses[info.slot := a];
    assert forall bit :: bit in bits ==> Owns(info.slot, bit);
    assert forall bit, j :: 0 <= j < DEBUG_SLOT_COUNT && Owns(info.slot, bit) && Owns(j, bit) ==> j == info.slot;
    assert HolderOf(breakpoints, info.slot) !! done;
    assert a in HolderOf(breakpoints, info.slot);
    forall k | 0 <= k < DEBUG_SLOT_COUNT && HolderOf(breakpoints, k) !! done + {a}
      ensures addresses'[k] == 0 && Agree(control', {}, k)
    {
      assert HolderOf(breakpoints, k) !! done;
    }
    forall bit | bit in control'
      ensures exists k :: 0 <= k < DEBUG_SLOT_COUNT && Owns(k, bit)
    {
      if bit in bits { assert Owns(info.slot, bit); }
    }
  }

  lemma SkipOne(control: Word, addresses: seq<int>, breakpoints: map<int, Breakpoint>, done: set<int>, a: int)
    requires a in breakpoints && !Hardware(breakpoints, a)
    requires Programs(control, addresses, breakpoints, done)
    ensures Programs(control, addresses, breakpoints, done + {a})
  {
    forall k | HolderOf(breakpoints, k) !! done + {a}
      ensures HolderOf(breakpoints, k) !! done
    {
    }
  }

  /** The table walk of writeDebugRegisters, in whatever order the table yields its entries. */
  method WriteDebugRegisters(breakpoints: map<int, Breakpoint>) returns (control: Word, addresses: seq<int>)
    requires SlotsSound(breakpoints)
    ensures |addresses| == DEBUG_SLOT_COUNT
    ensures forall bit :: bit in control ==> exists k :: 0 <= k < DEBUG_SLOT_COUNT && Owns(k, bit)
    ensures forall k :: 0 <= k < DEBUG_SLOT_COUNT && !Taken(breakpoints, k) ==>
              addresses[k] == 0 && Decode(control, k) == Off
    ensures forall a :: Hardware(breakpoints, a) ==>
              && addresses[breakpoints[a].slot] == a
              && Decode(control, breakpoints[a].slot) == Watch(breakpoints[a].kind, breakpoints[a].length)
  {
    control := {};
    addresses := [0, 0, 0, 0];
    var rest := breakpoints.Keys;
    while rest != {}
      invariant rest <= breakpoints.Keys
      invariant Programs(control, addresses, breakpoints, breakpoints.Keys - rest)
      decreases rest
    {
      NoMember(rest);
      var a: int :| a in rest;
      ghost var done := breakpoints.Keys - rest;
      rest := rest - {a};
      assert breakpoints.Keys - rest == done + {a};
      var info := breakpoints[a];
      if info.kind.Software? || !info.enabled || info.slot < 0 || info.slot >= DEBUG_SLOT_COUNT {
        SkipOne(control, addresses, breakpoints, done, a);
      } else {
        ProgramOne(control, addresses, breakpoints, done, a);
        addresses := addresses[info.slot := a];
        control := control + SlotBits(info.slot, info.kind, info.length);
      }
    }
    assert breakpoints.Keys - rest == breakpoints.Keys;
    forall k | 0 <= k < DEBUG_SLOT_COUNT && !Taken(breakpoints, k)
      ensures addresses[k] == 0 && Decode(control, k) == Off
    {
      assert HolderOf(breakpoints, k) !! breakpoints.Keys;
      DecodeAgrees(control, k, HardwareWrite, 1);
    }
    forall a | Hardware(breakpoints, a)
      ensures Decode(control, breakpoints[a].slot) == Watch(breakpoints[a].kind, breakpoints[a].length)
    {
      DecodeAgrees(control, breakpoints[a].slot, breakpoints[a].kind, breakpoints[a].length);
    }
  }
}
