/**
 The patch registry as a state machine. An apply is four steps (reserve, read, write, record) with the
 lock dropped in between, so any number of them may be in flight at once; flights holds each one's locals.
 */
module PatchState {
  import opened Common

  datatype Patch = Patch(id: nat, address: int, original: seq<Byte>, patched: seq<Byte>, enabled: bool)

  datatype Reservation = Reservation(id: nat, address: int, size: nat)

  datatype Stage = Reserved | Read(original: seq<Byte>) | Written(original: seq<Byte>)

  datatype Flight = Flight(address: int, bytes: seq<Byte>, stage: Stage)

  datatype State = State(mem: Memory, patches: seq<Patch>, reserved: seq<Reservation>, nextId: nat,
                         flights: map<nat, Flight>)

  datatype Event =
    | Reserve(address: int, bytes: seq<Byte>)
    | ReadOriginal(id: nat, ok: bool)
    | WritePatch(id: nat, ok: bool)
    | Record(id: nat)
    | SetEnabled(id: nat, enabled: bool, ok: bool)
    | Remove(id: nat, ok: bool)
    | RestoreAll(refused: set<nat>)

  /** One past the range, in the 64-bit arithmetic of the source: it wraps at the top of the address space. */
  function EndOf(a: int, n: nat): int { (a + n) % TWO_TO_THE_64 }

  predicate RangesMeet(a: int, n: nat, b: int, m: nat)
  {
    a < EndOf(b, m) && b < EndOf(a, n)
  }

  predicate Overlaps(patches: seq<Patch>, reserved: seq<Reservation>, a: int, n: nat)
  {
    || (exists p | p in patches :: RangesMeet(a, n, p.address, |p.original|))
    || (exists r | r in reserved :: RangesMeet(a, n, r.address, r.size))
  }

  /** Memory with bytes over [a, a + |bytes|). */
  function Overwrite(mem: Memory, a: int, bytes: seq<Byte>): (after: Memory)
    ensures after.Keys == mem.Keys
    ensures forall x :: x in mem ==> after[x] == if a <= x < a + |bytes| then bytes[x - a] else mem[x]
  {
    map x | x in mem :: if a <= x < a + |bytes| then bytes[x - a] else mem[x]
  }

  /** A write of the target: all of it or, when it is refused or leaves mapped memory, none of it. */
  function TryWrite(mem: Memory, a: int, bytes: seq<Byte>, ok: bool): Option<Memory>
  {
    if ok && Mapped(mem, a, |bytes|) then Some(Overwrite(mem, a, bytes)) else None
  }

  /** The position of the patch with this id, if it is still recorded. */
  function Find(patches: seq<Patch>, id: nat): (found: Option<nat>)
    ensures found.Some? ==> found.value < |patches| && patches[found.value].id == id
    ensures found.None? ==> forall i :: 0 <= i < |patches| ==> patches[i].id != id
  {
    if patches == [] then None
    else if patches[0].id == id then Some(0)
    else match Find(patches[1..], id)
      case None => None
      case Some(i) => assert patches[1..][i] == patches[i + 1]; Some(i + 1)
  }

  function Without(patches: seq<Patch>, id: nat): (rest: seq<Patch>)
    ensures forall p :: p in rest <==> p in patches && p.id != id
  {
    if patches == [] then []
    else if patches[0].id == id then Without(patches[1..], id)
    else [patches[0]] + Without(patches[1..], id)
  }

  function Released(reserved: seq<Reservation>, id: nat): (rest: seq<Reservation>)
    ensures forall r :: r in rest <==> r in reserved && r.id != id
  {
    if reserved == [] then []
    else if reserved[0].id == id then Released(reserved[1..], id)
    else [reserved[0]] + Released(reserved[1..], id)
  }

  /** Any failure after the reservation gives the range back. */
  function Abandon(s: State, id: nat): State
  {
    s.(reserved := Released(s.reserved, id), flights := s.flights - {id})
  }

  function OnReserve(s: State, a: int, bytes: seq<Byte>): State
  {
    if bytes == [] || Overlaps(s.patches, s.reserved, a, |bytes|) then s
    else s.(reserved := s.reserved + [Reservation(s.nextId, a, |bytes|)], nextId := s.nextId + 1,
            flights := s.flights[s.nextId := Flight(a, bytes, Reserved)])
  }

  /** The originals are needed in full: a short read abandons the apply. */
  function OnRead(s: State, id: nat, ok: bool): State
  {
    if id !in s.flights || !s.flights[id].stage.Reserved? then s
    else
      var f := s.flights[id];
      if ok && Mapped(s.mem, f.address, |f.bytes|)
      then s.(flights := s.flights[id := f.(stage := Read(Slice(s.mem, f.address, |f.bytes|)))])
      else Abandon(s, id)
  }

  function OnWrite(s: State, id: nat, ok: bool): State
  {
    if id !in s.flights || !s.flights[id].stage.Read? then s
    else
      var f := s.flights[id];
      match TryWrite(s.mem, f.address, f.bytes, ok)
      case Some(mem) => s.(mem := mem, flights := s.flights[id := f.(stage := Written(f.stage.original))])
      case None => Abandon(s, id)
  }

  function OnRecord(s: State, id: nat): State
  {
    if id !in s.flights || !s.flights[id].stage.Written? then s
    else
      var f := s.flights[id];
      Abandon(s, id).(patches := s.patches + [Patch(id, f.address, f.stage.original, f.bytes, true)])
  }

  /** One whole apply with no other step in between: the id it was recorded under, if it was. */
  function ApplyPatch(s: State, a: int, bytes: seq<Byte>, readOk: bool, writeOk: bool): (State, Option<nat>)
  {
    if bytes == [] || Overlaps(s.patches, s.reserved, a, |bytes|) then (s, None)
    else
      var id := s.nextId;
      var read := OnRead(OnReserve(s, a, bytes), id, readOk);
      if id !in read.flights then (read, None)
      else
        var written := OnWrite(read, id, writeOk);
        if id !in written.flights then (written, None) else (OnRecord(written, id), Some(id))
  }

  /** The bytes a patch puts in memory in a given state. */
  function BytesOf(p: Patch, enabled: bool): seq<Byte> { if enabled then p.patched else p.original }

  function OnSetEnabled(s: State, id: nat, enabled: bool, ok: bool): (result: (State, bool))
  {
    match Find(s.patches, id)
    case None => (s, false)
    case Some(i) =>
      if s.patches[i].enabled == enabled then (s, true)
      else match TryWrite(s.mem, s.patches[i].address, BytesOf(s.patches[i], enabled), ok)
        case None => (s, false)
        case Some(mem) => (s.(mem := mem, patches := s.patches[i := s.patches[i].(enabled := enabled)]), true)
  }

  /** Restores, then forgets; a patch that could not be restored keeps its record. */
  function OnRemove(s: State, id: nat, ok: bool): (State, bool)
  {
    var (restored, done) := OnSetEnabled(s, id, false, ok);
    if done then (restored.(patches := Without(restored.patches, id)), true) else (s, false)
  }

  /** Disables the listed patches in order, continuing past those whose write is refused. */
  function DisableEach(s: State, ids: seq<nat>, refused: set<nat>): State
    decreases ids
  {
    if ids == [] then s
    else DisableEach(OnSetEnabled(s, ids[0], false, ids[0] !in refused).0, ids[1..], refused)
  }

  /** How many of them refuse. */
  function Refusals(s: State, ids: seq<nat>, refused: set<nat>): nat
    decreases ids
  {
    if ids == [] then 0
    else
      var (next, done) := OnSetEnabled(s, ids[0], false, ids[0] !in refused);
      (if done then 0 else 1) + Refusals(next, ids[1..], refused)
  }

  function EnabledIds(patches: seq<Patch>): (ids: seq<nat>)
    ensures forall id :: id in ids <==> exists p :: p in patches && p.enabled && p.id == id
  {
    if patches == [] then []
    else
      var rest := EnabledIds(patches[1..]);
      assert forall p :: p in patches <==> p == patches[0] || p in patches[1..];
      if patches[0].enabled then [patches[0].id] + rest else rest
  }

  function Apply(s: State, e: Event): State
  {
    match e
    case Reserve(a, bytes) => OnReserve(s, a, bytes)
    case ReadOriginal(id, ok) => OnRead(s, id, ok)
    case WritePatch(id, ok) => OnWrite(s, id, ok)
    case Record(id) => OnRecord(s, id)
    case SetEnabled(id, enabled, ok) => OnSetEnabled(s, id, enabled, ok).0
    case Remove(id, ok) => OnRemove(s, id, ok).0
    case RestoreAll(refused) => DisableEach(s, EnabledIds(s.patches), refused)
  }

  function Run(s: State, es: seq<Event>): State
    decreases es
  {
    if es == [] then s else Run(Apply(s, es[0]), es[1..])
  }

  function Fresh(base: Memory): State { State(base, [], [], 1, map[]) }
}
