/** The registry itself: its vectors, its counter and the target it writes, one method per critical section. */
module PatchRegistry {
  import opened Common
  import opened PatchState

  class Registry {
    var target: Memory
    var patches: seq<Patch>
    var reserved: seq<Reservation>
    var nextId: nat
    // The locals of each apply between its critical sections.
    var flights: map<nat, Flight>

    function Now(): State
      reads this
    {
      State(target, patches, reserved, nextId, flights)
    }

    constructor (base: Memory)
      ensures Now() == Fresh(base)
    {
      target, patches, reserved, nextId, flights := base, [], [], 1, map[];
    }

    method OverlapsLocked(a: int, n: nat) returns (taken: bool)
      ensures taken == Overlaps(patches, reserved, a, n)
    {
      for i := 0 to |patches|
        invariant forall k :: 0 <= k < i ==> !RangesMeet(a, n, patches[k].address, |patches[k].original|)
      {
        if RangesMeet(a, n, patches[i].address, |patches[i].original|) {
          assert patches[i] in patches;
          return true;
        }
      }
      for i := 0 to |reserved|
        invariant forall k :: 0 <= k < i ==> !RangesMeet(a, n, reserved[k].address, reserved[k].size)
      {
        if RangesMeet(a, n, reserved[i].address, reserved[i].size) {
          assert reserved[i] in reserved;
          return true;
        }
      }
      return false;
    }

    method ReleaseLocked(id: nat)
      modifies this`reserved
      ensures reserved == Released(old(reserved), id)
    {
      var kept := [];
      for i := 0 to |reserved|
        invariant kept + Released(reserved[i..], id) == Released(reserved, id)
      {
        assert reserved[i..] == [reserved[i]] + reserved[i + 1..];
        if reserved[i].id != id {
          kept := kept + [reserved[i]];
        }
      }
      reserved := kept;
    }

    method BeginApply(a: int, bytes: seq<Byte>) returns (id: Option<nat>)
      modifies this
      ensures Now() == OnReserve(old(Now()), a, bytes)
      ensures id.Some? <==> bytes != [] && !Overlaps(old(patches), old(reserved), a, |bytes|)
      ensures id.Some? ==> id.value == old(nextId)
    {
      if bytes == [] {
        return None;
      }
      var taken := OverlapsLocked(a, |bytes|);
      if taken {
        return None;
      }
      id := Some(nextId);
      reserved := reserved + [Reservation(nextId, a, |bytes|)];
      flights := flights[nextId := Flight(a, bytes, Reserved)];
      nextId := nextId + 1;
    }

    method Give(id: nat)
      modifies this`reserved, this`flights
      ensures Now() == Abandon(old(Now()), id)
    {
      ReleaseLocked(id);
      flights := flights - {id};
    }

    method ReadStep(id: nat, ok: bool)
      requires id in flights && flights[id].stage.Reserved?
      modifies this
      ensures Now() == OnRead(old(Now()), id, ok)
    {
      var f := flights[id];
      if ok && Mapped(target, f.address, |f.bytes|) {
        flights := flights[id := f.(stage := Read(Slice(target, f.address, |f.bytes|)))];
      } else {
        Give(id);
      }
    }

    method WriteStep(id: nat, ok: bool)
      requires id in flights && flights[id].stage.Read?
      modifies this
      ensures Now() == OnWrite(old(Now()), id, ok)
    {
      var f := flights[id];
      match TryWrite(target, f.address, f.bytes, ok)
      case Some(mem) =>
        target := mem;
        flights := flights[id := f.(stage := Written(f.stage.original))];
      case None =>
        Give(id);
    }

    method RecordStep(id: nat)
      requires id in flights && flights[id].stage.Written?
      modifies this
      ensures Now() == OnRecord(old(Now()), id)
    {
      var f := flights[id];
      Give(id);
      patches := patches + [Patch(id, f.address, f.stage.original, f.bytes, true)];
    }

    /** All four sections of one apply with nothing in between. */
    method ApplyAlone(a: int, bytes: seq<Byte>, readOk: bool, writeOk: bool) returns (id: Option<nat>)
      modifies this
      ensures (Now(), id) == ApplyPatch(old(Now()), a, bytes, readOk, writeOk)
    {
      id := BeginApply(a, bytes);
      if id.Some? {
        ReadStep(id.value, readOk);
        if id.value !in flights {
          return None;
        }
        WriteStep(id.value, writeOk);
        if id.value !in flights {
          return None;
        }
        RecordStep(id.value);
      }
    }

    /** A write of the target that the registry does not record. */
    method WriteTarget(a: int, bytes: seq<Byte>, ok: bool) returns (done: bool)
      modifies this`target
      ensures match TryWrite(old(target), a, bytes, ok)
              case None => !done && target == old(target)
              case Some(mem) => done && target == mem
    {
      match TryWrite(target, a, bytes, ok)
      case None => return false;
      case Some(mem) =>
        target := mem;
        return true;
    }

    method FindPatch(id: nat) returns (found: Option<nat>)
      ensures found == Find(patches, id)
    {
      for i := 0 to |patches|
        invariant match Find(patches[i..], id)
                  case None => Find(patches, id) == None
                  case Some(k) => Find(patches, id) == Some(i + k)
      {
        assert patches[i..][0] == patches[i] && patches[i..][1..] == patches[i + 1..];
        if patches[i].id == id {
          return Some(i);
        }
      }
      return None;
    }

    method EnablePatch(id: nat, enabled: bool, ok: bool) returns (done: bool)
      modifies this
      ensures (Now(), done) == OnSetEnabled(old(Now()), id, enabled, ok)
    {
      var found := FindPatch(id);
      match found
      case None => return false;
      case Some(i) =>
        if patches[i].enabled == enabled {
          return true;
        }
        match TryWrite(target, patches[i].address, BytesOf(patches[i], enabled), ok)
        case None => return false;
        case Some(mem) =>
          target := mem;
          patches := patches[i := patches[i].(enabled := enabled)];
          return true;
    }

    method Forget(id: nat)
      modifies this`patches
      ensures patches == Without(old(patches), id)
    {
      var kept := [];
      for i := 0 to |patches|
        invariant kept + Without(patches[i..], id) == Without(patches, id)
      {
        assert patches[i..] == [patches[i]] + patches[i + 1..];
        if patches[i].id != id {
          kept := kept + [patches[i]];
        }
      }
      assert patches[|patches|..] == [] && kept + [] == kept;
      patches := kept;
    }

    method RemovePatch(id: nat, ok: bool) returns (done: bool)
      modifies this
      ensures (Now(), done) == OnRemove(old(Now()), id, ok)
    {
      done := EnablePatch(id, false, ok);
      if done {
        Forget(id);
      }
    }

    /** Lists the enabled patches, then disables each in turn, counting the writes that were refused. */
    method RestoreEverything(refused: set<nat>) returns (failures: nat)
      modifies this
      ensures Now() == Apply(old(Now()), RestoreAll(refused))
      ensures failures == Refusals(old(Now()), EnabledIds(old(patches)), refused)
    {
      var enabled: seq<nat> := [];
      for i := 0 to |patches|
        invariant enabled + EnabledIds(patches[i..]) == EnabledIds(patches)
      {
        assert patches[i..] == [patches[i]] + patches[i + 1..];
        if patches[i].enabled {
          enabled := enabled + [patches[i].id];
        }
      }
      assert patches[|patches|..] == [] && enabled + [] == enabled;
      failures := 0;
      assert enabled[0..] == enabled;
      for i := 0 to |enabled|
        invariant DisableEach(Now(), enabled[i..], refused) == DisableEach(old(Now()), enabled, refused)
        invariant failures + Refusals(Now(), enabled[i..], refused) == Refusals(old(Now()), enabled, refused)
      {
        assert enabled[i..][0] == enabled[i] && enabled[i..][1..] == enabled[i + 1..];
        var done := EnablePatch(enabled[i], false, enabled[i] !in refused);
        if !done {
          failures := failures + 1;
        }
      }
    }
  }
}
