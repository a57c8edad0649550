/** Switching a patch on and off, and removing it: what is reported, and what memory and the record then hold. */
module PatchSwitch {
  import opened Common
  import opened PatchState
  import opened PatchRanges
  import opened PatchInvariants

  /** Memory over the patch's range holds its replacement when it is enabled, and the target's own bytes when not. */
  ghost predicate HoldsItsBytes(s: State, p: Patch)
  {
    forall k :: 0 <= k < |p.original| ==> ByteHeld(s, p, k)
  }

  predicate ByteHeld(s: State, p: Patch, k: nat)
    requires k < |p.original|
  {
    && |p.patched| == |p.original| && p.address + k in s.mem
    && s.mem[p.address + k] == if p.enabled then p.patched[k] else p.original[k]
  }

  /** In every sound state each record says what memory holds. */
  lemma RecordsHold(s: State, base: Memory, p: Patch)
    requires Sound(s, base) && p in s.patches
    ensures HoldsItsBytes(s, p)
  {
    forall k: nat | k < |p.original| ensures ByteHeld(s, p, k) {
      var x := p.address + k;
      assert x in base && p.original[k] == base[x];
      if p.enabled {
        assert Puts(s, x, p.patched[k]);
      } else {
        OthersApart(s, base, p, x);
        forall value: Byte ensures !Puts(s, x, value) {
          forall q | q in s.patches && q.enabled ensures !PutBy(q.address, q.patched, x, value) {
            if q.id == p.id { UniqueById(s, base, p, q); }
          }
        }
      }
    }
  }

  /** The state after a switch: this record has the flag asked for, the others and the rest of memory are untouched. */
  ghost predicate SwitchedOnly(s: State, t: State, p: Patch, enabled: bool)
  {
    && p.(enabled := enabled) in t.patches && HoldsItsBytes(t, p.(enabled := enabled))
    && |t.patches| == |s.patches| && (forall q :: q in s.patches && q.id != p.id ==> q in t.patches)
    && t.mem.Keys == s.mem.Keys
    && (forall x :: x in s.mem && !Within(x, p.address, |p.original|) ==> t.mem[x] == s.mem[x])
    && t.reserved == s.reserved && t.flights == s.flights && t.nextId == s.nextId
  }

  lemma FindRecorded(s: State, base: Memory, p: Patch) returns (i: nat)
    requires PatchesSound(s, base) && p in s.patches
    ensures Find(s.patches, p.id) == Some(i) && i < |s.patches| && s.patches[i] == p
  {
    var k :| 0 <= k < |s.patches| && s.patches[k] == p;
    i := Find(s.patches, p.id).value;
  }

  /**
   Enabling or disabling a recorded patch succeeds exactly when it already is so or the write goes through. Success
   leaves the record as asked and memory with the bytes that go with it; failure leaves everything as it was.
   */
  lemma SwitchExactly(s: State, base: Memory, p: Patch, enabled: bool, ok: bool)
    requires Sound(s, base) && p in s.patches
    ensures var (t, done) := OnSetEnabled(s, p.id, enabled, ok);
            && (done <==> p.enabled == enabled || ok)
            && (if done then SwitchedOnly(s, t, p, enabled) else t == s)
  {
    var (t, done) := OnSetEnabled(s, p.id, enabled, ok);
    var i := FindRecorded(s, base, p);
    if p.enabled == enabled {
      RecordsHold(s, base, p);
      assert p == p.(enabled := enabled);
    } else if done {
      SetEnabledSound(s, base, p.id, enabled, ok);
      assert t.patches[i] == p.(enabled := enabled);
      RecordsHold(t, base, p.(enabled := enabled));
      forall q | q in s.patches && q.id != p.id ensures q in t.patches {
        var k :| 0 <= k < |s.patches| && s.patches[k] == q;
        assert t.patches[k] == q;
      }
    }
  }

  /** An id that is not recorded is refused. */
  lemma UnknownIsRefused(s: State, id: nat, enabled: bool, ok: bool)
    requires forall p :: p in s.patches ==> p.id != id
    ensures OnSetEnabled(s, id, enabled, ok) == (s, false) && OnRemove(s, id, ok) == (s, false)
  {
  }

  /** Disabling and enabling again is as if nothing had happened. */
  lemma SwitchBack(s: State, base: Memory, p: Patch)
    requires Sound(s, base) && p in s.patches
    ensures var off := OnSetEnabled(s, p.id, !p.enabled, true).0;
            OnSetEnabled(off, p.id, p.enabled, true).0 == s
  {
    var off := OnSetEnabled(s, p.id, !p.enabled, true).0;
    var on := OnSetEnabled(off, p.id, p.enabled, true).0;
    var i := FindRecorded(s, base, p);
    var q := p.(enabled := !p.enabled);
    SwitchExactly(s, base, p, !p.enabled, true);
    SetEnabledSound(s, base, p.id, !p.enabled, true);
    var j := FindRecorded(off, base, q);
    assert off.patches == s.patches[i := q];
    SwitchExactly(off, base, q, p.enabled, true);
    assert on.patches == off.patches[j := p];
    SameBytes(s, base, off, on, p);
  }

  lemma SameBytes(s: State, base: Memory, off: State, on: State, p: Patch)
    requires Sound(s, base) && p in s.patches
    requires HoldsItsBytes(on, p) && s.mem.Keys == off.mem.Keys == on.mem.Keys
    requires forall x :: x in s.mem && !Within(x, p.address, |p.original|) ==> off.mem[x] == s.mem[x]
    requires forall x :: x in off.mem && !Within(x, p.address, |p.original|) ==> on.mem[x] == off.mem[x]
    ensures on.mem == s.mem
  {
    RecordsHold(s, base, p);
    forall x | x in s.mem ensures on.mem[x] == s.mem[x] {
      if Within(x, p.address, |p.original|) {
        assert ByteHeld(s, p, x - p.address) && ByteHeld(on, p, x - p.address);
      }
    }
  }

  lemma SameOthers(s: State, base: Memory, p: Patch, ok: bool, q: Patch)
    requires Sound(s, base) && p in s.patches && q.id != p.id
    ensures q in OnSetEnabled(s, p.id, false, ok).0.patches <==> q in s.patches
  {
    var off := OnSetEnabled(s, p.id, false, ok).0;
    SwitchExactly(s, base, p, false, ok);
    if q in off.patches {
      var i := FindRecorded(s, base, p);
      var k :| 0 <= k < |off.patches| && off.patches[k] == q;
      assert s.patches[k] == q;
    }
  }

  /** Only this record is gone, and memory over its range holds the target's own bytes. */
  ghost predicate RemovedOnly(s: State, t: State, p: Patch)
  {
    && (forall q :: q in t.patches <==> q in s.patches && q.id != p.id)
    && HoldsItsBytes(t, p.(enabled := false)) && t.mem.Keys == s.mem.Keys
    && forall x :: x in s.mem && !Within(x, p.address, |p.original|) ==> t.mem[x] == s.mem[x]
  }

  lemma ForgetRemoves(s: State, off: State, p: Patch)
    requires SwitchedOnly(s, off, p, false)
    requires forall q: Patch :: q.id != p.id ==> (q in off.patches <==> q in s.patches)
    ensures RemovedOnly(s, off.(patches := Without(off.patches, p.id)), p)
  {
    var t := off.(patches := Without(off.patches, p.id));
    forall k: nat | k < |p.original| ensures ByteHeld(t, p.(enabled := false), k) {
      assert ByteHeld(off, p.(enabled := false), k);
    }
  }

  /** Removal succeeds exactly when disabling does; then the patch is forgotten, else nothing changes. */
  lemma RemoveExactly(s: State, base: Memory, p: Patch, ok: bool)
    requires Sound(s, base) && p in s.patches
    ensures var (t, done) := OnRemove(s, p.id, ok);
            (done <==> !p.enabled || ok) && if done then RemovedOnly(s, t, p) else t == s
  {
    SwitchExactly(s, base, p, false, ok);
    if OnSetEnabled(s, p.id, false, ok).1 {
      forall q: Patch | q.id != p.id
        ensures q in OnSetEnabled(s, p.id, false, ok).0.patches <==> q in s.patches
      {
        SameOthers(s, base, p, ok, q);
      }
      ForgetRemoves(s, OnSetEnabled(s, p.id, false, ok).0, p);
    }
  }
}
