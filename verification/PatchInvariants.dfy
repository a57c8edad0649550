/** Every recorded original is genuine, whatever the interleaving of applies in flight. */
module PatchInvariants {
  import opened Common
  import opened PatchState
  import opened PatchRanges

  /** Mapped addresses are user-mode ones, far below the point where 64-bit range ends wrap. */
  ghost predicate UserMemory(base: Memory)
  {
    forall x :: x in base ==> 0 <= x < TWO_TO_THE_63
  }

  /** The range is mapped and these were the target's own bytes there. */
  ghost predicate Genuine(base: Memory, a: int, original: seq<Byte>)
  {
    Mapped(base, a, |original|) && original == Slice(base, a, |original|)
  }

  ghost predicate PatchesSound(s: State, base: Memory)
  {
    && (forall p :: p in s.patches ==>
          0 < |p.original| == |p.patched| && Genuine(base, p.address, p.original)
          && p.id < s.nextId && p.id !in s.flights)
    && DistinctIds(s.patches)
    && (forall p, q :: p in s.patches && q in s.patches && p.id != q.id ==>
          Apart(p.address, |p.original|, q.address, |q.original|))
  }

  /** An apply in flight and another range, neither wrapping, share no byte. */
  predicate ClearOf(f: Flight, a: int, n: nat)
  {
    Fits(f.address, |f.bytes|) && Fits(a, n) ==> Apart(f.address, |f.bytes|, a, n)
  }

  ghost predicate FlightsSound(s: State, base: Memory)
  {
    && (forall id :: id in s.flights ==>
          var f := s.flights[id];
          && f.bytes != [] && id < s.nextId
          && Reservation(id, f.address, |f.bytes|) in s.reserved
          && (!f.stage.Reserved? ==> |f.stage.original| == |f.bytes| && Genuine(base, f.address, f.stage.original)))
    && (forall r :: r in s.reserved ==>
          r.id in s.flights && s.flights[r.id].address == r.address && |s.flights[r.id].bytes| == r.size)
    && (forall id, p :: id in s.flights && p in s.patches ==>
          ClearOf(s.flights[id], p.address, |p.original|))
    && (forall id, k :: id in s.flights && k in s.flights && id != k ==>
          ClearOf(s.flights[id], s.flights[k].address, |s.flights[k].bytes|))
  }

  predicate PutBy(a: int, bytes: seq<Byte>, x: int, value: Byte)
  {
    Within(x, a, |bytes|) && bytes[x - a] == value
  }

  /** An enabled patch, or an apply that has written and not yet recorded, puts this byte at x. */
  ghost predicate Puts(s: State, x: int, value: Byte)
  {
    || (exists p :: p in s.patches && p.enabled && PutBy(p.address, p.patched, x, value))
    || (exists id :: id in s.flights && s.flights[id].stage.Written?
          && PutBy(s.flights[id].address, s.flights[id].bytes, x, value))
  }

  ghost predicate Covered(s: State, x: int) { exists value :: Puts(s, x, value) }

  /** Memory is the base overlaid with exactly the enabled patches and the written, unrecorded applies. */
  ghost predicate Overlaid(s: State, base: Memory)
  {
    && s.mem.Keys == base.Keys
    && (forall x, value :: x in s.mem && Puts(s, x, value) ==> s.mem[x] == value)
    && (forall x :: x in s.mem && !Covered(s, x) ==> s.mem[x] == base[x])
  }

  ghost predicate Sound(s: State, base: Memory)
  {
    UserMemory(base) && PatchesSound(s, base) && FlightsSound(s, base) && Overlaid(s, base)
  }

  lemma GenuineFits(base: Memory, a: int, original: seq<Byte>)
    requires UserMemory(base) && Genuine(base, a, original) && original != []
    ensures Fits(a, |original|)
  {
    assert a in base && a + |original| - 1 in base;
  }

  lemma FreshIsSound(base: Memory)
    requires UserMemory(base)
    ensures Sound(Fresh(base), base)
  {
  }

  lemma ReserveSound(s: State, base: Memory, a: int, bytes: seq<Byte>)
    requires Sound(s, base)
    ensures Sound(OnReserve(s, a, bytes), base)
  {
    var s' := OnReserve(s, a, bytes);
    if s' != s {
      ReservePatches(s, base, a, bytes);
      ReserveFlights(s, base, a, bytes);
      SamePuts(s, s');
    }
  }

  lemma ReservePatches(s: State, base: Memory, a: int, bytes: seq<Byte>)
    requires Sound(s, base)
    ensures PatchesSound(OnReserve(s, a, bytes), base)
  {
  }

  lemma ReserveFlights(s: State, base: Memory, a: int, bytes: seq<Byte>)
    requires Sound(s, base) && OnReserve(s, a, bytes) != s
    ensures FlightsSound(OnReserve(s, a, bytes), base)
  {
    var s' := OnReserve(s, a, bytes);
    if Fits(a, |bytes|) {
      GrantedApart(s, base, a, |bytes|);
    }
    assert forall r :: r in s'.reserved <==> r in s.reserved || r == Reservation(s.nextId, a, |bytes|);
    assert s.nextId !in s.flights;
    assert forall p :: p in s.patches ==> ClearOf(s'.flights[s.nextId], p.address, |p.original|);
  }

  /** A granted range meets no recorded patch and no other reservation that does not wrap. */
  lemma GrantedApart(s: State, base: Memory, a: int, n: nat)
    requires Sound(s, base) && n > 0 && !Overlaps(s.patches, s.reserved, a, n) && Fits(a, n)
    ensures forall p :: p in s.patches ==> Apart(a, n, p.address, |p.original|)
    ensures forall id :: id in s.flights && Fits(s.flights[id].address, |s.flights[id].bytes|) ==>
              Apart(a, n, s.flights[id].address, |s.flights[id].bytes|)
  {
    forall p | p in s.patches
      ensures Apart(a, n, p.address, |p.original|)
    {
      GenuineFits(base, p.address, p.original);
      FittingRangesMeet(a, n, p.address, |p.original|);
    }
    forall id | id in s.flights && Fits(s.flights[id].address, |s.flights[id].bytes|)
      ensures Apart(a, n, s.flights[id].address, |s.flights[id].bytes|)
    {
      var r := Reservation(id, s.flights[id].address, |s.flights[id].bytes|);
      assert r in s.reserved;
      FittingRangesMeet(a, n, r.address, r.size);
    }
  }

  /** Steps that write nothing and change no enabled patch or written flight keep the overlay. */
  lemma SamePuts(s: State, s': State)
    requires forall p :: p in s.patches && p.enabled <==> p in s'.patches && p.enabled
    requires forall id :: id in s.flights && s.flights[id].stage.Written? ==>
               id in s'.flights && s'.flights[id] == s.flights[id]
    requires forall id :: id in s'.flights && s'.flights[id].stage.Written? ==>
               id in s.flights && s'.flights[id] == s.flights[id]
    ensures forall x, value :: Puts(s, x, value) <==> Puts(s', x, value)
    ensures forall x :: Covered(s, x) <==> Covered(s', x)
  {
    forall x, value
      ensures Puts(s, x, value) <==> Puts(s', x, value)
    {
    }
    SameCover(s, s');
  }

  lemma AbandonSound(s: State, base: Memory, id: nat)
    requires Sound(s, base) && id in s.flights && !s.flights[id].stage.Written?
    ensures Sound(Abandon(s, id), base)
  {
    SamePuts(s, Abandon(s, id));
  }

  lemma ReadTables(s: State, base: Memory, id: nat)
    requires Sound(s, base) && id in s.flights && s.flights[id].stage.Reserved?
    requires Mapped(s.mem, s.flights[id].address, |s.flights[id].bytes|)
    requires Genuine(base, s.flights[id].address, Slice(s.mem, s.flights[id].address, |s.flights[id].bytes|))
    ensures PatchesSound(OnRead(s, id, true), base) && FlightsSound(OnRead(s, id, true), base)
  {
  }

  lemma ReadFullySound(s: State, base: Memory, id: nat)
    requires Sound(s, base) && id in s.flights && s.flights[id].stage.Reserved?
    requires Mapped(s.mem, s.flights[id].address, |s.flights[id].bytes|)
    ensures Sound(OnRead(s, id, true), base)
  {
    UntouchedByOthers(s, base, id);
    ReadTables(s, base, id);
    SamePuts(s, OnRead(s, id, true));
  }

  lemma ReadSound(s: State, base: Memory, id: nat, ok: bool)
    requires Sound(s, base)
    ensures Sound(OnRead(s, id, ok), base)
  {
    if id in s.flights && s.flights[id].stage.Reserved? {
      if ok && Mapped(s.mem, s.flights[id].address, |s.flights[id].bytes|) {
        ReadFullySound(s, base, id);
      } else {
        AbandonSound(s, base, id);
      }
    }
  }

  /** The range an apply reserved still holds the target's own bytes until that apply writes. */
  lemma UntouchedByOthers(s: State, base: Memory, id: nat)
    requires Sound(s, base) && id in s.flights && !s.flights[id].stage.Written?
    requires Mapped(s.mem, s.flights[id].address, |s.flights[id].bytes|)
    ensures Genuine(base, s.flights[id].address, Slice(s.mem, s.flights[id].address, |s.flights[id].bytes|))
    ensures forall x :: Within(x, s.flights[id].address, |s.flights[id].bytes|) ==> !Covered(s, x)
  {
    var f := s.flights[id];
    assert f.address in base && f.address + |f.bytes| - 1 in base;
    forall x | Within(x, f.address, |f.bytes|)
      ensures !Covered(s, x) && x in base && s.mem[x] == base[x]
    {
      assert x in s.mem;
      if Covered(s, x) {
        var value :| Puts(s, x, value);
        NotPutByOthers(s, base, id, x, value);
      }
    }
    assert Slice(s.mem, f.address, |f.bytes|) == Slice(base, f.address, |f.bytes|);
  }

  lemma PatchApart(s: State, base: Memory, id: nat, p: Patch)
    requires Sound(s, base) && id in s.flights && p in s.patches
    requires Fits(s.flights[id].address, |s.flights[id].bytes|)
    ensures Apart(s.flights[id].address, |s.flights[id].bytes|, p.address, |p.original|)
  {
    GenuineFits(base, p.address, p.original);
    assert ClearOf(s.flights[id], p.address, |p.original|);
  }

  lemma WrittenFits(s: State, base: Memory, id: nat)
    requires Sound(s, base) && id in s.flights && !s.flights[id].stage.Reserved?
    ensures Fits(s.flights[id].address, |s.flights[id].bytes|)
  {
    GenuineFits(base, s.flights[id].address, s.flights[id].stage.original);
  }

  lemma NotPutByOthers(s: State, base: Memory, id: nat, x: int, value: Byte)
    requires Sound(s, base) && id in s.flights && !s.flights[id].stage.Written?
    requires Fits(s.flights[id].address, |s.flights[id].bytes|)
    requires Within(x, s.flights[id].address, |s.flights[id].bytes|)
    ensures !Puts(s, x, value)
  {
    forall p | p in s.patches
      ensures !Within(x, p.address, |p.patched|)
    {
      PatchApart(s, base, id, p);
    }
    forall k | k in s.flights && s.flights[k].stage.Written?
      ensures !Within(x, s.flights[k].address, |s.flights[k].bytes|)
    {
      WrittenFits(s, base, k);
      assert ClearOf(s.flights[id], s.flights[k].address, |s.flights[k].bytes|);
    }
  }

  lemma WriteSound(s: State, base: Memory, id: nat, ok: bool)
    requires Sound(s, base)
    ensures Sound(OnWrite(s, id, ok), base)
  {
    if id in s.flights && s.flights[id].stage.Read? {
      var f := s.flights[id];
      var s' := OnWrite(s, id, ok);
      if TryWrite(s.mem, f.address, f.bytes, ok).Some? {
        UntouchedByOthers(s, base, id);
        WriteOverlaid(s, base, id);
      } else {
        AbandonSound(s, base, id);
      }
    }
  }

  lemma WriteOverlaid(s: State, base: Memory, id: nat)
    requires Sound(s, base) && id in s.flights && s.flights[id].stage.Read?
    requires forall x :: Within(x, s.flights[id].address, |s.flights[id].bytes|) ==> !Covered(s, x)
    ensures var f := s.flights[id];
            Overlaid(s.(mem := Overwrite(s.mem, f.address, f.bytes),
                        flights := s.flights[id := f.(stage := Written(f.stage.original))]), base)
  {
    var f := s.flights[id];
    var s' := s.(mem := Overwrite(s.mem, f.address, f.bytes),
                 flights := s.flights[id := f.(stage := Written(f.stage.original))]);
    forall x, value
      ensures Puts(s', x, value) <==>
              Puts(s, x, value) || PutBy(f.address, f.bytes, x, value)
    {
      assert id in s'.flights && s'.flights[id].stage.Written?;
      assert forall k :: k in s.flights && k != id ==> k in s'.flights && s'.flights[k] == s.flights[k];
    }
    OverlaidAfterWrite(s, s', base, f.address, f.bytes);
  }

  /** Bytes laid over uncovered memory join the overlay. */
  lemma OverlaidAfterWrite(s: State, s': State, base: Memory, a: int, bytes: seq<Byte>)
    requires Overlaid(s, base) && s'.mem == Overwrite(s.mem, a, bytes)
    requires forall x :: Within(x, a, |bytes|) ==> !Covered(s, x)
    requires forall x, value :: Puts(s', x, value) <==>
               Puts(s, x, value) || PutBy(a, bytes, x, value)
    ensures Overlaid(s', base)
  {
    forall x
      ensures Covered(s', x) <==> Covered(s, x) || Within(x, a, |bytes|)
    {
      if Within(x, a, |bytes|) { assert Puts(s', x, bytes[x - a]); }
      if Covered(s, x) { var value :| Puts(s, x, value); assert Puts(s', x, value); }
      if Covered(s', x) && !Within(x, a, |bytes|) { var value :| Puts(s', x, value); assert Puts(s, x, value); }
    }
    forall x, value | x in s'.mem && Puts(s', x, value)
      ensures s'.mem[x] == value
    {
      assert Puts(s, x, value) ==> Covered(s, x);
    }
  }

  lemma RecordTables(s: State, base: Memory, id: nat)
    requires Sound(s, base) && id in s.flights && s.flights[id].stage.Written?
    ensures PatchesSound(OnRecord(s, id), base) && FlightsSound(OnRecord(s, id), base)
  {
    var f := s.flights[id];
    var s' := OnRecord(s, id);
    var patch := Patch(id, f.address, f.stage.original, f.bytes, true);
    WrittenFits(s, base, id);
    assert forall p :: p in s'.patches <==> p in s.patches || p == patch;
    forall p | p in s.patches
      ensures Apart(patch.address, |patch.original|, p.address, |p.original|)
    {
      PatchApart(s, base, id, p);
    }
    forall k | k in s'.flights
      ensures ClearOf(s'.flights[k], patch.address, |patch.original|)
    {
      assert ClearOf(s.flights[k], f.address, |f.bytes|);
    }
  }

  lemma RecordSound(s: State, base: Memory, id: nat)
    requires Sound(s, base)
    ensures Sound(OnRecord(s, id), base)
  {
    if id in s.flights && s.flights[id].stage.Written? {
      RecordTables(s, base, id);
      RecordPuts(s, id);
      SameCover(s, OnRecord(s, id));
    }
  }

  lemma SameCover(s: State, s': State)
    requires forall x, value :: Puts(s, x, value) <==> Puts(s', x, value)
    ensures forall x :: Covered(s, x) <==> Covered(s', x)
  {
    forall x
      ensures Covered(s, x) <==> Covered(s', x)
    {
      if Covered(s, x) { var value :| Puts(s, x, value); assert Puts(s', x, value); }
      if Covered(s', x) { var value :| Puts(s', x, value); assert Puts(s, x, value); }
    }
  }

  lemma RecordPuts(s: State, id: nat)
    requires id in s.flights && s.flights[id].stage.Written?
    ensures forall x, value :: Puts(s, x, value) <==> Puts(OnRecord(s, id), x, value)
  {
    var f := s.flights[id];
    var s' := OnRecord(s, id);
    var patch := Patch(id, f.address, f.stage.original, f.bytes, true);
    assert s'.patches == s.patches + [patch];
    assert patch in s'.patches;
    assert forall p :: p in s'.patches <==> p in s.patches || p == patch;
    assert forall k :: k in s'.flights <==> k in s.flights && k != id;
    forall x, value
      ensures Puts(s, x, value) <==> Puts(s', x, value)
    {
    }
  }

  lemma UniqueById(s: State, base: Memory, p: Patch, q: Patch)
    requires PatchesSound(s, base) && p in s.patches && q in s.patches && p.id == q.id
    ensures p == q
  {
    var i :| 0 <= i < |s.patches| && s.patches[i] == p;
    var j :| 0 <= j < |s.patches| && s.patches[j] == q;
  }

  lemma OthersApart(s: State, base: Memory, p: Patch, x: int)
    requires Sound(s, base) && p in s.patches && Within(x, p.address, |p.patched|)
    ensures forall q :: q in s.patches && q.id != p.id ==> !Within(x, q.address, |q.patched|)
    ensures forall k :: k in s.flights && s.flights[k].stage.Written? ==>
              !Within(x, s.flights[k].address, |s.flights[k].bytes|)
  {
    forall k | k in s.flights && s.flights[k].stage.Written?
      ensures !Within(x, s.flights[k].address, |s.flights[k].bytes|)
    {
      WrittenFits(s, base, k);
      PatchApart(s, base, k, p);
    }
  }

  function Toggled(s: State, i: nat, enabled: bool): State
    requires i < |s.patches| && |s.patches[i].original| == |s.patches[i].patched|
  {
    var p := s.patches[i];
    s.(mem := Overwrite(s.mem, p.address, BytesOf(p, enabled)), patches := s.patches[i := p.(enabled := enabled)])
  }

  lemma ToggledPatches(s: State, base: Memory, i: nat, enabled: bool)
    requires Sound(s, base) && i < |s.patches|
    ensures var p := s.patches[i];
            forall q :: q in Toggled(s, i, enabled).patches <==>
              (q in s.patches && q.id != p.id) || q == p.(enabled := enabled)
  {
    var p := s.patches[i];
    var after := Toggled(s, i, enabled).patches;
    assert after[i] == p.(enabled := enabled);
    forall q
      ensures q in after <==> (q in s.patches && q.id != p.id) || q == p.(enabled := enabled)
    {
      if q in s.patches && q.id != p.id {
        var j :| 0 <= j < |s.patches| && s.patches[j] == q;
        assert after[j] == q;
      }
      if q in after {
        var j :| 0 <= j < |after| && after[j] == q;
        assert j != i ==> s.patches[j] == q;
      }
    }
  }

  lemma ToggledPuts(s: State, base: Memory, i: nat, enabled: bool, x: int, value: Byte)
    requires Sound(s, base) && i < |s.patches|
    ensures var p := s.patches[i];
            Puts(Toggled(s, i, enabled), x, value) <==>
              if Within(x, p.address, |p.patched|) then enabled && value == p.patched[x - p.address]
              else Puts(s, x, value)
  {
    var p := s.patches[i];
    var s' := Toggled(s, i, enabled);
    ToggledPatches(s, base, i, enabled);
    assert p in s.patches && p.(enabled := enabled) in s'.patches;
    if Within(x, p.address, |p.patched|) {
      OthersApart(s, base, p, x);
    } else {
      forall q | q in s.patches && q.id == p.id
        ensures q == p
      {
        UniqueById(s, base, p, q);
      }
    }
  }

  lemma ToggledTables(s: State, base: Memory, i: nat, enabled: bool)
    requires Sound(s, base) && i < |s.patches|
    ensures PatchesSound(Toggled(s, i, enabled), base) && FlightsSound(Toggled(s, i, enabled), base)
  {
    var p := s.patches[i];
    assert p in s.patches;
    ToggledPatches(s, base, i, enabled);
  }

  /** What a toggled byte holds, from what each state puts there. */
  lemma OverlayAt(s: State, s': State, original: Byte, x: int, after: Option<Byte>, inRange: bool)
    requires x in s.mem && x in s'.mem
    requires forall value: Byte :: Puts(s', x, value) <==> if inRange then after == Some(value) else Puts(s, x, value)
    requires forall value :: Puts(s, x, value) ==> s.mem[x] == value
    requires !inRange ==> (Covered(s, x) || s.mem[x] == original) && s'.mem[x] == s.mem[x]
    requires inRange ==> s'.mem[x] == if after.Some? then after.value else original
    ensures forall value :: Puts(s', x, value) ==> s'.mem[x] == value
    ensures Covered(s', x) || s'.mem[x] == original
  {
    if inRange && after.Some? {
      assert Puts(s', x, after.value);
    } else if !inRange && Covered(s, x) {
      var value :| Puts(s, x, value);
      assert Puts(s', x, value);
    }
  }

  function Placed(p: Patch, enabled: bool, x: int): Option<Byte>
  {
    if Within(x, p.address, |p.patched|) && enabled then Some(p.patched[x - p.address]) else None
  }

  lemma ToggledByte(s: State, base: Memory, i: nat, enabled: bool, x: int)
    requires i < |s.patches| && x in s.mem && x in base
    requires var p := s.patches[i];
             |p.original| == |p.patched| && Genuine(base, p.address, p.original)
    ensures var p := s.patches[i];
            Toggled(s, i, enabled).mem[x]
            == if !Within(x, p.address, |p.patched|) then s.mem[x]
               else if enabled then p.patched[x - p.address] else base[x]
  {
  }

  lemma PatchAt(s: State, base: Memory, i: nat)
    requires PatchesSound(s, base) && i < |s.patches|
    ensures var p := s.patches[i];
            p in s.patches && 0 < |p.original| == |p.patched| && Genuine(base, p.address, p.original)
  {
  }

  lemma ToggledOverlaid(s: State, base: Memory, i: nat, enabled: bool, x: int)
    requires Sound(s, base) && i < |s.patches| && x in s.mem
    ensures var s' := Toggled(s, i, enabled);
            && (forall value :: Puts(s', x, value) ==> s'.mem[x] == value)
            && (Covered(s', x) || s'.mem[x] == base[x])
  {
    var p := s.patches[i];
    forall value: Byte
      ensures Puts(Toggled(s, i, enabled), x, value) <==>
              if Within(x, p.address, |p.patched|) then Placed(p, enabled, x) == Some(value) else Puts(s, x, value)
    {
      ToggledPuts(s, base, i, enabled, x, value);
    }
    PatchAt(s, base, i);
    ToggledByte(s, base, i, enabled, x);
    OverlayAt(s, Toggled(s, i, enabled), base[x], x, Placed(p, enabled, x), Within(x, p.address, |p.patched|));
  }

  lemma ToggledSound(s: State, base: Memory, i: nat, enabled: bool)
    requires Sound(s, base) && i < |s.patches|
    ensures Sound(Toggled(s, i, enabled), base)
  {
    ToggledTables(s, base, i, enabled);
    forall x | x in s.mem
      ensures var s' := Toggled(s, i, enabled);
              && (forall value :: Puts(s', x, value) ==> s'.mem[x] == value)
              && (Covered(s', x) || s'.mem[x] == base[x])
    {
      ToggledOverlaid(s, base, i, enabled, x);
    }
  }

  lemma SetEnabledSound(s: State, base: Memory, id: nat, enabled: bool, ok: bool)
    requires Sound(s, base)
    ensures Sound(OnSetEnabled(s, id, enabled, ok).0, base)
  {
    match Find(s.patches, id)
    case None =>
    case Some(i) =>
      assert s.patches[i] in s.patches;
      if OnSetEnabled(s, id, enabled, ok).0 != s {
        ToggledSound(s, base, i, enabled);
      }
  }

  ghost predicate DistinctIds(patches: seq<Patch>)
  {
    forall i, j :: 0 <= i < j < |patches| ==> patches[i].id != patches[j].id
  }

  lemma {:induction false} WithoutKeepsDistinct(patches: seq<Patch>, id: nat)
    requires DistinctIds(patches)
    ensures DistinctIds(Without(patches, id))
    decreases patches
  {
    if patches != [] {
      assert DistinctIds(patches[1..]);
      WithoutKeepsDistinct(patches[1..], id);
      var rest := Without(patches[1..], id);
      forall k | 0 <= k < |rest|
        ensures rest[k].id != patches[0].id
      {
        assert rest[k] in rest;
        var j :| 0 <= j < |patches[1..]| && patches[1..][j] == rest[k];
        assert patches[j + 1] == rest[k];
      }
    }
  }

  /** After a disable that reported success the patch is recorded as disabled or was not there. */
  lemma DisabledOnSuccess(s: State, base: Memory, id: nat, ok: bool)
    requires Sound(s, base) && OnSetEnabled(s, id, false, ok).1
    ensures forall p :: p in OnSetEnabled(s, id, false, ok).0.patches && p.id == id ==> !p.enabled
  {
    var s' := OnSetEnabled(s, id, false, ok).0;
    SetEnabledSound(s, base, id, false, ok);
    var i := Find(s.patches, id).value;
    assert s'.patches[i] in s'.patches && s'.patches[i].id == id && !s'.patches[i].enabled;
    forall p | p in s'.patches && p.id == id
      ensures !p.enabled
    {
      UniqueById(s', base, p, s'.patches[i]);
    }
  }

  lemma RemoveSound(s: State, base: Memory, id: nat, ok: bool)
    requires Sound(s, base)
    ensures Sound(OnRemove(s, id, ok).0, base)
  {
    var (restored, done) := OnSetEnabled(s, id, false, ok);
    if done {
      SetEnabledSound(s, base, id, false, ok);
      DisabledOnSuccess(s, base, id, ok);
      ForgetSound(restored, base, id);
    }
  }

  lemma ForgetSound(s: State, base: Memory, id: nat)
    requires Sound(s, base) && forall p :: p in s.patches && p.id == id ==> !p.enabled
    ensures Sound(s.(patches := Without(s.patches, id)), base)
  {
    WithoutKeepsDistinct(s.patches, id);
    SamePuts(s, s.(patches := Without(s.patches, id)));
  }

  lemma {:induction false} DisableEachSound(s: State, base: Memory, ids: seq<nat>, refused: set<nat>)
    requires Sound(s, base)
    ensures Sound(DisableEach(s, ids, refused), base)
    decreases ids
  {
    if ids != [] {
      SetEnabledSound(s, base, ids[0], false, ids[0] !in refused);
      DisableEachSound(OnSetEnabled(s, ids[0], false, ids[0] !in refused).0, base, ids[1..], refused);
    }
  }

  /** Every step of every caller keeps originals genuine, ranges apart and memory the exact overlay. */
  lemma StepSound(s: State, base: Memory, e: Event)
    requires Sound(s, base)
    ensures Sound(Apply(s, e), base)
  {
    match e
    case Reserve(a, bytes) => ReserveSound(s, base, a, bytes);
    case ReadOriginal(id, ok) => ReadSound(s, base, id, ok);
    case WritePatch(id, ok) => WriteSound(s, base, id, ok);
    case Record(id) => RecordSound(s, base, id);
    case SetEnabled(id, enabled, ok) => SetEnabledSound(s, base, id, enabled, ok);
    case Remove(id, ok) => RemoveSound(s, base, id, ok);
    case RestoreAll(refused) => DisableEachSound(s, base, EnabledIds(s.patches), refused);
  }

  lemma {:induction false} RunSound(s: State, base: Memory, es: seq<Event>)
    requires Sound(s, base)
    ensures Sound(Run(s, es), base)
    decreases es
  {
    if es != [] {
      StepSound(s, base, es[0]);
      RunSound(Apply(s, es[0]), base, es[1..]);
    }
  }

  /** Under any interleaving from a fresh registry every recorded original is what the target had there. */
  lemma OriginalsAreGenuine(base: Memory, es: seq<Event>)
    requires UserMemory(base)
    ensures var s := Run(Fresh(base), es);
            && (forall p :: p in s.patches ==> Genuine(base, p.address, p.original))
            && (forall p, q :: p in s.patches && q in s.patches && p.id != q.id ==>
                  Apart(p.address, |p.original|, q.address, |q.original|))
            && Overlaid(s, base)
  {
    FreshIsSound(base);
    RunSound(Fresh(base), base, es);
  }

  ghost predicate NoneWritten(s: State)
  {
    forall id :: id in s.flights ==> !s.flights[id].stage.Written?
  }

  /** A genuine patch's range is mapped, so disabling it fails only when Windows refuses the write. */
  lemma DisableSucceeds(s: State, base: Memory, id: nat, ok: bool)
    requires Sound(s, base)
    ensures OnSetEnabled(s, id, false, ok).1 <==>
            exists p :: p in s.patches && p.id == id && (ok || !p.enabled)
  {
    match Find(s.patches, id)
    case None =>
    case Some(i) =>
      PatchAt(s, base, i);
      forall p | p in s.patches && p.id == id
        ensures p == s.patches[i]
      {
        UniqueById(s, base, p, s.patches[i]);
      }
  }

  lemma DisableOne(s: State, base: Memory, id: nat, ok: bool)
    requires Sound(s, base)
    ensures var s' := OnSetEnabled(s, id, false, ok).0;
            && s'.flights == s.flights
            && forall p :: p in s'.patches && p.enabled ==> p in s.patches && (p.id == id ==> !ok)
  {
    var s' := OnSetEnabled(s, id, false, ok).0;
    if s' != s {
      ToggledPatches(s, base, Find(s.patches, id).value, false);
    } else {
      DisableSucceeds(s, base, id, ok);
      if OnSetEnabled(s, id, false, ok).1 { DisabledOnSuccess(s, base, id, ok); }
    }
  }

  /** Whatever is still enabled after a sweep was enabled before and either unlisted or refused. */
  lemma {:induction false} DisableEachLeaves(s: State, base: Memory, ids: seq<nat>, refused: set<nat>)
    requires Sound(s, base)
    ensures var s' := DisableEach(s, ids, refused);
            && s'.flights == s.flights
            && forall p :: p in s'.patches && p.enabled ==> p in s.patches && (p.id in ids ==> p.id in refused)
    decreases ids
  {
    if ids != [] {
      var s1 := OnSetEnabled(s, ids[0], false, ids[0] !in refused).0;
      SetEnabledSound(s, base, ids[0], false, ids[0] !in refused);
      DisableOne(s, base, ids[0], ids[0] !in refused);
      DisableEachLeaves(s1, base, ids[1..], refused);
    }
  }

  /** restoreAll: afterwards memory differs from the target's own only inside patches whose write was refused. */
  lemma RestoreAllRestores(s: State, base: Memory, refused: set<nat>)
    requires Sound(s, base) && NoneWritten(s)
    ensures var s' := Apply(s, RestoreAll(refused));
            && (forall x :: x in base && x in s'.mem && s'.mem[x] != base[x] ==>
                  exists p :: p in s.patches && p.enabled && p.id in refused && Within(x, p.address, |p.patched|))
            && ((forall p :: p in s.patches && p.enabled ==> p.id !in refused) ==> s'.mem == base)
  {
    var s' := Apply(s, RestoreAll(refused));
    DisableEachSound(s, base, EnabledIds(s.patches), refused);
    DisableEachLeaves(s, base, EnabledIds(s.patches), refused);
    forall x | x in base && s'.mem[x] != base[x]
      ensures exists p :: p in s.patches && p.enabled && p.id in refused && Within(x, p.address, |p.patched|)
    {
      assert Covered(s', x);
      var value :| Puts(s', x, value);
      var p :| p in s'.patches && p.enabled && PutBy(p.address, p.patched, x, value);
      assert p.id in EnabledIds(s.patches);
    }
  }

  /** Every listed id, once each, is that of an enabled patch. */
  ghost predicate ListsEnabled(patches: seq<Patch>, ids: seq<nat>)
  {
    && (forall i, j :: 0 <= i < j < |ids| ==> ids[i] != ids[j])
    && forall id :: id in ids ==> id in EnabledIds(patches)
  }

  lemma {:induction false} EnabledIdsOnce(patches: seq<Patch>)
    requires DistinctIds(patches)
    ensures ListsEnabled(patches, EnabledIds(patches))
    decreases patches
  {
    if patches != [] {
      EnabledIdsOnce(patches[1..]);
      var rest := EnabledIds(patches[1..]);
      forall k | 0 <= k < |rest| ensures rest[k] != patches[0].id {
        assert rest[k] in rest;
      }
    }
  }

  lemma {:induction false} DisablingLeavesOneLess(patches: seq<Patch>, i: nat)
    requires i < |patches| && patches[i].enabled
    ensures |EnabledIds(patches[i := patches[i].(enabled := false)])| + 1 == |EnabledIds(patches)|
    decreases patches
  {
    var after := patches[i := patches[i].(enabled := false)];
    if i == 0 {
      assert after[1..] == patches[1..];
    } else {
      assert after[1..] == patches[1..][i - 1 := patches[i].(enabled := false)];
      DisablingLeavesOneLess(patches[1..], i - 1);
    }
  }

  /** One disable of an enabled patch: it goes through and leaves one less, or nothing changes. */
  lemma DisableListed(s: State, ids: seq<nat>, ok: bool)
    requires DistinctIds(s.patches) && ids != [] && ListsEnabled(s.patches, ids)
    ensures var (s', done) := OnSetEnabled(s, ids[0], false, ok);
            && DistinctIds(s'.patches) && ListsEnabled(s'.patches, ids[1..])
            && |EnabledIds(s'.patches)| + (if done then 1 else 0) == |EnabledIds(s.patches)|
  {
    var (s', done) := OnSetEnabled(s, ids[0], false, ok);
    assert ids[0] in EnabledIds(s.patches);
    var i := Find(s.patches, ids[0]).value;
    assert s.patches[i].enabled;
    if done { DisablingLeavesOneLess(s.patches, i); }
    forall id | id in ids[1..] ensures id in EnabledIds(s'.patches) {
      assert id in ids && id != ids[0];
      var p :| p in s.patches && p.enabled && p.id == id;
      var k :| 0 <= k < |s.patches| && s.patches[k] == p;
      assert s'.patches[k] == p;
    }
  }

  lemma {:induction false} RefusalsLeft(s: State, ids: seq<nat>, refused: set<nat>)
    requires DistinctIds(s.patches) && ListsEnabled(s.patches, ids)
    ensures |EnabledIds(DisableEach(s, ids, refused).patches)| + |ids|
            == |EnabledIds(s.patches)| + Refusals(s, ids, refused)
    decreases ids
  {
    if ids != [] {
      DisableListed(s, ids, ids[0] !in refused);
      RefusalsLeft(OnSetEnabled(s, ids[0], false, ids[0] !in refused).0, ids[1..], refused);
    }
  }

  /** Restore all reports as many failures as patches it leaves enabled, so success means none is. */
  lemma FailuresAreLeftEnabled(s: State, base: Memory, refused: set<nat>)
    requires Sound(s, base)
    ensures Refusals(s, EnabledIds(s.patches), refused) == |EnabledIds(Apply(s, RestoreAll(refused)).patches)|
    ensures Refusals(s, EnabledIds(s.patches), refused) == 0 <==>
            forall p :: p in Apply(s, RestoreAll(refused)).patches ==> !p.enabled
  {
    EnabledIdsOnce(s.patches);
    RefusalsLeft(s, EnabledIds(s.patches), refused);
    var after := Apply(s, RestoreAll(refused)).patches;
    if EnabledIds(after) != [] {
      assert EnabledIds(after)[0] in EnabledIds(after);
    }
    forall p | p in after && p.enabled ensures EnabledIds(after) != [] {
      assert p.id in EnabledIds(after);
    }
  }

  /** Two sound registries over one target that put the same bytes hold the same memory. */
  lemma OverlayDeterminesMemory(s: State, t: State, base: Memory)
    requires Overlaid(s, base) && Overlaid(t, base)
    requires forall x, value :: Puts(s, x, value) <==> Puts(t, x, value)
    ensures s.mem == t.mem
  {
    SameCover(s, t);
    forall x | x in base
      ensures s.mem[x] == t.mem[x]
    {
      if Covered(s, x) {
        var value :| Puts(s, x, value);
        assert Puts(t, x, value);
      }
    }
  }
}
