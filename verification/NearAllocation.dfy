/**
 Placing a block within reach of a five-byte jump. The search asks the target for its free regions and offers
 it one aligned slot after another inside them; it is proved to find what offering every slot would find.
 Addresses are 64-bit and their arithmetic wraps. The target does not change during one search.
 */
module NearAllocation {
  import opened Common

  const GRANULARITY := 0x1_0000
  const REACH := 0x7FF0_0000
  const USER_LIMIT := 0x8000_0000_0000
  const ADDRESS_MAX := TWO_TO_THE_64 - 1
  const MEBIBYTE := 0x10_0000

  datatype Region = Region(base: int, size: int, free: bool)

  // What the target answers to a query and to a request for memory; a request at zero lets it choose.
  datatype Target = Target(query: int -> Option<Region>, grant: int -> Option<int>)

  function End(r: Region): int { r.base + r.size }

  predicate ReportsHere(t: Target, a: int)
  {
    var r := t.query(a);
    r.Some? ==> 0 <= r.value.base <= a < End(r.value) <= USER_LIMIT
  }

  predicate SameRegion(t: Target, a: int, b: int)
  {
    t.query(a).Some? && t.query(a).value.base <= b < End(t.query(a).value) ==> t.query(b) == t.query(a)
  }

  predicate EndsAt(t: Target, a: int, b: int)
  {
    0 <= a <= b && t.query(a).None? ==> t.query(b).None?
  }

  predicate GrantedInPlace(t: Target, c: int)
  {
    c != 0 && t.grant(c).Some? ==> t.grant(c).value == c
  }

  /** Regions tile the user half from the bottom, and a slot that is granted is granted where it was asked for. */
  ghost predicate Consistent(t: Target)
  {
    && (forall a :: ReportsHere(t, a))
    && (forall a, b :: SameRegion(t, a, b))
    && (forall a, b :: EndsAt(t, a, b))
    && (forall c :: GrantedInPlace(t, c))
  }

  function Wrap(a: int): int { a % TWO_TO_THE_64 }

  function AlignUp(a: int): int
  {
    var w := Wrap(a + GRANULARITY - 1);
    w - w % GRANULARITY
  }

  /** Below the last granule, rounding up is rounding up. */
  lemma AlignUpRounds(a: int)
    requires 0 <= a <= TWO_TO_THE_64 - GRANULARITY
    ensures a <= AlignUp(a) < a + GRANULARITY && AlignUp(a) % GRANULARITY == 0
    ensures forall c :: a <= c && c % GRANULARITY == 0 ==> AlignUp(a) <= c
    ensures a % GRANULARITY == 0 ==> AlignUp(a) == a
  {
  }

  lemma AlignUpIsAligned(a: int)
    ensures 0 <= AlignUp(a) <= ADDRESS_MAX && AlignUp(a) % GRANULARITY == 0
    ensures TWO_TO_THE_64 - GRANULARITY < a < TWO_TO_THE_64 ==> AlignUp(a) == 0
  {
  }

  function Low(hint: int): int { if hint > REACH then hint - REACH else 0 }

  function High(hint: int): int { if hint > ADDRESS_MAX - REACH then ADDRESS_MAX else hint + REACH }

  /** A slot at c lies inside a free region. */
  predicate Free(t: Target, c: int, size: int)
  {
    var r := t.query(c);
    r.Some? && r.value.free && c + size <= End(r.value)
  }

  /** Offering every aligned slot of [c, limit) in turn. */
  function Probe(t: Target, c: int, limit: int, size: int): Option<int>
    decreases limit - c
  {
    if c >= limit then None
    else if Free(t, c, size) && t.grant(c).Some? then t.grant(c)
    else Probe(t, c + GRANULARITY, limit, size)
  }

  /** For every hint that rounding up does not wrap: upwards from it, then upwards from the lowest reachable address. */
  function Nearest(t: Target, hint: int, size: int): Option<int>
  {
    if hint == 0 then t.grant(0)
    else
      var above := Probe(t, AlignUp(hint), High(hint), size);
      if above.Some? then above else Probe(t, AlignUp(Low(hint)), hint, size)
  }

  /** The slots of one region, from c on. */
  function ProbeRegion(t: Target, r: Region, c: int, limit: int, size: int): Option<int>
    decreases limit - c
  {
    if c >= limit || c + size > End(r) then None
    else if t.grant(c).Some? then t.grant(c)
    else ProbeRegion(t, r, c + GRANULARITY, limit, size)
  }

  /** The walk over the target's regions: the slots of each free one, then on to its end. */
  function Walk(t: Target, from: int, address: int, limit: int, size: int): Option<int>
    decreases limit - address
  {
    if address >= limit then None
    else match t.query(address)
      case None => None
      case Some(r) =>
        var offered := if r.free then ProbeRegion(t, r, AlignUp(Max(r.base, from)), limit, size) else None;
        if offered.Some? then offered
        else if End(r) <= address then None
        else Walk(t, from, End(r), limit, size)
  }

  /** The two walks of a whole search, for any hint. */
  function Found(t: Target, hint: int, size: int): Option<int>
  {
    if hint == 0 then t.grant(0)
    else
      var above := Walk(t, hint, AlignUp(hint), High(hint), size);
      if above.Some? then above else Walk(t, Low(hint), AlignUp(Low(hint)), hint, size)
  }

  /** A size that fits, and one for which nothing is granted when there is nothing to grant. */
  ghost predicate Serves(t: Target, size: int)
  {
    0 <= size <= ADDRESS_MAX && (size == 0 ==> forall c :: t.grant(c).None?)
  }

  /** The region r, as the target reports it from every address in it. */
  ghost predicate Reported(t: Target, r: Region)
  {
    0 <= r.base < End(r) <= USER_LIMIT && forall x :: r.base <= x < End(r) ==> t.query(x) == Some(r)
  }

  lemma FirstSlotPast(c: int, end: int)
    requires 0 <= end <= TWO_TO_THE_64 - GRANULARITY && c % GRANULARITY == 0 && end <= c < end + GRANULARITY
    ensures c == AlignUp(end)
  {
    AlignUpRounds(end);
  }

  lemma FreeInRegion(t: Target, r: Region, c: int, size: int)
    requires Reported(t, r) && r.base <= c < End(r)
    ensures Free(t, c, size) <==> r.free && c + size <= End(r)
  {
  }

  /** One slot further, probing and probing the region take the same step. */
  lemma ProbeStep(t: Target, r: Region, c: int, limit: int, size: int)
    requires Reported(t, r) && r.base <= c < End(r) && c < limit
    ensures Probe(t, c, limit, size)
            == if r.free && c + size <= End(r) && t.grant(c).Some? then t.grant(c)
               else Probe(t, c + GRANULARITY, limit, size)
  {
    FreeInRegion(t, r, c, size);
  }

  lemma {:induction false} RegionEnds(t: Target, r: Region, c: int, limit: int, size: int)
    requires c + size > End(r)
    ensures ProbeRegion(t, r, c, limit, size).None?
  {
  }

  /** Probing from inside a region is probing that region and then everything past it. */
  lemma {:induction false} ProbeByRegion(t: Target, r: Region, c: int, limit: int, size: int)
    requires Reported(t, r) && Serves(t, size) && c % GRANULARITY == 0
    requires r.base <= c < End(r) + GRANULARITY
    ensures Probe(t, c, limit, size)
            == if r.free && ProbeRegion(t, r, c, limit, size).Some? then ProbeRegion(t, r, c, limit, size)
               else Probe(t, AlignUp(End(r)), limit, size)
    decreases End(r) - c
  {
    if c >= End(r) {
      FirstSlotPast(c, End(r));
      if size == 0 { RegionRefuses(t, r, c, limit, size); }
    } else if c < limit {
      ProbeStep(t, r, c, limit, size);
      ProbeByRegion(t, r, c + GRANULARITY, limit, size);
      if c + size > End(r) { RegionEnds(t, r, c + GRANULARITY, limit, size); }
    } else {
      AlignUpRounds(End(r));
    }
  }

  lemma {:induction false} RegionRefuses(t: Target, r: Region, c: int, limit: int, size: int)
    requires forall x :: t.grant(x).None?
    ensures ProbeRegion(t, r, c, limit, size).None?
    decreases limit - c
  {
    if c < limit && c + size <= End(r) { RegionRefuses(t, r, c + GRANULARITY, limit, size); }
  }

  /** Past the last region nothing is free. */
  lemma {:induction false} ProbeFindsNothing(t: Target, c: int, limit: int, size: int)
    requires forall x :: x >= c ==> t.query(x).None?
    ensures Probe(t, c, limit, size).None?
    decreases limit - c
  {
    if c < limit {
      ProbeFindsNothing(t, c + GRANULARITY, limit, size);
    }
  }

  /** The first address of a step of the walk: the rounded start, or the end of the region before. */
  ghost predicate Reached(t: Target, from: int, address: int)
  {
    && from <= address
    && (address == AlignUp(from)
        || (from < address && t.query(address - 1).Some? && End(t.query(address - 1).value) == address))
  }

  /** The region found at a step starts there, or the walk is at its first step; either way its first slot is next. */
  lemma FirstSlot(t: Target, from: int, address: int, r: Region)
    requires Consistent(t) && 0 <= from <= TWO_TO_THE_64 - GRANULARITY
    requires Reached(t, from, address) && t.query(address) == Some(r)
    ensures AlignUp(Max(r.base, from)) == AlignUp(address)
    ensures r.base <= AlignUp(address) < End(r) + GRANULARITY && AlignUp(address) % GRANULARITY == 0
    ensures Reported(t, r) && Reached(t, from, End(r)) && address < End(r) <= USER_LIMIT
  {
    assert ReportsHere(t, address);
    AlignUpRounds(from);
    AlignUpRounds(address);
    assert Reported(t, r) by {
      forall x | r.base <= x < End(r) ensures t.query(x) == Some(r) {
        assert SameRegion(t, address, x);
      }
    }
    if address != AlignUp(from) {
      assert r.base < address ==> t.query(address - 1) == Some(r);
    } else {
      AlignUpRounds(Max(r.base, from));
    }
    assert t.query(End(r) - 1) == Some(r);
  }

  /** One step of the walk, from the address reached to the end of the region there. */
  lemma StepOver(t: Target, from: int, address: int, r: Region, limit: int, size: int)
    requires Consistent(t) && Serves(t, size) && 0 <= from <= TWO_TO_THE_64 - GRANULARITY
    requires Reached(t, from, address) && t.query(address) == Some(r)
    ensures var offered := ProbeRegion(t, r, AlignUp(Max(r.base, from)), limit, size);
            Probe(t, AlignUp(address), limit, size)
            == if r.free && offered.Some? then offered else Probe(t, AlignUp(End(r)), limit, size)
    ensures Reached(t, from, End(r)) && address < End(r) <= USER_LIMIT
  {
    FirstSlot(t, from, address, r);
    var c := AlignUp(address);
    assert c == AlignUp(Max(r.base, from));
    ProbeByRegion(t, r, c, limit, size);
  }

  lemma NothingFurther(t: Target, from: int, address: int, limit: int, size: int)
    requires Consistent(t) && 0 <= from <= address <= TWO_TO_THE_64 - GRANULARITY
    requires address >= limit || t.query(address).None?
    ensures Probe(t, AlignUp(address), limit, size).None?
  {
    AlignUpRounds(address);
    if address < limit {
      forall x | x >= AlignUp(address) ensures t.query(x).None? {
        assert EndsAt(t, address, x);
      }
      ProbeFindsNothing(t, AlignUp(address), limit, size);
    }
  }

  /** From where rounding up does not wrap, walking the regions is offering every slot in turn. */
  lemma {:induction false} WalkIsProbe(t: Target, from: int, address: int, limit: int, size: int)
    requires Consistent(t) && Serves(t, size) && 0 <= from <= TWO_TO_THE_64 - GRANULARITY
    requires Reached(t, from, address) && address <= TWO_TO_THE_64 - GRANULARITY
    ensures Walk(t, from, address, limit, size) == Probe(t, AlignUp(address), limit, size)
    decreases limit - address
  {
    if address >= limit || t.query(address).None? {
      NothingFurther(t, from, address, limit, size);
    } else {
      var r := t.query(address).value;
      StepOver(t, from, address, r, limit, size);
      WalkIsProbe(t, from, End(r), limit, size);
    }
  }

  lemma FoundIsNearest(t: Target, hint: int, size: int)
    requires Consistent(t) && Serves(t, size) && 0 <= hint <= TWO_TO_THE_64 - GRANULARITY
    ensures Found(t, hint, size) == Nearest(t, hint, size)
  {
    SearchStarts(t, hint);
    SearchStarts(t, Low(hint));
    if hint > 0 {
      WalkIsProbe(t, hint, AlignUp(hint), High(hint), size);
      WalkIsProbe(t, Low(hint), AlignUp(Low(hint)), hint, size);
    }
  }

  /** The facts a search starts from. */
  lemma SearchStarts(t: Target, from: int)
    requires 0 <= from <= TWO_TO_THE_64 - GRANULARITY
    ensures Reached(t, from, AlignUp(from)) && AlignUp(AlignUp(from)) == AlignUp(from)
    ensures AlignUp(from) <= TWO_TO_THE_64 - GRANULARITY
  {
    AlignUpRounds(from);
    AlignUpRounds(AlignUp(from));
  }

  method Search(t: Target, from: int, limit: int, size: int) returns (block: Option<int>)
    requires Consistent(t) && 0 <= size <= ADDRESS_MAX && 0 <= from <= ADDRESS_MAX && 0 <= limit <= ADDRESS_MAX
    ensures size < TWO_TO_THE_63 ==> block == Walk(t, from, AlignUp(from), limit, size)
  {
    AlignUpIsAligned(from);
    var address := AlignUp(from);
    while address < limit
      invariant 0 <= address <= ADDRESS_MAX
      invariant address == AlignUp(from) || from < address || from > TWO_TO_THE_64 - GRANULARITY
      invariant size < TWO_TO_THE_63 ==>
                  Walk(t, from, AlignUp(from), limit, size) == Walk(t, from, address, limit, size)
      decreases limit - address
    {
      var answer := t.query(address);
      if answer.None? {
        return None;
      }
      var region := answer.value;
      var past := Wrap(End(region));
      assert ReportsHere(t, address);
      assert past == End(region);
      if region.free {
        block := OfferRegion(t, region, from, limit, size);
        if block.Some? {
          return;
        }
      }
      if past <= address {
        break;
      }
      address := past;
    }
    return None;
  }

  /** The end test of the source, in 64-bit arithmetic, for sizes that cannot carry it past the top. */
  lemma EndTest(candidate: int, size: int, past: int)
    requires 0 <= candidate <= 4 * USER_LIMIT && 0 <= size < TWO_TO_THE_63 && 0 <= past <= USER_LIMIT
    ensures Wrap(candidate + size) <= Wrap(past) <==> candidate + size <= past
  {
  }

  /** A slot that passes the test is low, unless the size wrapped it; then every slot so far wrapped. */
  lemma SlotIsLow(start: int, candidate: int, size: int, past: int)
    requires 0 <= start <= candidate <= 4 * USER_LIMIT && start <= USER_LIMIT + GRANULARITY
    requires 0 <= size <= ADDRESS_MAX && 0 <= past <= USER_LIMIT && Wrap(candidate + size) <= Wrap(past)
    requires candidate == start || size <= TWO_TO_THE_63 || TWO_TO_THE_64 - size <= start
    ensures candidate + GRANULARITY <= 4 * USER_LIMIT
    ensures size <= TWO_TO_THE_63 || TWO_TO_THE_64 - size <= start
  {
  }

  /** The slots of one free region, from the first aligned address in it that is not below the start. */
  method OfferRegion(t: Target, region: Region, from: int, limit: int, size: int) returns (block: Option<int>)
    requires 0 <= region.base < End(region) <= USER_LIMIT
    requires 0 <= from <= ADDRESS_MAX && 0 <= limit <= ADDRESS_MAX && 0 <= size <= ADDRESS_MAX
    requires from < End(region) || from > TWO_TO_THE_64 - GRANULARITY
    ensures size < TWO_TO_THE_63 ==>
              block == ProbeRegion(t, region, AlignUp(Max(region.base, from)), limit, size)
  {
    var candidate := AlignUp(Max(region.base, from));
    AlignUpIsAligned(Max(region.base, from));
    if from < End(region) { AlignUpRounds(Max(region.base, from)); }
    ghost var start := candidate;
    while Wrap(candidate + size) <= Wrap(End(region)) && candidate < limit
      invariant 0 <= start <= candidate <= 4 * USER_LIMIT && start <= USER_LIMIT + GRANULARITY
      invariant size < TWO_TO_THE_63 ==>
                  ProbeRegion(t, region, start, limit, size) == ProbeRegion(t, region, candidate, limit, size)
      invariant candidate == start || size <= TWO_TO_THE_63 || TWO_TO_THE_64 - size <= start
      decreases 8 * USER_LIMIT - candidate
    {
      SlotIsLow(start, candidate, size, End(region));
      if size < TWO_TO_THE_63 { EndTest(candidate, size, End(region)); }
      if t.grant(candidate).Some? {
        return t.grant(candidate);
      }
      candidate := Wrap(candidate + GRANULARITY);
    }
    if size < TWO_TO_THE_63 { EndTest(candidate, size, End(region)); }
    return None;
  }

  method AllocateNear(t: Target, hint: int, size: int) returns (block: Option<int>)
    requires Consistent(t) && 0 <= size <= ADDRESS_MAX && 0 <= hint <= ADDRESS_MAX
    ensures size < TWO_TO_THE_63 ==> block == Found(t, hint, size)
    ensures Serves(t, size) && size < TWO_TO_THE_63 && hint <= TWO_TO_THE_64 - GRANULARITY
            ==> block == Nearest(t, hint, size)
  {
    if Serves(t, size) && hint <= TWO_TO_THE_64 - GRANULARITY { FoundIsNearest(t, hint, size); }
    if hint == 0 {
      return t.grant(0);
    }
    block := Search(t, hint, High(hint), size);
    if block.None? {
      block := Search(t, Low(hint), hint, size);
    }
  }

  /** What is found is the first slot, in ascending order, that is free and granted; or there is none. */
  lemma {:induction false} ProbeFindsFirst(t: Target, c: int, limit: int, size: int)
    requires c % GRANULARITY == 0
    ensures Probe(t, c, limit, size).None? ==>
              forall s :: c <= s < limit && s % GRANULARITY == 0 && Free(t, s, size) ==> t.grant(s).None?
    ensures Probe(t, c, limit, size).Some? ==> exists s :: FirstGranted(t, c, limit, size, s)
                                                 && t.grant(s) == Probe(t, c, limit, size)
    decreases limit - c
  {
    if c < limit {
      if Free(t, c, size) && t.grant(c).Some? {
        assert FirstGranted(t, c, limit, size, c);
      } else {
        ProbeFindsFirst(t, c + GRANULARITY, limit, size);
        if Probe(t, c, limit, size).Some? {
          var s :| FirstGranted(t, c + GRANULARITY, limit, size, s) && t.grant(s) == Probe(t, c, limit, size);
          assert FirstGranted(t, c, limit, size, s);
        }
      }
    }
  }

  predicate FirstGranted(t: Target, c: int, limit: int, size: int, s: int)
  {
    && c <= s < limit && s % GRANULARITY == 0 && Free(t, s, size) && t.grant(s).Some?
    && forall e | c <= e < s && e % GRANULARITY == 0 :: Free(t, e, size) ==> t.grant(e).None?
  }

  const INT32 := 0x8000_0000

  /** A displacement a rel32 operand can hold. */
  predicate Rel32(d: int) { -INT32 <= d < INT32 }

  /** The jump at the hint reaches the block, and any jump ending in the block reaches the code after the hint. */
  ghost predicate Reachable(hint: int, block: int, size: int)
  {
    && Rel32(block - (hint + 5))
    && forall k, m :: 0 <= k <= size && 0 <= m < MEBIBYTE ==> JumpsBack(hint, block, k, m)
  }

  predicate JumpsBack(hint: int, block: int, k: int, m: int)
  {
    Rel32(hint + m - (block + k))
  }

  ghost predicate Placed(t: Target, hint: int, size: int, block: int)
  {
    block % GRANULARITY == 0 && Free(t, block, size) && Reachable(hint, block, size)
  }

  lemma NearestIsPlaced(t: Target, hint: int, size: int)
    requires Consistent(t) && REACH < hint <= TWO_TO_THE_64 - GRANULARITY && 0 <= size <= MEBIBYTE
    requires Nearest(t, hint, size).Some?
    ensures Placed(t, hint, size, Nearest(t, hint, size).value)
  {
    AlignUpRounds(hint);
    AlignUpRounds(Low(hint));
    var above := Probe(t, AlignUp(hint), High(hint), size);
    var start := if above.Some? then AlignUp(hint) else AlignUp(Low(hint));
    var limit := if above.Some? then High(hint) else hint;
    ProbeFindsFirst(t, start, limit, size);
    var s :| FirstGranted(t, start, limit, size, s) && t.grant(s) == Nearest(t, hint, size);
    assert GrantedInPlace(t, s);
  }

  /** Every block at most r away from the hint, up to a mebibyte long, is reachable both ways. */
  ghost predicate AllReachable(r: nat)
  {
    forall hint, block, size ::
      0 <= size <= MEBIBYTE && hint - r <= block <= hint + r ==> Reachable(hint, block, size)
  }

  /** The reach is as far as that can be promised: exactly 2 GiB less a mebibyte. */
  lemma ReachIsTheMargin(r: nat)
    ensures AllReachable(r) <==> r <= REACH
  {
    if r > REACH {
      assert !JumpsBack(r, 0, 0, MEBIBYTE - 1);
      assert !Reachable(r, 0, 0);
    }
  }

  /** No free slot of [c, limit) is granted. */
  ghost predicate NoneGranted(t: Target, c: int, limit: int, size: int)
  {
    forall s :: c <= s < limit && s % GRANULARITY == 0 && Free(t, s, size) ==> t.grant(s).None?
  }

  /** The first granted slot at or above the hint, else the first below it. */
  ghost predicate Chosen(t: Target, hint: int, size: int, s: int)
  {
    || FirstGranted(t, hint, High(hint), size, s)
    || (NoneGranted(t, hint, High(hint), size) && FirstGranted(t, Low(hint), hint, size, s))
  }

  /**
   Which block is found, below the last granule: the first granted slot at or above the hint, within the reach; when
   there is none, the first one from the lowest reachable address up to the hint; when there is neither, nothing.
   */
  lemma FoundExactly(t: Target, hint: int, size: int)
    requires Consistent(t) && Serves(t, size) && 0 < hint <= TWO_TO_THE_64 - GRANULARITY
    ensures Found(t, hint, size).None? ==>
              NoneGranted(t, hint, High(hint), size) && NoneGranted(t, Low(hint), hint, size)
    ensures Found(t, hint, size).Some? ==> exists s :: t.grant(s) == Found(t, hint, size) && Chosen(t, hint, size, s)
  {
    FoundIsNearest(t, hint, size);
    AlignUpRounds(hint);
    AlignUpRounds(Low(hint));
    ProbeFindsFirst(t, AlignUp(hint), High(hint), size);
    ProbeFindsFirst(t, AlignUp(Low(hint)), hint, size);
    if Probe(t, AlignUp(hint), High(hint), size).Some? {
      var s :| FirstGranted(t, AlignUp(hint), High(hint), size, s) && t.grant(s) == Found(t, hint, size);
      assert FirstGranted(t, hint, High(hint), size, s) && Chosen(t, hint, size, s);
    } else if Probe(t, AlignUp(Low(hint)), hint, size).Some? {
      var s :| FirstGranted(t, AlignUp(Low(hint)), hint, size, s) && t.grant(s) == Found(t, hint, size);
      assert FirstGranted(t, Low(hint), hint, size, s) && Chosen(t, hint, size, s);
    }
  }

  const FAR := 0x100_0000_0000

  /** Two free mebibytes at the bottom, where only a request at zero is granted, and far away. */
  function FarTarget(): (t: Target)
  {
    Target(a => if 0 <= a < 2 * MEBIBYTE then Some(Region(0, 2 * MEBIBYTE, true)) else None,
           c => if c == 0 then Some(FAR) else None)
  }

  lemma FarTargetIsConsistent()
    ensures Consistent(FarTarget())
  {
  }

  lemma {:induction false} FarTargetRefuses(c: int, limit: int, size: int)
    requires c > 0
    ensures Probe(FarTarget(), c, limit, size).None?
    decreases limit - c
  {
    if c < limit { FarTargetRefuses(c + GRANULARITY, limit, size); }
  }

  /** Every block found for this hint, in any target, is aligned, inside a free region and reachable both ways. */
  ghost predicate Guaranteed(hint: int, size: int)
  {
    forall t, block :: Consistent(t) && Found(t, hint, size) == Some(block) ==> Placed(t, hint, size, block)
  }

  /**
   A hint in the last granule rounds up to zero: the search begins by offering the bottom of the address space, and
   takes whatever a request at zero is given.
   */
  lemma LastGranuleEscapes(hint: int, size: int)
    requires TWO_TO_THE_64 - GRANULARITY < hint <= ADDRESS_MAX && 0 < size <= MEBIBYTE
    ensures Consistent(FarTarget()) && Found(FarTarget(), hint, size) == Some(FAR)
    ensures !Reachable(hint, FAR, size)
  {
    FarTargetIsConsistent();
    AlignUpIsAligned(hint);
    var r := FarTarget().query(0).value;
    assert ProbeRegion(FarTarget(), r, 0, High(hint), size) == Some(FAR);
    assert Walk(FarTarget(), hint, 0, High(hint), size) == Some(FAR);
    assert !Rel32(FAR - (hint + 5));
  }

  lemma LowHintEscapes(hint: int, size: int)
    requires 0 <= hint <= REACH && 0 < size <= MEBIBYTE
    ensures Consistent(FarTarget()) && Found(FarTarget(), hint, size) == Some(FAR)
    ensures !Reachable(hint, FAR, size)
  {
    var t := FarTarget();
    FarTargetIsConsistent();
    AlignUpRounds(hint);
    AlignUpRounds(0);
    if hint > 0 { FarTargetRefuses(AlignUp(hint), High(hint), size); }
    assert Free(t, 0, size) && t.grant(0) == Some(FAR);
    assert Nearest(t, hint, size) == Some(FAR);
    FoundIsNearest(t, hint, size);
    assert !Rel32(FAR - (hint + 5));
  }

  /**
   The guarantee holds exactly for hints above the reach and below the last granule. At or below the reach the
   downward search starts at zero, from the last granule the upward one does, and a request at zero lets the target
   choose any address.
   */
  lemma GuaranteedExactly(hint: int, size: int)
    requires 0 <= hint <= ADDRESS_MAX && 0 < size <= MEBIBYTE
    ensures Guaranteed(hint, size) <==> REACH < hint <= TWO_TO_THE_64 - GRANULARITY
  {
    if REACH < hint <= TWO_TO_THE_64 - GRANULARITY {
      forall t, block | Consistent(t) && Found(t, hint, size) == Some(block)
        ensures Placed(t, hint, size, block)
      {
        FoundIsNearest(t, hint, size);
        NearestIsPlaced(t, hint, size);
      }
    } else if hint <= REACH {
      LowHintEscapes(hint, size);
      assert !Placed(FarTarget(), hint, size, FAR);
    } else {
      LastGranuleEscapes(hint, size);
      assert !Placed(FarTarget(), hint, size, FAR);
    }
  }
}
