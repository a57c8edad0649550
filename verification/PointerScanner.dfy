/**
 The pointer scan: a reverse breadth-first search over every readable aligned slot, each slot matched
 against the sorted frontier by binary search, with a seen set and caps on results and frontier.
 */
module PointerScanner {
  import opened Common
  import opened PointerSpace

  const CHUNK := 1024 * 1024

  datatype Candidate = Candidate(address: int, offsets: seq<int>)

  datatype Caps = Caps(maxDepth: nat, maxResults: nat, maxFrontier: nat)

  datatype Progress = Progress(seen: set<int>, next: seq<Candidate>, results: seq<Chain>, truncated: bool)

  function Root(r: Chain): int { r.moduleBase + r.moduleOffset }

  predicate InModules(modules: seq<ModuleInfo>, a: int) { exists m | m in modules :: Contains(m, a) }

  // ----- Soundness -----

  /** Following the candidate's offsets from its address gives the target. */
  predicate Leads(sp: Space, a: int, offsets: seq<int>, depth: nat)
  {
    && |offsets| == depth && IsAddress(a)
    && (forall o | o in offsets :: 0 <= o <= sp.maxOffset)
    && Walk(sp.mem, sp.width, a, offsets) == Some(sp.target)
  }

  ghost predicate ChainSound(sp: Space, modules: seq<ModuleInfo>, r: Chain, maxDepth: nat)
  {
    && 0 < |r.offsets| <= maxDepth
    && Leads(sp, Root(r), r.offsets, |r.offsets|)
    && exists m :: m in modules && m.name == r.moduleName && m.base == r.moduleBase && Contains(m, Root(r))
  }

  lemma StepBack(sp: Space, a: int, p: nat, b: int, offsets: seq<int>, depth: nat)
    requires ValidSpace(sp) && ReadPointer(sp.mem, sp.width, a) == Some(p) && a in sp.mem
    requires p != 0 && p <= b <= p + sp.maxOffset && Leads(sp, b, offsets, depth)
    ensures Leads(sp, a, [b - p] + offsets, depth + 1)
  {
    var all := [b - p] + offsets;
    assert all[0] == b - p && all[1..] == offsets;
    assert (p + all[0]) % TWO_TO_THE_64 == b;
  }

  /** A sound chain resolves, against the same memory and modules, to exactly the scan target. */
  lemma SoundChainResolves(sp: Space, modules: seq<ModuleInfo>, r: Chain, maxDepth: nat)
    requires ValidSpace(sp) && UniqueModules(modules) && ChainSound(sp, modules, r, maxDepth)
    ensures Resolved(sp.mem, sp.width, r, modules) == Some(sp.target)
  {
    var m :| m in modules && m.name == r.moduleName && m.base == r.moduleBase;
    var k :| 0 <= k < |modules| && modules[k] == m;
    BaseOfUnique(modules, k);
  }

  // ----- Completeness -----

  /** The visited slots that enter the next frontier. */
  ghost function Found(sp: Space, frontier: seq<Candidate>, seen: set<int>, done: set<int>): set<int>
  {
    set a | a in done && a !in seen && exists c :: c in frontier && Edge(sp, a, c.address)
  }

  ghost predicate Lists(items: seq<Candidate>, addresses: set<int>)
  {
    && (forall c :: c in items ==> c.address in addresses)
    && (forall a :: a in addresses ==> exists c :: c in items && c.address == a)
    && (forall i, j :: 0 <= i < j < |items| ==> items[i].address != items[j].address)
  }

  /** The results are the module-rooted addresses of the set, each once. */
  ghost predicate Reports(modules: seq<ModuleInfo>, results: seq<Chain>, addresses: set<int>)
  {
    && (forall r :: r in results ==> Root(r) in addresses && InModules(modules, Root(r)))
    && (forall a :: a in addresses && InModules(modules, a) ==> exists r :: r in results && Root(r) == a)
    && (forall i, j :: 0 <= i < j < |results| ==> Root(results[i]) != Root(results[j]))
  }

  /** Everything known part-way through one depth, before: the set seen so far, done: the slots visited. */
  ghost predicate Mid(sp: Space, modules: seq<ModuleInfo>, caps: Caps, frontier: seq<Candidate>, depth: nat,
                      before: set<int>, done: set<int>, now: Progress)
    requires ValidSpace(sp)
  {
    && depth < caps.maxDepth
    && (forall a :: a in done ==> IsSlot(sp, a))
    && (forall c :: c in frontier ==> Leads(sp, c.address, c.offsets, depth))
    && (forall c :: c in now.next ==> Leads(sp, c.address, c.offsets, depth + 1))
    && (forall r :: r in now.results ==> ChainSound(sp, modules, r, depth + 1))
    && |now.results| <= caps.maxResults
    && (!now.truncated ==> Exactly(sp, modules, frontier, depth, before, done, now))
  }

  ghost predicate FullReads(sp: Space)
  {
    forall r :: r in sp.regions && r.readable ==> Mapped(sp.mem, r.base, r.size)
  }

  /** The chain is one of this depth's, or an earlier one whose length is its root's level. */
  ghost predicate Placed(sp: Space, r: Chain, depth: nat, before: set<int>, found: set<int>)
    requires ValidSpace(sp)
  {
    || (Root(r) in found && |r.offsets| == depth + 1)
    || (Root(r) in before && (FullReads(sp) ==> Root(r) in Level(sp, |r.offsets|)))
  }

  ghost predicate Exactly(sp: Space, modules: seq<ModuleInfo>, frontier: seq<Candidate>, depth: nat,
                          before: set<int>, done: set<int>, now: Progress)
    requires ValidSpace(sp)
  {
    && (forall r :: r in now.results ==> Placed(sp, r, depth, before, Found(sp, frontier, before, done)))
    && sp.target in before && before <= sp.mem.Keys + {sp.target}
    && now.seen == before + Found(sp, frontier, before, done)
    && Lists(now.next, Found(sp, frontier, before, done))
    && Reports(modules, now.results, now.seen - {sp.target})
  }

  /** Room for every mapped address among the results and in the frontier. */
  ghost predicate Roomy(sp: Space, caps: Caps) { |sp.mem| <= caps.maxResults && |sp.mem| <= caps.maxFrontier }

  /** The note that something was dropped stays, and is not made while there is room for everything. */
  ghost predicate NotesDrops(sp: Space, caps: Caps, was: Progress, now: Progress)
  {
    (was.truncated ==> now.truncated) && (Roomy(sp, caps) && now.truncated ==> was.truncated)
  }

  lemma {:induction false} NoMoreThan(items: seq<int>, s: set<int>)
    requires forall i :: 0 <= i < |items| ==> items[i] in s
    requires forall i, j :: 0 <= i < j < |items| ==> items[i] != items[j]
    ensures |items| <= |s|
  {
    if items != [] {
      NoMoreThan(items[..|items| - 1], s - {items[|items| - 1]});
    }
  }

  lemma ReportsFewer(modules: seq<ModuleInfo>, results: seq<Chain>, addresses: set<int>)
    requires Reports(modules, results, addresses)
    ensures |results| <= |addresses|
  {
    var roots := seq(|results|, i requires 0 <= i < |results| => Root(results[i]));
    forall i | 0 <= i < |roots| ensures roots[i] in addresses { assert results[i] in results; }
    NoMoreThan(roots, addresses);
  }

  lemma ListsFewer(items: seq<Candidate>, addresses: set<int>, more: set<int>)
    requires Lists(items, addresses) && addresses <= more
    ensures |items| <= |more|
  {
    var listed := seq(|items|, i requires 0 <= i < |items| => items[i].address);
    forall i | 0 <= i < |listed| ensures listed[i] in more { assert items[i] in items; }
    NoMoreThan(listed, more);
  }

  /** While nothing has been dropped, results and frontier number less than the mapped addresses as one is still new. */
  lemma RoomLeft(sp: Space, modules: seq<ModuleInfo>, caps: Caps, frontier: seq<Candidate>, depth: nat,
                 before: set<int>, done: set<int>, was: Progress, a: int)
    requires ValidSpace(sp) && Mid(sp, modules, caps, frontier, depth, before, done, was) && !was.truncated
    requires a in sp.mem && a !in was.seen
    ensures |was.results| < |sp.mem| && |was.next| < |sp.mem|
  {
    var known := was.seen - {sp.target};
    SeenIsMapped(sp, modules, frontier, depth, before, done, was);
    Fewer(known, sp.mem.Keys, a);
    ReportsFewer(modules, was.results, known);
    ListsFewer(was.next, Found(sp, frontier, before, done), known);
  }

  lemma Fewer(small: set<int>, large: set<int>, a: int)
    requires small <= large && a in large && a !in small
    ensures |small| < |large|
  {
    var rest := large - small;
    assert large == small + rest && a in rest;
    assert |large| == |small| + |rest|;
  }

  lemma FoundOneMore(sp: Space, frontier: seq<Candidate>, before: set<int>, done: set<int>, a: int)
    ensures Found(sp, frontier, before, done + {a}) ==
            Found(sp, frontier, before, done)
            + (if a !in before && exists c :: c in frontier && Edge(sp, a, c.address) then {a} else {})
  {
  }

  method LowerBound(sorted: seq<int>, value: int) returns (k: nat)
    requires forall i, j :: 0 <= i < j < |sorted| ==> sorted[i] <= sorted[j]
    ensures k <= |sorted|
    ensures forall i :: 0 <= i < k ==> sorted[i] < value
    ensures forall i :: k <= i < |sorted| ==> value <= sorted[i]
  {
    var low, high := 0, |sorted|;
    while low < high
      invariant 0 <= low <= high <= |sorted|
      invariant forall i :: 0 <= i < low ==> sorted[i] < value
      invariant forall i :: high <= i < |sorted| ==> value <= sorted[i]
    {
      var mid := (low + high) / 2;
      if sorted[mid] < value { low := mid + 1; } else { high := mid; }
    }
    k := low;
  }

  predicate Listed(order: seq<nat>, k: nat) { exists i :: 0 <= i < |order| && order[i] == k }

  predicate EachOnce(order: seq<nat>) { forall i, j :: 0 <= i < j < |order| ==> order[i] != order[j] }

  /** Positions of the targets, each listed once, in ascending order of address. */
  method SortOrder(targets: seq<int>) returns (order: seq<nat>)
    ensures |order| == |targets|
    ensures forall i :: 0 <= i < |order| ==> order[i] < |targets|
    ensures forall k :: 0 <= k < |targets| ==> Listed(order, k)
    ensures EachOnce(order)
    ensures forall i, j :: 0 <= i < j < |order| ==> targets[order[i]] <= targets[order[j]]
  {
    order := [];
    for n := 0 to |targets|
      invariant |order| == n
      invariant EachOnce(order)
      invariant forall i :: 0 <= i < |order| ==> order[i] < n
      invariant forall k :: 0 <= k < n ==> Listed(order, k)
      invariant forall i, j :: 0 <= i < j < |order| ==> targets[order[i]] <= targets[order[j]]
    {
      var at := 0;
      while at < |order| && targets[order[at]] <= targets[n]
        invariant 0 <= at <= |order|
        invariant forall i :: 0 <= i < at ==> targets[order[i]] <= targets[n]
      {
        at := at + 1;
      }
      InsertLists(order, at, n);
      order := order[..at] + [n] + order[at..];
    }
  }

  lemma InsertLists(order: seq<nat>, at: nat, n: nat)
    requires at <= |order| && forall i :: 0 <= i < |order| ==> order[i] < n
    requires EachOnce(order)
    ensures var more := order[..at] + [n] + order[at..];
            && (forall k :: Listed(order, k) || k == n ==> Listed(more, k))
            && EachOnce(more)
  {
    var more := order[..at] + [n] + order[at..];
    assert more[at] == n;
    forall k | Listed(order, k)
      ensures Listed(more, k)
    {
      var i :| 0 <= i < |order| && order[i] == k;
      assert more[if i < at then i else i + 1] == k;
    }
  }

  /** The frontier's addresses sorted, and where each came from. */
  ghost predicate Index(frontier: seq<Candidate>, order: seq<nat>, sorted: seq<int>)
  {
    && |order| == |sorted|
    && (forall i :: 0 <= i < |order| ==> order[i] < |frontier| && frontier[order[i]].address == sorted[i])
    && (forall k :: 0 <= k < |frontier| ==> Listed(order, k))
    && (forall i, j :: 0 <= i < j < |sorted| ==> sorted[i] <= sorted[j])
  }

  lemma IndexComplete(frontier: seq<Candidate>, order: seq<nat>, sorted: seq<int>, c: Candidate)
    requires Index(frontier, order, sorted) && c in frontier
    ensures exists i :: 0 <= i < |sorted| && sorted[i] == c.address
  {
    var k :| 0 <= k < |frontier| && frontier[k] == c;
    assert Listed(order, k);
    var i :| 0 <= i < |order| && order[i] == k;
    assert sorted[i] == c.address;
  }

  lemma FirstIsNearest(frontier: seq<Candidate>, order: seq<nat>, sorted: seq<int>, pointerValue: nat, first: nat)
    requires Index(frontier, order, sorted) && first < |sorted| && pointerValue <= sorted[first]
    requires forall i :: 0 <= i < first ==> sorted[i] < pointerValue
    ensures NearestAbove(frontier, pointerValue, frontier[order[first]])
  {
    forall c | c in frontier && pointerValue <= c.address ensures sorted[first] <= c.address {
      IndexComplete(frontier, order, sorted, c);
    }
  }

  /** The chain for a newly found slot, rooted in the first module that holds it. */
  method ReportChain(sp: Space, modules: seq<ModuleInfo>, caps: Caps, depth: nat, was: Progress,
                     a: int, offsets: seq<int>) returns (results: seq<Chain>, truncated: bool)
    requires Leads(sp, a, offsets, depth + 1)
    requires |was.results| <= caps.maxResults
    requires forall r :: r in was.results ==> ChainSound(sp, modules, r, depth + 1)
    requires !was.truncated ==> Reports(modules, was.results, was.seen - {sp.target})
    requires a !in was.seen && (!was.truncated ==> sp.target in was.seen)
    ensures |results| <= caps.maxResults && (forall r :: r in results ==> ChainSound(sp, modules, r, depth + 1))
    ensures was.truncated ==> truncated
    ensures truncated && !was.truncated ==> |was.results| == caps.maxResults
    ensures !truncated ==> Reports(modules, results, was.seen + {a} - {sp.target})
    ensures forall r :: r in results ==> r in was.results || (Root(r) == a && r.offsets == offsets)
  {
    results, truncated := was.results, was.truncated;
    var i := 0;
    while i < |modules| && !Contains(modules[i], a)
      invariant 0 <= i <= |modules|
      invariant forall k :: 0 <= k < i ==> !Contains(modules[k], a)
    {
      i := i + 1;
    }
    assert !was.truncated ==> was.seen - {sp.target} + {a} == was.seen + {a} - {sp.target};
    if i < |modules| {
      var chain := Chain(modules[i].name, a - modules[i].base, offsets, modules[i].base);
      assert modules[i] in modules && Contains(modules[i], Root(chain));
      if |results| < caps.maxResults {
        if !was.truncated {
          ReportsOneMore(modules, was.results, was.seen - {sp.target}, chain);
        }
        results := results + [chain];
      } else {
        truncated := true;
      }
    } else {
      assert !InModules(modules, a);
    }
  }

  /** The frontier entry a slot's pointer reaches with the smallest offset. */
  ghost predicate NearestAbove(frontier: seq<Candidate>, pointerValue: nat, source: Candidate)
  {
    && source in frontier && pointerValue <= source.address
    && forall c :: c in frontier && pointerValue <= c.address ==> source.address <= c.address
  }

  /** The slot is new, and its offset to the source leads everything recorded for it. */
  ghost predicate AddsFrom(caps: Caps, was: Progress, now: Progress, a: int, pointerValue: nat, source: Candidate)
  {
    var offsets := [source.address - pointerValue] + source.offsets;
    && a !in was.seen && now.seen == was.seen + {a}
    && now.next == (if |was.next| < caps.maxFrontier then was.next + [Candidate(a, offsets)] else was.next)
    && forall r :: r in now.results ==> r in was.results || (Root(r) == a && r.offsets == offsets)
  }

  /** Records a newly found slot: perhaps a chain, and a frontier entry. */
  method AddFound(sp: Space, modules: seq<ModuleInfo>, caps: Caps, frontier: seq<Candidate>, depth: nat,
                  ghost before: set<int>, ghost done: set<int>, was: Progress,
                  a: int, pointerValue: nat, source: Candidate) returns (now: Progress)
    requires ValidSpace(sp) && Mid(sp, modules, caps, frontier, depth, before, done, was)
    requires IsSlot(sp, a) && ReadPointer(sp.mem, sp.width, a) == Some(pointerValue) && pointerValue != 0
    requires source in frontier && pointerValue <= source.address <= pointerValue + sp.maxOffset && a !in was.seen
    ensures a in now.seen && Mid(sp, modules, caps, frontier, depth, before, done + {a}, now)
    ensures AddsFrom(caps, was, now, a, pointerValue, source)
    ensures NotesDrops(sp, caps, was, now)
  {
    assert a in sp.mem;
    if !was.truncated { RoomLeft(sp, modules, caps, frontier, depth, before, done, was, a); }
    var candidate := Candidate(a, [source.address - pointerValue] + source.offsets);
    StepBack(sp, a, pointerValue, source.address, source.offsets, depth);
    FoundOneMore(sp, frontier, before, done, a);
    assert Edge(sp, a, source.address);

    var results, truncated := ReportChain(sp, modules, caps, depth, was, a, candidate.offsets);
    var next := was.next;
    if |next| < caps.maxFrontier {
      if !was.truncated {
        ListsOneMore(was.next, Found(sp, frontier, before, done), candidate);
      }
      next := next + [candidate];
    } else {
      truncated := true;
    }
    now := Progress(was.seen + {a}, next, results, truncated);
  }

  lemma ReportsOneMore(modules: seq<ModuleInfo>, results: seq<Chain>, addresses: set<int>, r: Chain)
    requires Reports(modules, results, addresses) && Root(r) !in addresses && InModules(modules, Root(r))
    ensures Reports(modules, results + [r], addresses + {Root(r)})
  {
    var more := results + [r];
    assert more[|results|] == r;
    forall a | a in addresses && InModules(modules, a)
      ensures exists q :: q in more && Root(q) == a
    {
      var q :| q in results && Root(q) == a;
      assert q in more;
    }
    assert forall i :: 0 <= i < |results| ==> results[i] in results && Root(results[i]) in addresses;
  }

  lemma ListsOneMore(items: seq<Candidate>, addresses: set<int>, c: Candidate)
    requires Lists(items, addresses) && c.address !in addresses
    ensures Lists(items + [c], addresses + {c.address})
  {
    var more := items + [c];
    assert more[|items|] == c;
    forall a | a in addresses
      ensures exists q :: q in more && q.address == a
    {
      var q :| q in items && q.address == a;
      assert q in more;
    }
    assert forall i :: 0 <= i < |items| ==> items[i] in items && items[i].address in addresses;
  }

  /**
   One slot: a range scan of the sorted frontier from a binary search. Only the first match can add it, so a slot new
   to the search is recorded from the nearest frontier address its pointer reaches, and nothing else changes.
   */
  method VisitSlot(sp: Space, modules: seq<ModuleInfo>, caps: Caps, frontier: seq<Candidate>, depth: nat,
                   order: seq<nat>, sorted: seq<int>,
                   ghost before: set<int>, ghost done: set<int>, was: Progress,
                   a: int, pointerValue: nat) returns (now: Progress)
    requires ValidSpace(sp) && Mid(sp, modules, caps, frontier, depth, before, done, was)
    requires Index(frontier, order, sorted)
    requires IsSlot(sp, a) && ReadPointer(sp.mem, sp.width, a) == Some(pointerValue)
    ensures Mid(sp, modules, caps, frontier, depth, before, done + {a}, now)
    ensures now == was || exists source :: NearestAbove(frontier, pointerValue, source)
                             && AddsFrom(caps, was, now, a, pointerValue, source)
    ensures (exists c :: c in frontier && Edge(sp, a, c.address)) ==> a in now.seen
    ensures NotesDrops(sp, caps, was, now)
  {
    now := was;
    FoundOneMore(sp, frontier, before, done, a);
    if pointerValue == 0 {
      assert forall c :: !Edge(sp, a, c);
      return;
    }
    var first := LowerBound(sorted, pointerValue);
    var match_ := first;
    while match_ < |sorted| && sorted[match_] - pointerValue <= sp.maxOffset
      invariant first <= match_ <= |sorted|
      invariant match_ == first ==> now == was
      invariant NotesDrops(sp, caps, was, now)
      invariant match_ > first ==> a in now.seen && Mid(sp, modules, caps, frontier, depth, before, done + {a}, now)
      invariant match_ > first ==> now == was || AddsFrom(caps, was, now, a, pointerValue, frontier[order[first]])
    {
      var source := frontier[order[match_]];
      if a !in now.seen {
        now := AddFound(sp, modules, caps, frontier, depth, before, done, now, a, pointerValue, source);
      }
      match_ := match_ + 1;
    }
    if match_ == first {
      forall c | c in frontier
        ensures !Edge(sp, a, c.address)
      {
        IndexComplete(frontier, order, sorted, c);
      }
    } else {
      FirstIsNearest(frontier, order, sorted, pointerValue, first);
    }
  }

  /** Every aligned place of the region below upto has been visited. */
  ghost predicate Covered(sp: Space, r: Region, upto: int, done: set<int>)
    requires ValidSpace(sp)
  {
    forall a :: InRegion(r, sp.width, a) && a < upto ==> a in done
  }

  lemma OneSlotPerStep(width: nat, p: int, q: int)
    requires width == 4 || width == 8
    requires Aligned(width, p) && Aligned(width, q) && p <= q < p + width
    ensures p == q
  {
  }

  /** The slots of a chunk that lie before position i. */
  ghost function SlotsBefore(start: int, width: nat, i: nat): set<int>
    requires width > 0
    decreases i
  {
    if i < width then {} else SlotsBefore(start, width, i - width) + {start + i - width}
  }

  lemma SlotsBeforeNext(done: set<int>, start: int, width: nat, i: nat)
    requires width > 0
    ensures done + SlotsBefore(start, width, i + width) == done + SlotsBefore(start, width, i) + {start + i}
  {
  }

  lemma {:induction false} SlotsBeforeHas(start: int, width: nat, i: nat, k: nat)
    requires width == 4 || width == 8
    requires Aligned(width, i) && Aligned(width, k) && k < i
    ensures start + k in SlotsBefore(start, width, i)
    decreases i
  {
    if k + width < i { SlotsBeforeHas(start, width, i - width, k); }
    else { OneSlotPerStep(width, i - width, k); }
  }

  lemma AlignedSum(width: nat, chunk: nat, i: nat)
    requires width == 4 || width == 8
    requires Aligned(width, i)
    ensures Aligned(width, chunk * CHUNK + i) && Aligned(width, i + width)
  {
    assert chunk * CHUNK == 8 * (chunk * 131072);
  }

  /** The i-th byte of a chunk starts a slot, and the buffer holds the pointer stored there. */
  lemma SlotOfChunk(sp: Space, r: Region, chunk: nat, size: nat, i: nat)
    requires ValidSpace(sp) && r in sp.regions && r.readable && chunk * CHUNK + size <= r.size
    requires Aligned(sp.width, i) && i + sp.width <= |ReadBytes(sp.mem, r.base + chunk * CHUNK, size)|
    ensures IsSlot(sp, r.base + chunk * CHUNK + i)
    ensures ReadPointer(sp.mem, sp.width, r.base + chunk * CHUNK + i)
            == Some(LittleEndian(ReadBytes(sp.mem, r.base + chunk * CHUNK, size)[i..i + sp.width]))
    ensures Aligned(sp.width, i + sp.width)
  {
    var start := r.base + chunk * CHUNK;
    ReadBytesAt(sp.mem, start, size);
    AlignedSum(sp.width, chunk, i);
    assert InRegion(r, sp.width, start + i);
    assert ReadBytes(sp.mem, start, size)[i..i + sp.width] == Slice(sp.mem, start + i, sp.width);
  }

  lemma ChunkEnd(width: nat, i: nat)
    requires (width == 4 || width == 8) && Aligned(width, i) && CHUNK < i + width
    ensures CHUNK <= i
  {
  }

  /** With full reads a chunk's slots are all visited: a full chunk is a whole number of them. */
  lemma ChunkCovered(sp: Space, r: Region, chunk: nat, n: nat, i: nat, done: set<int>)
    requires ValidSpace(sp) && r in sp.regions && r.readable && chunk * CHUNK < r.size
    requires n == |ReadBytes(sp.mem, r.base + chunk * CHUNK, Min(CHUNK, r.size - chunk * CHUNK))|
    requires Aligned(sp.width, i) && n < i + sp.width
    requires FullReads(sp) && Covered(sp, r, r.base + chunk * CHUNK, done)
    ensures Covered(sp, r, r.base + (chunk + 1) * CHUNK, done + SlotsBefore(r.base + chunk * CHUNK, sp.width, i))
  {
    var start := r.base + chunk * CHUNK;
    var size := Min(CHUNK, r.size - chunk * CHUNK);
    assert n == size by {
      ReadBytesAt(sp.mem, start, size);
      assert Mapped(sp.mem, r.base, r.size);
    }
    if n == CHUNK { ChunkEnd(sp.width, i); }
    forall a | InRegion(r, sp.width, a) && a < start + CHUNK
      ensures a in done + SlotsBefore(start, sp.width, i)
    {
      if a >= start {
        ChunkPosition(sp.width, chunk, a - start);
        SlotsBeforeHas(start, sp.width, i, a - start);
      }
    }
  }

  lemma ChunkDone(sp: Space, r: Region, chunk: nat, n: nat, i: nat, done: set<int>)
    requires ValidSpace(sp) && r in sp.regions && r.readable && chunk * CHUNK < r.size
    requires n == |ReadBytes(sp.mem, r.base + chunk * CHUNK, Min(CHUNK, r.size - chunk * CHUNK))|
    requires Aligned(sp.width, i) && n < i + sp.width
    ensures FullReads(sp) && Covered(sp, r, r.base + chunk * CHUNK, done) ==>
              Covered(sp, r, r.base + (chunk + 1) * CHUNK, done + SlotsBefore(r.base + chunk * CHUNK, sp.width, i))
  {
    if FullReads(sp) && Covered(sp, r, r.base + chunk * CHUNK, done) {
      ChunkCovered(sp, r, chunk, n, i, done);
    }
  }

  lemma ChunkPosition(width: nat, chunk: nat, k: nat)
    requires (width == 4 || width == 8) && Aligned(width, chunk * CHUNK + k)
    ensures Aligned(width, k)
  {
    ShiftAligned(width, chunk * 131072, k);
  }

  lemma Remainder8(x: nat, q: nat, r: nat)
    requires x == 8 * q + r && r < 8
    ensures x % 8 == r
  {
    assert 8 * (x / 8) + x % 8 == x;
    assert x / 8 == q;
  }

  lemma Remainder4(x: nat, q: nat, r: nat)
    requires x == 4 * q + r && r < 4
    ensures x % 4 == r
  {
    assert 4 * (x / 4) + x % 4 == x;
    assert x / 4 == q;
  }

  lemma ShiftAligned(width: nat, m: nat, k: nat)
    requires width == 4 || width == 8
    ensures Aligned(width, 8 * m + k) == Aligned(width, k)
  {
    if width == 8 {
      Remainder8(8 * m + k, m + k / 8, k % 8);
    } else {
      Remainder4(8 * m + k, 2 * m + k / 4, k % 4);
    }
  }

  /** The slot at position i of a chunk already read. */
  method ScanSlot(sp: Space, modules: seq<ModuleInfo>, caps: Caps, frontier: seq<Candidate>, depth: nat,
                  order: seq<nat>, sorted: seq<int>, region: Region, ghost chunk: nat, start: int, ghost size: nat,
                  buffer: seq<Byte>, i: nat, ghost before: set<int>, ghost done: set<int>, was: Progress)
    returns (now: Progress)
    requires ValidSpace(sp) && Index(frontier, order, sorted)
    requires Mid(sp, modules, caps, frontier, depth, before, done + SlotsBefore(start, sp.width, i), was)
    requires region in sp.regions && region.readable && chunk * CHUNK + size <= region.size
    requires start == region.base + chunk * CHUNK && buffer == ReadBytes(sp.mem, start, size)
    requires Aligned(sp.width, i) && i + sp.width <= |buffer|
    ensures Mid(sp, modules, caps, frontier, depth, before, done + SlotsBefore(start, sp.width, i + sp.width), now)
    ensures Aligned(sp.width, i + sp.width)
    ensures NotesDrops(sp, caps, was, now)
  {
    SlotOfChunk(sp, region, chunk, size, i);
    var pointerValue := LittleEndian(buffer[i..i + sp.width]);
    SlotsBeforeNext(done, start, sp.width, i);
    now := VisitSlot(sp, modules, caps, frontier, depth, order, sorted, before, done + SlotsBefore(start, sp.width, i),
                     was, start + i, pointerValue);
  }

  lemma NoSlotsYet(done: set<int>, start: int, width: nat)
    requires width > 0
    ensures done + SlotsBefore(start, width, 0) == done
  {
  }

  /** The slots of a chunk, a pointer at a time. */
  method ScanSlots(sp: Space, modules: seq<ModuleInfo>, caps: Caps, frontier: seq<Candidate>, depth: nat,
                   order: seq<nat>, sorted: seq<int>, region: Region, ghost chunk: nat, start: int, ghost size: nat,
                   buffer: seq<Byte>, ghost before: set<int>, ghost done: set<int>, was: Progress)
    returns (now: Progress, ghost i: nat)
    requires ValidSpace(sp) && Mid(sp, modules, caps, frontier, depth, before, done, was)
    requires Index(frontier, order, sorted)
    requires region in sp.regions && region.readable && chunk * CHUNK + size <= region.size
    requires start == region.base + chunk * CHUNK && buffer == ReadBytes(sp.mem, start, size)
    ensures Mid(sp, modules, caps, frontier, depth, before, done + SlotsBefore(start, sp.width, i), now)
    ensures Aligned(sp.width, i) && |buffer| < i + sp.width
    ensures NotesDrops(sp, caps, was, now)
  {
    now := was;
    var at: nat := 0;
    NoSlotsYet(done, start, sp.width);
    while at + sp.width <= |buffer|
      invariant Aligned(sp.width, at) && NotesDrops(sp, caps, was, now)
      invariant Mid(sp, modules, caps, frontier, depth, before, done + SlotsBefore(start, sp.width, at), now)
    {
      now := ScanSlot(sp, modules, caps, frontier, depth, order, sorted, region, chunk, start, size,
                      buffer, at, before, done, now);
      at := at + sp.width;
    }
    i := at;
  }

  /** One chunk of a region: read it, then step through it. */
  method ScanChunk(sp: Space, modules: seq<ModuleInfo>, caps: Caps, frontier: seq<Candidate>, depth: nat,
                   order: seq<nat>, sorted: seq<int>, region: Region, chunk: nat,
                   ghost before: set<int>, ghost done: set<int>, was: Progress)
    returns (now: Progress, ghost i: nat)
    requires ValidSpace(sp) && Mid(sp, modules, caps, frontier, depth, before, done, was)
    requires Index(frontier, order, sorted)
    requires region in sp.regions && region.readable && chunk * CHUNK < region.size
    ensures Mid(sp, modules, caps, frontier, depth, before,
                done + SlotsBefore(region.base + chunk * CHUNK, sp.width, i), now)
    ensures Aligned(sp.width, i)
    ensures NotesDrops(sp, caps, was, now)
    ensures |ReadBytes(sp.mem, region.base + chunk * CHUNK, Min(CHUNK, region.size - chunk * CHUNK))| < i + sp.width
  {
    var start := region.base + chunk * CHUNK;
    var readSize := Min(CHUNK, region.size - chunk * CHUNK);
    var buffer := ReadBytes(sp.mem, start, readSize);
    now, i := ScanSlots(sp, modules, caps, frontier, depth, order, sorted, region, chunk, start, readSize,
                        buffer, before, done, was);
  }

  /** A region: unreadable ones are skipped, the rest are read a chunk at a time. */
  method ScanRegion(sp: Space, modules: seq<ModuleInfo>, caps: Caps, frontier: seq<Candidate>, depth: nat,
                    order: seq<nat>, sorted: seq<int>, region: Region,
                    ghost before: set<int>, ghost done: set<int>, was: Progress)
    returns (now: Progress, ghost visited: set<int>)
    requires ValidSpace(sp) && Mid(sp, modules, caps, frontier, depth, before, done, was)
    requires Index(frontier, order, sorted) && region in sp.regions
    ensures Mid(sp, modules, caps, frontier, depth, before, visited, now) && done <= visited
    ensures FullReads(sp) ==> forall a :: InRegion(region, sp.width, a) ==> a in visited
    ensures NotesDrops(sp, caps, was, now)
  {
    now, visited := was, done;
    if !region.readable {
      return;
    }
    var chunk := 0;
    while chunk * CHUNK < region.size
      invariant 0 <= chunk && NotesDrops(sp, caps, was, now)
      invariant Mid(sp, modules, caps, frontier, depth, before, visited, now) && done <= visited
      invariant FullReads(sp) ==> Covered(sp, region, region.base + chunk * CHUNK, visited)
      decreases region.size - chunk * CHUNK
    {
      ghost var i;
      now, i := ScanChunk(sp, modules, caps, frontier, depth, order, sorted, region, chunk, before, visited, now);
      ChunkDone(sp, region, chunk,
                |ReadBytes(sp.mem, region.base + chunk * CHUNK, Min(CHUNK, region.size - chunk * CHUNK))|, i, visited);
      visited := visited + SlotsBefore(region.base + chunk * CHUNK, sp.width, i);
      chunk := chunk + 1;
    }
  }

  /** Everything known between depths. */
  ghost predicate Between(sp: Space, modules: seq<ModuleInfo>, caps: Caps, frontier: seq<Candidate>, depth: nat,
                          now: Progress)
    requires ValidSpace(sp)
  {
    && (forall c :: c in frontier ==> Leads(sp, c.address, c.offsets, depth))
    && (forall r :: r in now.results ==> ChainSound(sp, modules, r, depth))
    && |now.results| <= caps.maxResults
    && (!now.truncated ==>
          && sp.target in now.seen && now.seen <= sp.mem.Keys + {sp.target}
          && Reports(modules, now.results, now.seen - {sp.target}))
    && (!now.truncated && FullReads(sp) ==>
          && now.seen == Visited(sp, depth) && Lists(frontier, Level(sp, depth))
          && forall r :: r in now.results ==> Root(r) in Level(sp, |r.offsets|))
  }

  lemma MidStart(sp: Space, modules: seq<ModuleInfo>, caps: Caps, frontier: seq<Candidate>, depth: nat, was: Progress)
    requires ValidSpace(sp) && Between(sp, modules, caps, frontier, depth, was) && depth < caps.maxDepth
    ensures Mid(sp, modules, caps, frontier, depth, was.seen, {}, was.(next := []))
  {
    forall r | !was.truncated && r in was.results
      ensures Placed(sp, r, depth, was.seen, Found(sp, frontier, was.seen, {}))
    {
      assert Root(r) in was.seen - {sp.target};
    }
  }

  /** One depth of the indexed search finds exactly the next level of the unindexed one. */
  lemma FoundIsNextLevel(sp: Space, frontier: seq<Candidate>, depth: nat, done: set<int>)
    requires ValidSpace(sp) && Lists(frontier, Level(sp, depth))
    requires forall a :: a in done <==> IsSlot(sp, a)
    ensures Found(sp, frontier, Visited(sp, depth), done) == Level(sp, depth + 1)
  {
    forall a
      ensures a in Found(sp, frontier, Visited(sp, depth), done) <==> a in Level(sp, depth + 1)
    {
      if a in Level(sp, depth + 1) {
        var b :| b in Level(sp, depth) && Edge(sp, a, b);
        var c :| c in frontier && c.address == b;
      }
      if a in Found(sp, frontier, Visited(sp, depth), done) {
        assert a in sp.mem;
      }
    }
  }

  /** What is seen is mapped: everything found is a slot. */
  lemma SeenIsMapped(sp: Space, modules: seq<ModuleInfo>, frontier: seq<Candidate>, depth: nat, before: set<int>,
                     done: set<int>, now: Progress)
    requires ValidSpace(sp) && Exactly(sp, modules, frontier, depth, before, done, now)
    requires forall a :: a in done ==> IsSlot(sp, a)
    ensures sp.target in now.seen && now.seen <= sp.mem.Keys + {sp.target}
    ensures Found(sp, frontier, before, done) <= now.seen - {sp.target}
  {
    forall a | a in Found(sp, frontier, before, done) ensures a in sp.mem {
      assert IsSlot(sp, a);
    }
  }

  lemma MidEnd(sp: Space, modules: seq<ModuleInfo>, caps: Caps, frontier: seq<Candidate>, depth: nat,
               was: Progress, done: set<int>, now: Progress)
    requires ValidSpace(sp) && Between(sp, modules, caps, frontier, depth, was)
    requires Mid(sp, modules, caps, frontier, depth, was.seen, done, now)
    requires was.truncated ==> now.truncated
    requires FullReads(sp) ==> forall a :: IsSlot(sp, a) ==> a in done
    ensures Between(sp, modules, caps, now.next, depth + 1, now)
  {
    if !now.truncated {
      SeenIsMapped(sp, modules, frontier, depth, was.seen, done, now);
      if FullReads(sp) {
        FoundIsNextLevel(sp, frontier, depth, done);
        PlacedAtLevels(sp, frontier, depth, was.seen, done, now.results);
      }
    }
  }

  lemma PlacedAtLevels(sp: Space, frontier: seq<Candidate>, depth: nat, before: set<int>, done: set<int>,
                       results: seq<Chain>)
    requires ValidSpace(sp) && FullReads(sp) && Found(sp, frontier, before, done) == Level(sp, depth + 1)
    requires forall r :: r in results ==> Placed(sp, r, depth, before, Found(sp, frontier, before, done))
    ensures forall r :: r in results ==> Root(r) in Level(sp, |r.offsets|)
  {
  }

  /** One depth: index the frontier, then sweep every region. */
  method ScanDepth(sp: Space, modules: seq<ModuleInfo>, caps: Caps, frontier: seq<Candidate>, depth: nat, was: Progress)
    returns (now: Progress)
    requires ValidSpace(sp) && Between(sp, modules, caps, frontier, depth, was) && depth < caps.maxDepth
    ensures Between(sp, modules, caps, now.next, depth + 1, now) && NotesDrops(sp, caps, was, now)
  {
    var targets := seq(|frontier|, i requires 0 <= i < |frontier| => frontier[i].address);
    var order := SortOrder(targets);
    var sorted := seq(|order|, i requires 0 <= i < |order| => targets[order[i]]);
    assert Index(frontier, order, sorted);

    now := was.(next := []);
    ghost var done := {};
    MidStart(sp, modules, caps, frontier, depth, was);
    for k := 0 to |sp.regions|
      invariant Mid(sp, modules, caps, frontier, depth, was.seen, done, now)
      invariant NotesDrops(sp, caps, was, now)
      invariant FullReads(sp) ==> forall j, a :: 0 <= j < k && InRegion(sp.regions[j], sp.width, a) ==> a in done
    {
      now, done := ScanRegion(sp, modules, caps, frontier, depth, order, sorted, sp.regions[k], was.seen, done, now);
    }
    MidEnd(sp, modules, caps, frontier, depth, was, done, now);
  }

  /**
   What the whole scan found: each module-rooted address other than the target that reaches it within
   maxDepth hops, exactly once, and with as few offsets as any path has hops.
   */
  ghost predicate Complete(sp: Space, modules: seq<ModuleInfo>, results: seq<Chain>, maxDepth: nat)
    requires ValidSpace(sp)
  {
    && (forall a :: (exists r :: r in results && Root(r) == a) <==>
          a != sp.target && InModules(modules, a) && Reaches(sp, a, maxDepth))
    && (forall i, j :: 0 <= i < j < |results| ==> Root(results[i]) != Root(results[j]))
    && (forall r :: r in results ==>
          Hops(sp, Root(r), |r.offsets|) && (|r.offsets| > 0 ==> !Reaches(sp, Root(r), |r.offsets| - 1)))
  }

  lemma ReportsAreComplete(sp: Space, modules: seq<ModuleInfo>, results: seq<Chain>, maxDepth: nat)
    requires ValidSpace(sp)
    requires Reports(modules, results, Visited(sp, maxDepth) - {sp.target})
    requires forall r :: r in results ==> Root(r) in Level(sp, |r.offsets|)
    ensures Complete(sp, modules, results, maxDepth)
  {
    forall a
      ensures (exists r :: r in results && Root(r) == a) <==>
              a != sp.target && InModules(modules, a) && Reaches(sp, a, maxDepth)
    {
      VisitedIsReachable(sp, maxDepth, a);
    }
    forall r | r in results
      ensures Hops(sp, Root(r), |r.offsets|) && (|r.offsets| > 0 ==> !Reaches(sp, Root(r), |r.offsets| - 1))
    {
      LevelIsShortest(sp, |r.offsets|, Root(r));
    }
  }

  lemma ScanEnds(sp: Space, modules: seq<ModuleInfo>, caps: Caps, frontier: seq<Candidate>, depth: nat, now: Progress)
    requires ValidSpace(sp) && Between(sp, modules, caps, frontier, depth, now)
    requires depth <= caps.maxDepth && (depth == caps.maxDepth || frontier == [])
    ensures forall r :: r in now.results ==> ChainSound(sp, modules, r, caps.maxDepth)
    ensures UniqueModules(modules) ==>
              forall r :: r in now.results ==> Resolved(sp.mem, sp.width, r, modules) == Some(sp.target)
    ensures FullReads(sp) && !now.truncated ==> Complete(sp, modules, now.results, caps.maxDepth)
  {
    if UniqueModules(modules) {
      forall r | r in now.results
        ensures Resolved(sp.mem, sp.width, r, modules) == Some(sp.target)
      {
        SoundChainResolves(sp, modules, r, depth);
      }
    }
    if FullReads(sp) && !now.truncated {
      if depth < caps.maxDepth {
        assert Level(sp, depth) == {};
        EmptyLevelsStayEmpty(sp, depth, caps.maxDepth);
      }
      ReportsAreComplete(sp, modules, now.results, caps.maxDepth);
    }
  }

  lemma FirstFrontier(sp: Space, modules: seq<ModuleInfo>, caps: Caps)
    requires ValidSpace(sp)
    ensures Between(sp, modules, caps, [Candidate(sp.target, [])], 0, Progress({sp.target}, [], [], false))
  {
  }

  /**
   The scan. Every chain it reports is sound; with full reads and no cap hit it reports them all, and caps as large as
   the number of mapped addresses are never hit.
   */
  method Scan(sp: Space, modules: seq<ModuleInfo>, caps: Caps) returns (results: seq<Chain>, truncated: bool)
    requires ValidSpace(sp)
    ensures |results| <= caps.maxResults
    ensures forall r :: r in results ==> ChainSound(sp, modules, r, caps.maxDepth)
    ensures UniqueModules(modules) ==>
              forall r :: r in results ==> Resolved(sp.mem, sp.width, r, modules) == Some(sp.target)
    ensures FullReads(sp) && !truncated ==> Complete(sp, modules, results, caps.maxDepth)
    ensures Roomy(sp, caps) ==> !truncated
  {
    var frontier := [Candidate(sp.target, [])];
    var now := Progress({sp.target}, [], [], false);
    var depth := 0;
    FirstFrontier(sp, modules, caps);
    while depth < caps.maxDepth && frontier != []
      invariant 0 <= depth <= caps.maxDepth
      invariant Between(sp, modules, caps, frontier, depth, now) && (Roomy(sp, caps) ==> !now.truncated)
      decreases caps.maxDepth - depth
    {
      now := ScanDepth(sp, modules, caps, frontier, depth, now);
      frontier := now.next;
      depth := depth + 1;
    }
    results, truncated := now.results, now.truncated;
    ScanEnds(sp, modules, caps, frontier, depth, now);
  }

  /** The rescan: the chains that still resolve to the new target, in order. */
  function StillResolving(mem: Memory, width: nat, modules: seq<ModuleInfo>, chains: seq<Chain>, target: int)
    : seq<Chain>
  {
    if chains == [] then []
    else (if Resolved(mem, width, chains[0], modules) == Some(target) then [chains[0]] else [])
         + StillResolving(mem, width, modules, chains[1..], target)
  }

  lemma FilterStep(mem: Memory, width: nat, modules: seq<ModuleInfo>, chains: seq<Chain>, i: nat, target: int)
    requires i < |chains|
    ensures var rest := StillResolving(mem, width, modules, chains[i + 1..], target);
            StillResolving(mem, width, modules, chains[i..], target)
            == if Resolved(mem, width, chains[i], modules) == Some(target) then [chains[i]] + rest else rest
  {
    SuffixStep(chains, i);
  }

  method Filter(mem: Memory, width: nat, modules: seq<ModuleInfo>, chains: seq<Chain>, target: int)
    returns (kept: seq<Chain>)
    ensures kept == StillResolving(mem, width, modules, chains, target)
  {
    kept := [];
    for i := 0 to |chains|
      invariant kept + StillResolving(mem, width, modules, chains[i..], target)
                == StillResolving(mem, width, modules, chains, target)
    {
      FilterStep(mem, width, modules, chains, i, target);
      Associate(kept, [chains[i]], StillResolving(mem, width, modules, chains[i + 1..], target));
      var resolved := ResolveChain(mem, width, chains[i], modules);
      if resolved == Some(target) {
        kept := kept + [chains[i]];
      }
    }
    assert chains[|chains|..] == [] && kept + [] == kept;
  }

  /** A rescan on unchanged memory for the scan's own target drops nothing. */
  lemma {:induction false} RescanKeepsSoundChains(
    sp: Space, modules: seq<ModuleInfo>, chains: seq<Chain>, maxDepth: nat)
    requires ValidSpace(sp) && UniqueModules(modules)
    requires forall r :: r in chains ==> ChainSound(sp, modules, r, maxDepth)
    ensures StillResolving(sp.mem, sp.width, modules, chains, sp.target) == chains
    decreases chains
  {
    if chains != [] {
      SoundChainResolves(sp, modules, chains[0], maxDepth);
      RescanKeepsSoundChains(sp, modules, chains[1..], maxDepth);
    }
  }
}
