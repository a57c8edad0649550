/** The sorted index of readable memory that answers "could this number be a pointer?" by binary search. */
module RegionIndex {

  const FIRST_ADDRESS := 0x1_0000

  datatype Region = Region(base: int, size: nat, committed: bool, readable: bool)

  datatype Range = Range(first: int, last: int)

  predicate Less(a: Range, b: Range) { a.first < b.first || (a.first == b.first && a.last < b.last) }

  function Insert(r: Range, sorted: seq<Range>): seq<Range>
  {
    if sorted == [] || Less(r, sorted[0]) then [r] + sorted else [sorted[0]] + Insert(r, sorted[1..])
  }

  /** The committed, readable ranges, sorted. */
  function Build(regions: seq<Region>): seq<Range>
  {
    if regions == [] then []
    else
      var last := regions[|regions| - 1];
      var before := Build(regions[..|regions| - 1]);
      if last.committed && last.readable then Insert(Range(last.base, last.base + last.size), before) else before
  }

  predicate Holds(r: Range, address: int) { r.first <= address < r.last }

  /** Somewhere in the target's readable memory, found by looking at every region. */
  predicate Readable(regions: seq<Region>, address: int)
  {
    exists r | r in regions :: r.committed && r.readable && r.base <= address < r.base + r.size
  }

  predicate Before(a: Range, b: Range) { a.last <= b.first }

  /** No two regions share an address, and none is empty. */
  ghost predicate Disjoint(regions: seq<Region>)
  {
    && (forall i :: 0 <= i < |regions| ==> regions[i].size > 0)
    && (forall i, j :: 0 <= i < j < |regions| ==> Separate(regions[i], regions[j]))
  }

  predicate Separate(a: Region, b: Region) { a.base + a.size <= b.base || b.base + b.size <= a.base }

  ghost predicate Indexed(ranges: seq<Range>)
  {
    && (forall i :: 0 <= i < |ranges| ==> ranges[i].first < ranges[i].last)
    && (forall i, j :: 0 <= i < j < |ranges| ==> Before(ranges[i], ranges[j]))
  }

  lemma {:induction false} InsertIndexed(r: Range, sorted: seq<Range>)
    requires Indexed(sorted) && r.first < r.last
    requires forall s :: s in sorted ==> Before(s, r) || Before(r, s)
    ensures Indexed(Insert(r, sorted))
    ensures forall x :: x in Insert(r, sorted) <==> x == r || x in sorted
  {
    if sorted != [] {
      assert sorted[0] in sorted && sorted == [sorted[0]] + sorted[1..];
      forall s | s in sorted[1..] ensures Before(sorted[0], s) {
        var j :| 0 <= j < |sorted[1..]| && sorted[1..][j] == s;
        assert sorted[j + 1] == s;
      }
      if Less(r, sorted[0]) {
        assert Before(r, sorted[0]);
      } else {
        InsertIndexed(r, sorted[1..]);
        var rest := Insert(r, sorted[1..]);
        forall j | 0 <= j < |rest| ensures Before(sorted[0], rest[j]) { assert rest[j] in rest; }
      }
    }
  }

  predicate Indexes(r: Range, regions: seq<Region>)
  {
    exists g | g in regions :: g.committed && g.readable && r == Range(g.base, g.base + g.size)
  }

  /** The index of disjoint regions is in order and holds exactly the readable ones. */
  lemma {:induction false} BuildIndexes(regions: seq<Region>)
    requires Disjoint(regions)
    ensures Indexed(Build(regions))
    ensures forall r :: r in Build(regions) <==> Indexes(r, regions)
  {
    if regions != [] {
      var front, last := regions[..|regions| - 1], regions[|regions| - 1];
      assert regions == front + [last];
      BuildIndexes(front);
      var range := Range(last.base, last.base + last.size);
      if last.committed && last.readable {
        forall s | s in Build(front) ensures Before(s, range) || Before(range, s) {
          var g :| g in front && g.committed && g.readable && s == Range(g.base, g.base + g.size);
          var j :| 0 <= j < |front| && front[j] == g;
          assert Separate(regions[j], regions[|front|]);
        }
        InsertIndexed(range, Build(front));
      }
    }
  }

  /** The range after which the address would be inserted, found by halving, is the only one that can hold it. */
  method Contains(ranges: seq<Range>, address: int) returns (found: bool)
    requires Indexed(ranges)
    ensures found <==> address >= FIRST_ADDRESS && exists r | r in ranges :: Holds(r, address)
  {
    if address < FIRST_ADDRESS {
      return false;
    }
    var low, high := 0, |ranges|;
    while low < high
      invariant 0 <= low <= high <= |ranges|
      invariant forall i :: 0 <= i < low ==> ranges[i].first <= address
      invariant forall i :: high <= i < |ranges| ==> address < ranges[i].first
    {
      var mid := (low + high) / 2;
      if address < ranges[mid].first {
        forall i | mid <= i < |ranges| ensures address < ranges[i].first {
          assert i == mid || Before(ranges[mid], ranges[i]);
        }
        high := mid;
      } else {
        forall i | 0 <= i < mid ensures ranges[i].first <= address {
          assert Before(ranges[i], ranges[mid]);
        }
        low := mid + 1;
      }
    }
    if low == 0 {
      return false;
    }
    found := Holds(ranges[low - 1], address);
    if r :| r in ranges && Holds(r, address) {
      var i :| 0 <= i < |ranges| && ranges[i] == r;
      assert i < low - 1 ==> Before(ranges[i], ranges[low - 1]);
    }
  }

  /** Over disjoint regions the binary search is the linear one, except in the first 64 KiB. */
  method LooksUp(regions: seq<Region>, address: int) returns (found: bool)
    requires Disjoint(regions)
    ensures found <==> address >= FIRST_ADDRESS && Readable(regions, address)
  {
    BuildIndexes(regions);
    var ranges := Build(regions);
    found := Contains(ranges, address);
    if Readable(regions, address) {
      var g :| g in regions && g.committed && g.readable && g.base <= address < g.base + g.size;
      assert Indexes(Range(g.base, g.base + g.size), regions);
      assert Holds(Range(g.base, g.base + g.size), address);
    }
  }
}
