/**
 The chunked memory scans. A region is read in 1 MiB chunks, each read running a little past its chunk so that
 a value straddling the edge is seen, and only matches that start inside the chunk are kept. A read may return
 fewer bytes than it asked for. What a candidate is tested for is any function of its bytes.
 */
module MemoryScanner {
  import opened Common

  const CHUNK := 0x10_0000

  type Test = seq<Byte> -> bool

  // A region's bytes, and how many bytes the read at each chunk's offset returns when it is cut short.
  datatype Region = Region(base: int, data: seq<Byte>, returned: nat -> nat, eligible: bool)

  datatype Found = Found(address: int, value: seq<Byte>)

  // What to look for: a width, a stride and a test.
  datatype Probe = Probe(width: nat, stride: nat, test: Test)

  predicate Valid(p: Probe) { p.width > 0 && p.stride in {1, 2, 4, 8} }

  predicate OnStride(stride: nat, i: nat)
  {
    match stride
    case 1 => true
    case 2 => i % 2 == 0
    case 4 => i % 4 == 0
    case _ => i % 8 == 0
  }

  lemma OnStrideIsMultiple(stride: nat, i: nat)
    requires stride in {1, 2, 4, 8}
    ensures OnStride(stride, i) <==> i % stride == 0
  {
  }

  function ChunkOf(i: nat): nat { i / CHUNK * CHUNK }

  /** What the read for the chunk at this offset asks for. */
  function Asked(r: Region, width: nat, offset: nat): nat
    requires width > 0 && offset <= |r.data|
  {
    Min(Min(CHUNK, |r.data| - offset) + width - 1, |r.data| - offset)
  }

  function Chunk(r: Region, width: nat, offset: nat): (buffer: seq<Byte>)
    requires width > 0 && offset <= |r.data|
    ensures |buffer| == Min(r.returned(offset), Asked(r, width, offset))
  {
    r.data[offset..offset + Min(r.returned(offset), Asked(r, width, offset))]
  }

  predicate FullReads(r: Region)
  {
    forall offset: nat | offset % CHUNK == 0 && offset < |r.data| :: r.returned(offset) >= |r.data| - offset
  }

  /** A naive scan's test at one position. */
  predicate Hit(r: Region, p: Probe, i: nat)
  {
    OnStride(p.stride, i) && i + p.width <= |r.data| && p.test(r.data[i..i + p.width])
  }

  /** The read of its own chunk brought in all of the candidate at i. */
  predicate Visible(r: Region, p: Probe, i: nat)
  {
    i + p.width <= ChunkOf(i) + r.returned(ChunkOf(i))
  }

  /** The hits before position n, left to right, one position at a time. */
  function Naive(r: Region, p: Probe, n: nat): seq<nat>
  {
    if n == 0 then [] else Naive(r, p, n - 1) + if Hit(r, p, n - 1) then [n - 1] else []
  }

  /** The same, keeping only what the chunked reads bring in. */
  function Seen(r: Region, p: Probe, n: nat): seq<nat>
  {
    if n == 0 then []
    else Seen(r, p, n - 1) + if Hit(r, p, n - 1) && Visible(r, p, n - 1) then [n - 1] else []
  }

  function Take<T>(s: seq<T>, max: nat): seq<T> { if |s| <= max then s else s[..max] }

  lemma {:induction false} SeenSkips(r: Region, p: Probe, m: nat, n: nat)
    requires m <= n && forall i: nat :: m <= i < n ==> !(Hit(r, p, i) && Visible(r, p, i))
    ensures Seen(r, p, n) == Seen(r, p, m)
    decreases n
  {
    if m < n { SeenSkips(r, p, m, n - 1); }
  }

  lemma {:induction false} SeenGrows(r: Region, p: Probe, m: nat, n: nat)
    requires m <= n
    ensures Seen(r, p, m) <= Seen(r, p, n)
    decreases n
  {
    if m < n { SeenGrows(r, p, m, n - 1); }
  }

  lemma {:induction false} SeenExactly(r: Region, p: Probe, n: nat)
    ensures forall i: nat :: i in Seen(r, p, n) <==> i < n && Hit(r, p, i) && Visible(r, p, i)
    ensures forall j, k :: 0 <= j < k < |Seen(r, p, n)| ==> Seen(r, p, n)[j] < Seen(r, p, n)[k]
  {
    if n > 0 {
      SeenExactly(r, p, n - 1);
      var prior := Seen(r, p, n - 1);
      forall k | 0 <= k < |prior| ensures prior[k] < n - 1 {
        assert prior[k] in prior;
      }
    }
  }

  lemma {:induction false} NaiveExactly(r: Region, p: Probe, n: nat)
    ensures forall i: nat :: i in Naive(r, p, n) <==> i < n && Hit(r, p, i)
  {
    if n > 0 {
      NaiveExactly(r, p, n - 1);
    }
  }

  /** With full reads nothing is missed at a chunk's edge: a candidate is never longer than its chunk's overlap. */
  lemma {:induction false} FullReadsSeeEverything(r: Region, p: Probe, n: nat)
    requires FullReads(r) && p.width > 0
    ensures Seen(r, p, n) == Naive(r, p, n)
  {
    if n > 0 {
      FullReadsSeeEverything(r, p, n - 1);
      if Hit(r, p, n - 1) {
        assert ChunkOf(n - 1) % CHUNK == 0 && ChunkOf(n - 1) < |r.data|;
      }
    }
  }

  lemma NextChunk(offset: nat, n: nat)
    requires offset % CHUNK == 0 && offset < n
    ensures (offset + CHUNK) % CHUNK == 0
    ensures Min(offset, n) == offset && Min(offset + CHUNK, n) == offset + Min(CHUNK, n - offset)
  {
  }

  lemma ChunkOfInside(offset: nat, i: nat)
    requires offset % CHUNK == 0 && offset <= i < offset + CHUNK
    ensures ChunkOf(i) == offset
  {
  }

  lemma StrideSkips(stride: nat, i: nat, k: nat)
    requires stride in {1, 2, 4, 8} && OnStride(stride, i) && i < k < i + stride
    ensures !OnStride(stride, k)
  {
  }

  lemma StrideSteps(stride: nat, i: nat)
    requires stride in {1, 2, 4, 8} && OnStride(stride, i)
    ensures OnStride(stride, i + stride)
  {
  }

  /** Inside a chunk the candidates the buffer holds are exactly the visible positions. */
  lemma BufferHolds(r: Region, p: Probe, offset: nat, i: nat)
    requires Valid(p) && offset % CHUNK == 0 && offset < |r.data|
    requires i < Min(CHUNK, |r.data| - offset)
    ensures i + p.width <= |Chunk(r, p.width, offset)|
            <==> Visible(r, p, offset + i) && offset + i + p.width <= |r.data|
    ensures i + p.width <= |Chunk(r, p.width, offset)| ==>
              Chunk(r, p.width, offset)[i..i + p.width] == r.data[offset + i..offset + i + p.width]
  {
    ChunkOfInside(offset, offset + i);
  }

  // --- One buffer ----------------------------------------------------------------------------------

  predicate HitIn(buffer: seq<Byte>, p: Probe, i: nat)
  {
    OnStride(p.stride, i) && i + p.width <= |buffer| && p.test(buffer[i..i + p.width])
  }

  /** The hits before position n of a buffer. */
  function Scanned(buffer: seq<Byte>, p: Probe, n: nat): seq<nat>
  {
    if n == 0 then [] else Scanned(buffer, p, n - 1) + if HitIn(buffer, p, n - 1) then [n - 1] else []
  }

  function Plus(offset: int, positions: seq<nat>): (moved: seq<int>)
    ensures |moved| == |positions|
  {
    seq(|positions|, k requires 0 <= k < |positions| => offset + positions[k])
  }

  lemma PlusAppend(offset: int, positions: seq<nat>, i: nat)
    ensures Plus(offset, positions + [i]) == Plus(offset, positions) + [offset + i]
  {
  }

  lemma PlusJoins(base: int, offset: int, s: seq<nat>, t: seq<nat>, joined: seq<nat>)
    requires joined == s + Plus(offset, t)
    ensures Plus(base, joined) == Plus(base, s) + Plus(base + offset, t)
  {
  }

  lemma OnStrideShift(stride: nat, m: nat, i: nat)
    requires stride in {1, 2, 4, 8}
    ensures OnStride(stride, 8 * m + i) == OnStride(stride, i)
  {
  }

  lemma ChunkIsMultiple(offset: nat) returns (m: nat)
    requires offset % CHUNK == 0
    ensures offset == 8 * m
  {
    m := 131072 * (offset / CHUNK);
  }

  lemma OnStrideInChunk(stride: nat, offset: nat, i: nat)
    requires stride in {1, 2, 4, 8} && offset % CHUNK == 0
    ensures OnStride(stride, offset + i) == OnStride(stride, i)
  {
    var m := ChunkIsMultiple(offset);
    OnStrideShift(stride, m, i);
  }

  lemma HitInBuffer(r: Region, p: Probe, offset: nat, i: nat)
    requires Valid(p) && offset % CHUNK == 0 && offset < |r.data| && i < Min(CHUNK, |r.data| - offset)
    ensures HitIn(Chunk(r, p.width, offset), p, i) <==> Hit(r, p, offset + i) && Visible(r, p, offset + i)
  {
    BufferHolds(r, p, offset, i);
    OnStrideInChunk(p.stride, offset, i);
  }

  /** Scanning a chunk's buffer finds the region's hits in that chunk, each at its own offset. */
  lemma {:induction false} ScannedIsSeen(r: Region, p: Probe, offset: nat, n: nat)
    requires Valid(p) && offset % CHUNK == 0 && offset < |r.data| && n <= Min(CHUNK, |r.data| - offset)
    ensures Seen(r, p, offset + n) == Seen(r, p, offset) + Plus(offset, Scanned(Chunk(r, p.width, offset), p, n))
  {
    if n > 0 {
      var buffer := Chunk(r, p.width, offset);
      ScannedIsSeen(r, p, offset, n - 1);
      HitInBuffer(r, p, offset, n - 1);
      PlusAppend(offset, Scanned(buffer, p, n - 1), n - 1);
    }
  }

  lemma {:induction false} ScannedSkips(buffer: seq<Byte>, p: Probe, m: nat, n: nat)
    requires m <= n && forall i: nat :: m <= i < n ==> !HitIn(buffer, p, i)
    ensures Scanned(buffer, p, n) == Scanned(buffer, p, m)
    decreases n
  {
    if m < n { ScannedSkips(buffer, p, m, n - 1); }
  }

  /** Positions the buffer cannot hold, or that no stride reaches, hold nothing. */
  lemma ScannedTail(buffer: seq<Byte>, p: Probe, m: nat, n: nat)
    requires m <= n && m + p.width > |buffer|
    ensures Scanned(buffer, p, n) == Scanned(buffer, p, m)
  {
    ScannedSkips(buffer, p, m, n);
  }

  lemma {:induction false} ScannedGrows(buffer: seq<Byte>, p: Probe, m: nat, n: nat)
    requires m <= n
    ensures Scanned(buffer, p, m) <= Scanned(buffer, p, n)
    decreases n
  {
    if m < n { ScannedGrows(buffer, p, m, n - 1); }
  }

  lemma {:induction false} ScannedHits(buffer: seq<Byte>, p: Probe, n: nat)
    ensures forall i :: i in Scanned(buffer, p, n) ==> 0 <= i < n && HitIn(buffer, p, i)
  {
    if n > 0 { ScannedHits(buffer, p, n - 1); }
  }

  // --- findPattern ---------------------------------------------------------------------------------

  predicate MaskedEqual(candidate: seq<Byte>, expected: seq<Byte>, mask: seq<Byte>)
    requires |candidate| >= |expected|
  {
    if |mask| == |expected| then forall i :: 0 <= i < |expected| ==> mask[i] == 0 || candidate[i] == expected[i]
    else candidate[..|expected|] == expected
  }

  /** The pattern matches itself, and a byte of a match may be changed exactly where the mask is zero. */
  lemma MaskDecides(candidate: seq<Byte>, expected: seq<Byte>, mask: seq<Byte>, i: nat, b: Byte)
    requires |candidate| == |expected| == |mask| && i < |mask| && b != expected[i]
    ensures MaskedEqual(expected, expected, mask)
    ensures MaskedEqual(candidate, expected, mask) ==>
              (MaskedEqual(candidate[i := b], expected, mask) <==> mask[i] == 0)
  {
    var changed := candidate[i := b];
    assert changed[i] == b && forall k :: 0 <= k < |candidate| && k != i ==> changed[k] == candidate[k];
  }

  /** Without a mask of the pattern's length only the pattern itself matches. */
  lemma UnmaskedIsEqual(candidate: seq<Byte>, expected: seq<Byte>, mask: seq<Byte>)
    requires |candidate| == |expected| && (|mask| != |expected| || forall i :: 0 <= i < |mask| ==> mask[i] != 0)
    ensures MaskedEqual(candidate, expected, mask) <==> candidate == expected
  {
  }

  /** Zero mask bytes are wildcards; a mask of another length is no mask. */
  method MatchesPattern(candidate: seq<Byte>, expected: seq<Byte>, mask: seq<Byte>) returns (matched: bool)
    requires |candidate| >= |expected|
    ensures matched == MaskedEqual(candidate, expected, mask)
  {
    if |mask| != |expected| {
      return candidate[..|expected|] == expected;
    }
    for i := 0 to |expected|
      invariant forall k :: 0 <= k < i ==> mask[k] == 0 || candidate[k] == expected[k]
    {
      if mask[i] != 0 && candidate[i] != expected[i] {
        return false;
      }
    }
    return true;
  }

  function PatternProbe(bytes: seq<Byte>, mask: seq<Byte>): Probe
  {
    Probe(|bytes|, 1, candidate => |candidate| >= |bytes| && MaskedEqual(candidate, bytes, mask))
  }

  lemma PatternHit(buffer: seq<Byte>, bytes: seq<Byte>, mask: seq<Byte>, i: nat)
    requires i + |bytes| <= |buffer|
    ensures HitIn(buffer, PatternProbe(bytes, mask), i) == MaskedEqual(buffer[i..i + |bytes|], bytes, mask)
  {
  }

  /** The search's answer after n positions: the first max addresses. */
  function Matched(r: Region, p: Probe, max: nat, n: nat): seq<int>
  {
    Take(Plus(r.base, Seen(r, p, n)), max)
  }

  lemma StoppedEarly(buffer: seq<Byte>, base: int, p: Probe, i: nat, limit: nat, max: nat, before: seq<int>)
    requires i <= limit && |before + Plus(base, Scanned(buffer, p, i))| <= max
    requires i == limit || |before + Plus(base, Scanned(buffer, p, i))| == max
    ensures Take(before + Plus(base, Scanned(buffer, p, limit)), max) == before + Plus(base, Scanned(buffer, p, i))
  {
    ScannedGrows(buffer, p, i, limit);
  }

  /** The candidates of one buffer, until they or the room for results run out. */
  method SearchBuffer(buffer: seq<Byte>, base: int, bytes: seq<Byte>, mask: seq<Byte>, limit: nat, max: nat,
                      before: seq<int>)
    returns (matches: seq<int>)
    requires |before| <= max && limit + |bytes| <= |buffer| + 1
    ensures matches == Take(before + Plus(base, Scanned(buffer, PatternProbe(bytes, mask), limit)), max)
  {
    ghost var p := PatternProbe(bytes, mask);
    matches := before;
    var i: nat := 0;
    while i < limit && |matches| < max
      invariant i <= limit && |matches| <= max
      invariant matches == before + Plus(base, Scanned(buffer, p, i))
    {
      var matched := MatchesPattern(buffer[i..i + |bytes|], bytes, mask);
      PatternHit(buffer, bytes, mask, i);
      PlusAppend(base, Scanned(buffer, p, i), i);
      if matched {
        matches := matches + [base + i];
      }
      i := i + 1;
    }
    StoppedEarly(buffer, base, p, i, limit, max, before);
  }

  lemma TakeAppend<T>(s: seq<T>, t: seq<T>, max: nat)
    ensures Take(Take(s, max) + t, max) == Take(s + t, max)
  {
  }

  /** One chunk's hits, from its buffer, complete the region's hits up to the chunk's end. */
  lemma ChunkSeen(r: Region, p: Probe, offset: nat, limit: nat)
    requires Valid(p) && offset % CHUNK == 0 && offset < |r.data| && limit <= Min(CHUNK, |r.data| - offset)
    requires limit == Min(CHUNK, |r.data| - offset) || limit + p.width > |Chunk(r, p.width, offset)|
    ensures Seen(r, p, offset + Min(CHUNK, |r.data| - offset))
            == Seen(r, p, offset) + Plus(offset, Scanned(Chunk(r, p.width, offset), p, limit))
  {
    var span := Min(CHUNK, |r.data| - offset);
    if limit < span { ScannedTail(Chunk(r, p.width, offset), p, limit, span); }
    ScannedIsSeen(r, p, offset, span);
  }

  /** What one more chunk adds to the answer. */
  lemma ChunkAdds(r: Region, p: Probe, max: nat, offset: nat, limit: nat)
    requires Valid(p) && offset % CHUNK == 0 && offset < |r.data| && limit <= Min(CHUNK, |r.data| - offset)
    requires limit == Min(CHUNK, |r.data| - offset) || limit + p.width > |Chunk(r, p.width, offset)|
    ensures Take(Matched(r, p, max, offset) + Plus(r.base + offset, Scanned(Chunk(r, p.width, offset), p, limit)), max)
            == Matched(r, p, max, offset + Min(CHUNK, |r.data| - offset))
  {
    var more := Scanned(Chunk(r, p.width, offset), p, limit);
    ChunkSeen(r, p, offset, limit);
    PlusJoins(r.base, offset, Seen(r, p, offset), more, Seen(r, p, offset + Min(CHUNK, |r.data| - offset)));
    TakeAppend(Plus(r.base, Seen(r, p, offset)), Plus(r.base + offset, more), max);
  }

  lemma MatchedFull(r: Region, p: Probe, max: nat, m: nat, n: nat)
    requires m <= n && |Matched(r, p, max, m)| >= max
    ensures Matched(r, p, max, n) == Matched(r, p, max, m)
  {
    SeenGrows(r, p, m, n);
  }

  /** One chunk of a pattern search: from the matches before it to the matches up to its end. */
  method SearchChunk(r: Region, bytes: seq<Byte>, mask: seq<Byte>, max: nat, offset: nat, before: seq<int>)
    returns (matches: seq<int>)
    requires bytes != [] && offset % CHUNK == 0 && offset < |r.data|
    requires before == Matched(r, PatternProbe(bytes, mask), max, offset)
    ensures matches == Matched(r, PatternProbe(bytes, mask), max, offset + Min(CHUNK, |r.data| - offset))
  {
    var buffer := Chunk(r, |bytes|, offset);
    var limit := if |buffer| < |bytes| then 0 else Min(Min(CHUNK, |r.data| - offset), |buffer| - |bytes| + 1);
    ChunkAdds(r, PatternProbe(bytes, mask), max, offset, limit);
    if |buffer| < |bytes| {
      return before;
    }
    matches := SearchBuffer(buffer, r.base + offset, bytes, mask, limit, max, before);
  }

  /** A search may stop where nothing more fits or nothing more is wanted. */
  lemma SearchDone(r: Region, p: Probe, max: nat, n: nat)
    requires n <= |r.data| && (n + p.width > |r.data| || |Matched(r, p, max, n)| >= max)
    ensures Matched(r, p, max, |r.data|) == Matched(r, p, max, n)
  {
    if n + p.width > |r.data| {
      SeenSkips(r, p, n, |r.data|);
    } else {
      MatchedFull(r, p, max, n, |r.data|);
    }
  }

  /** The first max matches of a position-by-position search, as far as the reads reach. */
  method FindPattern(r: Region, bytes: seq<Byte>, mask: seq<Byte>, max: nat) returns (matches: seq<int>)
    ensures bytes == [] ==> matches == []
    ensures bytes != [] ==> matches == Matched(r, PatternProbe(bytes, mask), max, |r.data|)
  {
    matches := [];
    if bytes == [] {
      return;
    }
    ghost var p := PatternProbe(bytes, mask);
    var offset := 0;
    while offset + |bytes| <= |r.data| && |matches| < max
      invariant offset % CHUNK == 0
      invariant matches == Matched(r, p, max, Min(offset, |r.data|))
      decreases |r.data| - offset
    {
      matches := SearchChunk(r, bytes, mask, max, offset, matches);
      NextChunk(offset, |r.data|);
      offset := offset + CHUNK;
    }
    SearchDone(r, p, max, Min(offset, |r.data|));
  }

  // --- First scan ----------------------------------------------------------------------------------

  function FoundIn(bytes: seq<Byte>, base: int, p: Probe, i: int): Found
  {
    Found(base + i, if 0 <= i && i + p.width <= |bytes| then bytes[i..i + p.width] else [])
  }

  function Results(bytes: seq<Byte>, base: int, p: Probe, positions: seq<int>): (found: seq<Found>)
    ensures |found| == |positions|
  {
    seq(|positions|, k requires 0 <= k < |positions| => FoundIn(bytes, base, p, positions[k]))
  }

  /** What the first k regions hold, in order. */
  function AllFound(regions: seq<Region>, p: Probe, k: nat): seq<Found>
    requires k <= |regions|
  {
    if k == 0 then []
    else
      var r := regions[k - 1];
      AllFound(regions, p, k - 1) + if r.eligible then RegionFound(r, p, |r.data|) else []
  }

  function RegionFound(r: Region, p: Probe, n: nat): seq<Found>
  {
    Results(r.data, r.base, p, Seen(r, p, n))
  }

  lemma ResultsAppend(bytes: seq<Byte>, base: int, p: Probe, s: seq<int>, i: nat)
    requires i + p.width <= |bytes|
    ensures Results(bytes, base, p, s + [i]) == Results(bytes, base, p, s) + [Found(base + i, bytes[i..i + p.width])]
  {
  }

  /** The candidates of one buffer, a stride at a time. */
  method ScanBuffer(buffer: seq<Byte>, base: int, p: Probe, limit: nat) returns (batch: seq<Found>)
    requires Valid(p) && limit + p.width <= |buffer| + 1
    ensures batch == Results(buffer, base, p, Scanned(buffer, p, limit))
  {
    batch := [];
    var i: nat := 0;
    assert OnStride(p.stride, 0);
    while i < limit
      invariant OnStride(p.stride, i) && i < limit + p.stride
      invariant batch == Results(buffer, base, p, Scanned(buffer, p, Min(i, limit)))
    {
      StrideScans(buffer, p, i, limit);
      StrideSteps(p.stride, i);
      ResultsAppend(buffer, base, p, Scanned(buffer, p, i), i);
      if p.test(buffer[i..i + p.width]) {
        batch := batch + [Found(base + i, buffer[i..i + p.width])];
      }
      i := i + p.stride;
    }
  }

  /** A stride forward adds at most the candidate it started from. */
  lemma StrideScans(buffer: seq<Byte>, p: Probe, i: nat, limit: nat)
    requires Valid(p) && OnStride(p.stride, i) && i < limit && limit + p.width <= |buffer| + 1
    ensures Scanned(buffer, p, Min(i + p.stride, limit))
            == Scanned(buffer, p, i) + if p.test(buffer[i..i + p.width]) then [i] else []
  {
    forall k: nat | i + 1 <= k < Min(i + p.stride, limit)
      ensures !HitIn(buffer, p, k)
    {
      StrideSkips(p.stride, i, k);
    }
    ScannedSkips(buffer, p, i + 1, Min(i + p.stride, limit));
  }

  lemma ResultsJoin(bytes: seq<Byte>, base: int, p: Probe, s: seq<int>, t: seq<int>, joined: seq<int>)
    requires joined == s + t
    ensures Results(bytes, base, p, joined) == Results(bytes, base, p, s) + Results(bytes, base, p, t)
  {
  }

  lemma SliceOfSlice<T>(s: seq<T>, a: nat, b: nat, i: nat, j: nat)
    requires a <= b <= |s| && i <= j <= b - a
    ensures s[a..b][i..j] == s[a + i..a + j]
  {
    var cut, whole := s[a..b][i..j], s[a + i..a + j];
    forall k | 0 <= k < j - i ensures cut[k] == whole[k] {
      assert cut[k] == s[a..b][i + k] == s[a + (i + k)];
    }
  }

  /** A hit's bytes are the same read from its chunk's buffer or from the region. */
  lemma ChunkResults(r: Region, p: Probe, offset: nat, hits: seq<nat>)
    requires Valid(p) && offset < |r.data|
    requires forall i :: i in hits ==> i + p.width <= |Chunk(r, p.width, offset)|
    ensures Results(r.data, r.base, p, Plus(offset, hits))
            == Results(Chunk(r, p.width, offset), r.base + offset, p, hits)
  {
    var buffer := Chunk(r, p.width, offset);
    forall k | 0 <= k < |hits|
      ensures FoundIn(r.data, r.base, p, offset + hits[k]) == FoundIn(buffer, r.base + offset, p, hits[k])
    {
      var i := hits[k];
      assert i in hits;
      SliceOfSlice(r.data, offset, offset + |buffer|, i, i + p.width);
    }
  }

  lemma ChunkFound(r: Region, p: Probe, offset: nat, limit: nat)
    requires Valid(p) && offset % CHUNK == 0 && offset < |r.data| && limit <= Min(CHUNK, |r.data| - offset)
    requires limit == Min(CHUNK, |r.data| - offset) || limit + p.width > |Chunk(r, p.width, offset)|
    ensures var buffer := Chunk(r, p.width, offset);
            RegionFound(r, p, offset + Min(CHUNK, |r.data| - offset))
            == RegionFound(r, p, offset) + Results(buffer, r.base + offset, p, Scanned(buffer, p, limit))
  {
    var hits := Scanned(Chunk(r, p.width, offset), p, limit);
    ChunkSeen(r, p, offset, limit);
    ScannedHits(Chunk(r, p.width, offset), p, limit);
    ChunkResults(r, p, offset, hits);
    ResultsJoin(r.data, r.base, p, Seen(r, p, offset), Plus(offset, hits),
                Seen(r, p, offset + Min(CHUNK, |r.data| - offset)));
  }

  /** One chunk of a region: exactly what the region gains up to the chunk's end. */
  method ScanChunk(r: Region, p: Probe, offset: nat) returns (batch: seq<Found>)
    requires Valid(p) && offset % CHUNK == 0 && offset < |r.data|
    ensures RegionFound(r, p, offset + Min(CHUNK, |r.data| - offset)) == RegionFound(r, p, offset) + batch
  {
    var buffer := Chunk(r, p.width, offset);
    var limit := if |buffer| < p.width then 0 else Min(Min(CHUNK, |r.data| - offset), |buffer| - p.width + 1);
    ChunkFound(r, p, offset, limit);
    if |buffer| < p.width {
      return [];
    }
    batch := ScanBuffer(buffer, r.base + offset, p, limit);
  }

  /** Results so far, cut at the limit; full says a batch reached it. */
  ghost predicate Collected(all: seq<Found>, max: nat, results: seq<Found>, full: bool)
  {
    results == Take(all, max) && (full <==> all != [] && |all| >= max)
  }

  lemma CollectedStays(all: seq<Found>, more: seq<Found>, max: nat, results: seq<Found>)
    requires Collected(all, max, results, true) && all <= more
    ensures Collected(more, max, results, true)
  {
  }

  /** Adding a batch and cutting at the limit. */
  method Collect(batch: seq<Found>, max: nat, ghost all: seq<Found>, before: seq<Found>)
    returns (results: seq<Found>, full: bool)
    requires Collected(all, max, before, false)
    ensures Collected(all + batch, max, results, full)
  {
    results, full := before, false;
    if batch != [] {
      results := results + batch;
      if |results| >= max {
        results := results[..max];
        full := true;
      }
    }
  }

  lemma RegionGrows(r: Region, p: Probe, m: nat, n: nat)
    requires m <= n
    ensures RegionFound(r, p, m) <= RegionFound(r, p, n)
  {
    SeenGrows(r, p, m, n);
  }

  /** One region, chunk by chunk, until its end or the result limit. */
  method ScanRegion(r: Region, p: Probe, max: nat, ghost prior: seq<Found>, before: seq<Found>)
    returns (results: seq<Found>, full: bool)
    requires Valid(p) && Collected(prior, max, before, false)
    ensures Collected(prior + RegionFound(r, p, |r.data|), max, results, full)
  {
    results, full := before, false;
    var offset := 0;
    ghost var all := prior;
    while offset < |r.data| && !full
      invariant offset % CHUNK == 0
      invariant all == prior + RegionFound(r, p, Min(offset, |r.data|))
      invariant Collected(all, max, results, full)
      decreases |r.data| - offset
    {
      var batch := ScanChunk(r, p, offset);
      results, full := Collect(batch, max, all, results);
      NextChunk(offset, |r.data|);
      Regroup(prior, RegionFound(r, p, offset), batch, RegionFound(r, p, Min(offset + CHUNK, |r.data|)));
      all := all + batch;
      offset := offset + CHUNK;
    }
    if full {
      RegionGrows(r, p, Min(offset, |r.data|), |r.data|);
      CollectedStays(all, prior + RegionFound(r, p, |r.data|), max, results);
    }
  }

  lemma Regroup<T>(a: seq<T>, b: seq<T>, c: seq<T>, joined: seq<T>)
    requires joined == b + c
    ensures a + joined == a + b + c
  {
  }

  lemma {:induction false} AllGrows(regions: seq<Region>, p: Probe, m: nat, n: nat)
    requires m <= n <= |regions|
    ensures AllFound(regions, p, m) <= AllFound(regions, p, n)
    decreases n
  {
    if m < n { AllGrows(regions, p, m, n - 1); }
  }

  /**
   The first scan: the first max hits of every eligible region in order, as far as the reads reach, and
   whether there were so many that it stopped.
   */
  method ScanFirst(regions: seq<Region>, p: Probe, max: nat) returns (results: seq<Found>, truncated: bool)
    requires Valid(p)
    ensures results == Take(AllFound(regions, p, |regions|), max)
    ensures truncated <==> AllFound(regions, p, |regions|) != [] && |AllFound(regions, p, |regions|)| >= max
    ensures (forall r :: r in regions && r.eligible ==> FullReads(r))
            ==> results == Take(NaiveFound(regions, p, |regions|), max)
  {
    results, truncated := [], false;
    var k := 0;
    while k < |regions| && !truncated
      invariant 0 <= k <= |regions|
      invariant Collected(AllFound(regions, p, k), max, results, truncated)
    {
      if regions[k].eligible {
        results, truncated := ScanRegion(regions[k], p, max, AllFound(regions, p, k), results);
      }
      k := k + 1;
    }
    if truncated {
      AllGrows(regions, p, k, |regions|);
      CollectedStays(AllFound(regions, p, k), AllFound(regions, p, |regions|), max, results);
    }
    if forall r :: r in regions && r.eligible ==> FullReads(r) {
      FirstScanIsNaive(regions, p, |regions|);
    }
  }

  /** What a naive scan reports for a hit at i. */
  predicate IsHit(r: Region, p: Probe, i: nat, f: Found)
  {
    i in Naive(r, p, |r.data|) && i + p.width <= |r.data| && f == Found(r.base + i, r.data[i..i + p.width])
  }

  /** Within one region nothing is found twice, addresses ascend, and each is a genuine match of the naive scan. */
  lemma RegionResultsAscend(r: Region, p: Probe)
    ensures var found := RegionFound(r, p, |r.data|);
            && (forall j, k :: 0 <= j < k < |found| ==> found[j].address < found[k].address)
            && (forall f :: f in found ==> exists i: nat :: IsHit(r, p, i, f))
  {
    SeenExactly(r, p, |r.data|);
    NaiveExactly(r, p, |r.data|);
    var seen := Seen(r, p, |r.data|);
    var found := RegionFound(r, p, |r.data|);
    forall f | f in found
      ensures exists i: nat :: IsHit(r, p, i, f)
    {
      var k :| 0 <= k < |found| && found[k] == f;
      assert seen[k] in seen;
      assert IsHit(r, p, seen[k], f);
    }
  }

  /** With full reads the pattern search is the naive one, cut at the result limit. */
  lemma PatternSearchIsNaive(r: Region, bytes: seq<Byte>, mask: seq<Byte>, max: nat)
    requires bytes != [] && FullReads(r)
    ensures var p := PatternProbe(bytes, mask);
            Matched(r, p, max, |r.data|) == Take(Plus(r.base, Naive(r, p, |r.data|)), max)
  {
    FullReadsSeeEverything(r, PatternProbe(bytes, mask), |r.data|);
  }

  /** What a naive scan of the first k regions reports: every hit of every eligible one, in order. */
  function NaiveFound(regions: seq<Region>, p: Probe, k: nat): seq<Found>
    requires k <= |regions|
  {
    if k == 0 then []
    else
      var r := regions[k - 1];
      NaiveFound(regions, p, k - 1) + if r.eligible then Results(r.data, r.base, p, Naive(r, p, |r.data|)) else []
  }

  /** With full reads of the eligible regions, what the first scan collects is what the naive one reports. */
  lemma {:induction false} FirstScanIsNaive(regions: seq<Region>, p: Probe, k: nat)
    requires k <= |regions| && p.width > 0
    requires forall r :: r in regions && r.eligible ==> FullReads(r)
    ensures AllFound(regions, p, k) == NaiveFound(regions, p, k)
  {
    if k > 0 {
      FirstScanIsNaive(regions, p, k - 1);
      var r := regions[k - 1];
      if r.eligible { FullReadsSeeEverything(r, p, |r.data|); }
    }
  }

  /** A match is lost to a short read exactly when its own chunk's read stops before the match ends. */
  lemma LostExactly(r: Region, p: Probe, i: nat)
    requires i in Naive(r, p, |r.data|)
    ensures i in Seen(r, p, |r.data|) <==> i + p.width <= ChunkOf(i) + r.returned(ChunkOf(i))
  {
    SeenExactly(r, p, |r.data|);
    NaiveExactly(r, p, |r.data|);
  }
}
