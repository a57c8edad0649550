/** How far the answer depends on how the bytes arrive: prefixes, extensions and the receive loop. */
module McpReceive {
  import opened Common
  import opened McpHttp

  predicate OccursAt(s: string, text: string, i: nat)
  {
    i + |text| <= |s| && s[i..i + |text|] == text
  }

  /** FirstAt names the first occurrence, or says there is none. */
  lemma {:induction false} FirstAtExactly(s: string, text: string, from: nat)
    ensures var at := FirstAt(s, text, from);
            && (at.Some? ==> from <= at.value && OccursAt(s, text, at.value)
                             && forall i: nat :: from <= i < at.value ==> !OccursAt(s, text, i))
            && (at.None? ==> forall i: nat :: from <= i ==> !OccursAt(s, text, i))
    decreases |s| - from
  {
    if from + |text| <= |s| && s[from..from + |text|] != text { FirstAtExactly(s, text, from + 1); }
  }

  lemma OccursInPrefix(s: string, t: string, text: string, i: nat)
    requires s <= t && i + |text| <= |s|
    ensures OccursAt(s, text, i) == OccursAt(t, text, i)
  {
    assert t[..|s|] == s;
    assert s[i..i + |text|] == t[i..i + |text|];
  }

  /** A prefix has the same first occurrence when it reaches its end, and none when it does not. */
  lemma {:induction false} FirstAtInPrefix(s: string, t: string, text: string, from: nat)
    requires s <= t
    ensures var at := FirstAt(t, text, from);
            FirstAt(s, text, from) == if at.Some? && at.value + |text| <= |s| then at else None
    decreases |t| - from
  {
    if from + |text| <= |s| {
      OccursInPrefix(s, t, text, from);
      if s[from..from + |text|] != text { FirstAtInPrefix(s, t, text, from + 1); }
    }
  }

  function HeaderEnd(buffer: string): Option<nat> { FirstAt(buffer, HEAD_END, 0) }

  /** Once the header block is in, every further byte leaves its verdict as it was. */
  lemma ParseOfPrefix(p: string, s: string)
    requires p <= s && HeaderEnd(s).Some?
    ensures var h := HeaderEnd(s).value;
            ParseOf(p) == if |p| < h + 4 then (if |p| > HEADER_LIMIT then Malformed(431) else Incomplete)
                          else Finish(p, h, ReadHead(s[..h]))
  {
    FirstAtInPrefix(p, s, HEAD_END, 0);
    var h := HeaderEnd(s).value;
    if |p| >= h + 4 { assert p[..h] == s[..h]; }
  }

  lemma FinishOfPrefix(p: string, s: string, h: nat, head: Head)
    requires p <= s && h + 4 <= |p|
    ensures Finish(p, h, head) == Finish(s, h, head)
            || (Finish(p, h, head).Incomplete? && head.GoodHead? && |p| < h + 4 + head.length)
  {
    if head.GoodHead? && |p| >= h + 4 + head.length {
      assert p[h + 4..h + 4 + head.length] == s[h + 4..h + 4 + head.length];
    }
  }

  /** A complete request stays complete, the same and as long, whatever follows it. */
  lemma ExtensionsKeepTheRequest(s: string, more: string)
    requires ParseOf(s).Complete?
    ensures ParseOf(s + more) == ParseOf(s)
  {
    FirstAtInPrefix(s, s + more, HEAD_END, 0);
    FirstAtExactly(s, HEAD_END, 0);
    FirstAtExactly(s + more, HEAD_END, 0);
    var h := HeaderEnd(s).value;
    OccursInPrefix(s, s + more, HEAD_END, h);
    ParseOfPrefix(s, s + more);
    FinishOfPrefix(s, s + more, h, ReadHead((s + more)[..h]));
    ParseOfPrefix(s + more, s + more);
  }

  /**
   Every shorter prefix of a complete request is incomplete exactly when its header block and terminator fit
   the header limit with at most one byte to spare; the shortest prefixes that are refused lack only the last
   byte of the terminator.
   */
  lemma ShorterPrefixesAreIncomplete(s: string)
    requires ParseOf(s).Complete?
    ensures var n := ParseOf(s).consumed;
            && HeaderEnd(s).Some? && n <= |s|
            && ((forall k: nat :: k < n ==> ParseOf(s[..k]).Incomplete?) <==> HeaderEnd(s).value + 3 <= HEADER_LIMIT)
  {
    var h := HeaderEnd(s).value;
    var n := ParseOf(s).consumed;
    ParseOfPrefix(s, s);
    forall k: nat | k < n
      ensures ParseOf(s[..k]).Incomplete? <==> k <= HEADER_LIMIT || k >= h + 4
    {
      ParseOfPrefix(s[..k], s);
      if k >= h + 4 { FinishOfPrefix(s[..k], s, h, ReadHead(s[..h])); }
    }
    assert !ParseOf(s[..h + 3]).Incomplete? <==> h + 3 > HEADER_LIMIT;
  }

  // --- The receive loop ----------------------------------------------------------------------------

  function Joined(chunks: seq<string>): string
  {
    if chunks == [] then "" else chunks[0] + Joined(chunks[1..])
  }

  /** What one receive can return. */
  predicate Receivable(chunks: seq<string>)
  {
    forall c | c in chunks :: 1 <= |c| <= RECEIVE_SIZE
  }

  /** The first verdict that is not Incomplete, or Incomplete when the peer stops sending. */
  function Receive(buffer: string, chunks: seq<string>): Parse
    decreases chunks
  {
    if !ParseOf(buffer).Incomplete? || chunks == [] then ParseOf(buffer)
    else Receive(buffer + chunks[0], chunks[1..])
  }

  method HandleConnection(chunks: seq<string>) returns (parse: Parse)
    ensures parse == Receive("", chunks)
  {
    var buffer := "";
    parse := ParseHttpRequest(buffer);
    for k := 0 to |chunks|
      invariant parse == ParseOf(buffer) && parse.Incomplete?
      invariant Receive("", chunks) == Receive(buffer, chunks[k..])
    {
      assert chunks[k..][0] == chunks[k] && chunks[k..][1..] == chunks[k + 1..];
      buffer := buffer + chunks[k];
      parse := ParseHttpRequest(buffer);
      if !parse.Incomplete? {
        return;
      }
    }
  }

  /** What the whole stream is answered with when no split interferes. */
  function Answer(s: string): Parse
  {
    if HeaderEnd(s).Some? && HeaderEnd(s).value + 3 > HEADER_LIMIT then Malformed(431) else ParseOf(s)
  }

  /** No receive has to stop between the header limit and the end of the header block, or every one does. */
  predicate SplitSafe(s: string)
  {
    match HeaderEnd(s)
    case None => true
    case Some(h) => h + 3 <= HEADER_LIMIT || h + 4 > HEADER_LIMIT + RECEIVE_SIZE
  }

  lemma JoinStep(buffer: string, chunks: seq<string>)
    requires chunks != []
    ensures buffer + Joined(chunks) == (buffer + chunks[0]) + Joined(chunks[1..])
  {
  }

  /** Every prefix of a stream whose header block is in bounds is either incomplete or answers for the stream. */
  lemma PrefixAnswers(p: string, s: string)
    requires p <= s
    requires HeaderEnd(s).Some? ==> HeaderEnd(s).value + 3 <= HEADER_LIMIT
    ensures ParseOf(p).Incomplete? || ParseOf(p) == ParseOf(s)
  {
    if HeaderEnd(s).Some? {
      ParseOfPrefix(p, s);
      ParseOfPrefix(s, s);
      var h := HeaderEnd(s).value;
      if |p| >= h + 4 { FinishOfPrefix(p, s, h, ReadHead(s[..h])); }
    } else {
      FirstAtInPrefix(p, s, HEAD_END, 0);
    }
  }

  lemma {:induction false} InBoundsAnswers(buffer: string, chunks: seq<string>, s: string)
    requires s == buffer + Joined(chunks)
    requires HeaderEnd(s).Some? ==> HeaderEnd(s).value + 3 <= HEADER_LIMIT
    ensures Receive(buffer, chunks) == ParseOf(s)
    decreases chunks
  {
    PrefixAnswers(buffer, s);
    if ParseOf(buffer).Incomplete? && chunks != [] {
      JoinStep(buffer, chunks);
      InBoundsAnswers(buffer + chunks[0], chunks[1..], s);
    } else if chunks == [] {
      assert buffer == s;
    }
  }

  /** A header block that ends more than one receive past the limit is always caught on the way. */
  lemma {:induction false} FarOutAnswers(buffer: string, chunks: seq<string>, s: string)
    requires s == buffer + Joined(chunks) && Receivable(chunks) && |buffer| <= HEADER_LIMIT
    requires HeaderEnd(s).Some? && HeaderEnd(s).value + 4 > HEADER_LIMIT + RECEIVE_SIZE
    ensures Receive(buffer, chunks) == Malformed(431)
    decreases chunks
  {
    ParseOfPrefix(buffer, s);
    assert |s| > |buffer|;
    assert chunks == [] ==> s == buffer;
    assert chunks[0] in chunks;
    JoinStep(buffer, chunks);
    var next := buffer + chunks[0];
    if |next| <= HEADER_LIMIT {
      FarOutAnswers(next, chunks[1..], s);
    } else {
      ParseOfPrefix(next, s);
    }
  }

  /** A stream cut into equal pieces. */
  function Pieces(s: string, size: nat): (chunks: seq<string>)
    requires size > 0
    ensures forall c :: c in chunks ==> 1 <= |c| <= size
  {
    if s == "" then []
    else if |s| <= size then [s]
    else [s[..size]] + Pieces(s[size..], size)
  }

  lemma {:induction false} PiecesJoin(s: string, size: nat)
    requires size > 0
    ensures Joined(Pieces(s, size)) == s
    decreases |s|
  {
    if 0 < |s| <= size {
      assert Joined([s]) == s + Joined([]);
    } else if |s| > size {
      PiecesJoin(s[size..], size);
      assert s == s[..size] + s[size..];
    }
  }

  /** The first verdict other than Incomplete at positions k, k + size, ... of a stream of length n. */
  function FirstVerdict(verdict: nat -> Parse, k: nat, n: nat, size: nat): Parse
    requires k <= n && size > 0
    decreases n - k
  {
    if k == n || !verdict(k).Incomplete? then verdict(k) else FirstVerdict(verdict, Min(k + size, n), n, size)
  }

  function VerdictAt(s: string): (verdict: nat -> Parse)
    ensures forall k: nat :: k <= |s| ==> verdict(k) == ParseOf(s[..k])
  {
    (k: nat) => if k <= |s| then ParseOf(s[..k]) else Incomplete
  }

  /** The loop on a stream cut into equal pieces, from position k on. */
  function ReceivePieces(s: string, k: nat, size: nat): Parse
    requires k <= |s| && size > 0
  {
    FirstVerdict(VerdictAt(s), k, |s|, size)
  }

  lemma NextPiece(s: string, k: nat, size: nat)
    requires k < |s| && size > 0
    ensures var m := Min(k + size, |s|);
            Pieces(s[k..], size) == [s[k..m]] + Pieces(s[m..], size) && s[..k] + s[k..m] == s[..m]
  {
    var m := Min(k + size, |s|);
    var rest := s[k..];
    if |rest| <= size {
      assert s[k..m] == rest && s[m..] == "";
    } else {
      assert rest[..size] == s[k..m] && rest[size..] == s[m..];
    }
  }

  lemma ReceiveStep(buffer: string, chunk: string, rest: seq<string>)
    ensures Receive(buffer, [chunk] + rest)
            == if ParseOf(buffer).Incomplete? then Receive(buffer + chunk, rest) else ParseOf(buffer)
  {
    assert ([chunk] + rest)[1..] == rest;
  }

  lemma {:induction false} PiecesReceived(s: string, k: nat, size: nat)
    requires k <= |s| && size > 0
    ensures Receive(s[..k], Pieces(s[k..], size)) == ReceivePieces(s, k, size)
    decreases |s| - k
  {
    if k < |s| {
      var m := Min(k + size, |s|);
      NextPiece(s, k, size);
      ReceiveStep(s[..k], s[k..m], Pieces(s[m..], size));
      PiecesReceived(s, m, size);
    }
  }

  lemma HeadIsNever431(head: string)
    ensures ReadHead(head) != BadHead(431)
  {
  }

  lemma NotYet(s: string, k: nat)
    requires k <= |s| && HeaderEnd(s).Some? && k < HeaderEnd(s).value + 4 && k <= HEADER_LIMIT
    ensures ParseOf(s[..k]).Incomplete?
  {
    ParseOfPrefix(s[..k], s);
  }

  lemma PastHead(s: string, k: nat)
    requires HeaderEnd(s).Some? && HeaderEnd(s).value + 4 <= k <= |s|
    ensures ParseOf(s[..k]) != Malformed(431)
  {
    ParseOfPrefix(s[..k], s);
    HeadIsNever431(s[..HeaderEnd(s).value]);
  }

  lemma {:induction false} VerdictAvoided(verdict: nat -> Parse, k: nat, n: nat, size: nat, bad: Parse)
    requires k <= n && size > 0 && forall j: nat :: k <= j <= n ==> verdict(j) != bad
    ensures FirstVerdict(verdict, k, n, size) != bad
    decreases n - k
  {
    if k < n { VerdictAvoided(verdict, Min(k + size, n), n, size, bad); }
  }

  /** Incomplete verdicts at multiples of the size only postpone the question. */
  lemma {:induction false} VerdictPostponed(verdict: nat -> Parse, k: nat, n: nat, size: nat, times: nat)
    requires size > 0 && k + times * size <= n && times * size >= 0
    requires forall j: nat :: k <= j < k + times * size ==> verdict(j).Incomplete?
    ensures FirstVerdict(verdict, k, n, size) == FirstVerdict(verdict, k + times * size, n, size)
    decreases times
  {
    if times > 0 {
      assert times * size == (times - 1) * size + size;
      VerdictPostponed(verdict, k + size, n, size, times - 1);
    }
  }

  /** One byte at a time, a header block past the limit is refused. */
  lemma ByteByByte(s: string)
    requires HeaderEnd(s).Some? && HeaderEnd(s).value + 3 > HEADER_LIMIT
    ensures ReceivePieces(s, 0, 1) == Malformed(431)
  {
    forall j: nat | j < HEADER_LIMIT + 1 ensures VerdictAt(s)(j).Incomplete? {
      NotYet(s, j);
    }
    VerdictPostponed(VerdictAt(s), 0, |s|, 1, HEADER_LIMIT + 1);
    ParseOfPrefix(s[..HEADER_LIMIT + 1], s);
  }

  lemma VerdictStepsOver(verdict: nat -> Parse, n: nat, bad: Parse)
    requires HEADER_LIMIT < n
    requires forall j: nat :: j <= HEADER_LIMIT ==> verdict(j).Incomplete?
    requires forall j: nat :: Min(HEADER_LIMIT + RECEIVE_SIZE, n) <= j <= n ==> verdict(j) != bad
    ensures FirstVerdict(verdict, 0, n, RECEIVE_SIZE) != bad
  {
    VerdictPostponed(verdict, 0, n, RECEIVE_SIZE, 8);
    assert FirstVerdict(verdict, HEADER_LIMIT, n, RECEIVE_SIZE)
        == FirstVerdict(verdict, Min(HEADER_LIMIT + RECEIVE_SIZE, n), n, RECEIVE_SIZE);
    VerdictAvoided(verdict, Min(HEADER_LIMIT + RECEIVE_SIZE, n), n, RECEIVE_SIZE, bad);
  }

  /** Full receives that land on the limit step over the rest of the header block. */
  lemma StepOver(s: string)
    requires HeaderEnd(s).Some?
    requires HEADER_LIMIT < HeaderEnd(s).value + 3 && HeaderEnd(s).value + 4 <= HEADER_LIMIT + RECEIVE_SIZE
    ensures ReceivePieces(s, 0, RECEIVE_SIZE) != Malformed(431)
  {
    forall j: nat | j <= HEADER_LIMIT ensures VerdictAt(s)(j).Incomplete? {
      NotYet(s, j);
    }
    forall j: nat | Min(HEADER_LIMIT + RECEIVE_SIZE, |s|) <= j <= |s| ensures VerdictAt(s)(j) != Malformed(431) {
      PastHead(s, j);
    }
    VerdictStepsOver(VerdictAt(s), |s|, Malformed(431));
  }

  /** A split-safe stream gets its answer however it is cut. */
  lemma SplitSafeAnswers(s: string, chunks: seq<string>)
    requires SplitSafe(s) && Receivable(chunks) && Joined(chunks) == s
    ensures Receive("", chunks) == Answer(s)
  {
    assert "" + s == s;
    if HeaderEnd(s).Some? && HeaderEnd(s).value + 3 > HEADER_LIMIT {
      FarOutAnswers("", chunks, s);
    } else {
      InBoundsAnswers("", chunks, s);
    }
  }

  predicate Splits(chunks: seq<string>, s: string) { Receivable(chunks) && Joined(chunks) == s }

  ghost predicate SameForEverySplit(s: string)
  {
    forall c, d :: Splits(c, s) && Splits(d, s) ==> Receive("", c) == Receive("", d)
  }

  lemma PiecesSplit(s: string, size: nat)
    requires 0 < size <= RECEIVE_SIZE
    ensures Splits(Pieces(s, size), s) && Receive("", Pieces(s, size)) == ReceivePieces(s, 0, size)
  {
    PiecesJoin(s, size);
    PiecesReceived(s, 0, size);
    assert s[..0] == "" && s[0..] == s;
  }

  /**
   The receive loop gives one answer for every way a stream can arrive exactly when the stream is split-safe:
   its header block ends within the limit, or so far past it that no receive can step over the check.
   */
  lemma OneAnswerExactly(s: string)
    ensures SameForEverySplit(s) <==> SplitSafe(s)
  {
    if SplitSafe(s) {
      forall c, d | Splits(c, s) && Splits(d, s)
        ensures Receive("", c) == Receive("", d)
      {
        SplitSafeAnswers(s, c);
        SplitSafeAnswers(s, d);
      }
    } else {
      ByteByByte(s);
      StepOver(s);
      PiecesSplit(s, 1);
      PiecesSplit(s, RECEIVE_SIZE);
    }
  }

  /** A header block of n plain characters. */
  function PlainHead(n: nat): (head: string)
    ensures |head| == n
  {
    seq(n, _ => 'x')
  }

  lemma PlainHeadEnds(n: nat)
    ensures HeaderEnd(PlainHead(n) + HEAD_END) == Some(n)
  {
    var s := PlainHead(n) + HEAD_END;
    FirstAtExactly(s, HEAD_END, 0);
    assert OccursAt(s, HEAD_END, n);
    forall i: nat | i < n ensures !OccursAt(s, HEAD_END, i) {
      assert s[i] == 'x';
      assert i + 4 <= |s| ==> s[i..i + 4][0] == s[i];
    }
  }

  /** One stream, two answers: 65,534 plain characters and their terminator, and up to 8,190 more. */
  lemma SplitDecides(n: nat)
    requires HEADER_LIMIT < n + 3 && n + 4 <= HEADER_LIMIT + RECEIVE_SIZE
    ensures var s := PlainHead(n) + HEAD_END;
            && !SplitSafe(s)
            && Splits(Pieces(s, 1), s) && Receive("", Pieces(s, 1)) == Malformed(431)
            && Splits(Pieces(s, RECEIVE_SIZE), s) && Receive("", Pieces(s, RECEIVE_SIZE)) != Malformed(431)
  {
    var s := PlainHead(n) + HEAD_END;
    PlainHeadEnds(n);
    ByteByByte(s);
    StepOver(s);
    PiecesSplit(s, 1);
    PiecesSplit(s, RECEIVE_SIZE);
  }
}
