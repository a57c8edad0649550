/** The registry's overlap test, in the 64-bit arithmetic it is written in, against sharing an address. */
module PatchRanges {
  import opened Common
  import opened PatchState

  predicate Fits(a: int, n: nat) { 0 <= a && a + n < TWO_TO_THE_64 }

  predicate Within(x: int, a: int, n: nat) { a <= x < a + n }

  predicate Apart(a: int, n: nat, b: int, m: nat) { a + n <= b || b + m <= a }

  /** For ranges that do not wrap, the 64-bit test is exactly intersection. */
  lemma FittingRangesMeet(a: int, n: nat, b: int, m: nat)
    requires Fits(a, n) && Fits(b, m) && n > 0 && m > 0
    ensures RangesMeet(a, n, b, m) <==> exists x :: Within(x, a, n) && Within(x, b, m)
    ensures RangesMeet(a, n, b, m) <==> !Apart(a, n, b, m)
  {
    if !Apart(a, n, b, m) {
      var x := Max(a, b);
      assert Within(x, a, n) && Within(x, b, m);
    }
  }

  predicate IsRange(a: int, n: nat) { 0 <= a < TWO_TO_THE_64 && 0 < n < TWO_TO_THE_64 }

  /** x is one of the n addresses from a on, counted modulo 2^64. */
  predicate InRange(x: int, a: int, n: nat)
  {
    0 <= x < TWO_TO_THE_64 && (x - a) % TWO_TO_THE_64 < n
  }

  ghost predicate ShareAddress(a: int, n: nat, b: int, m: nat)
  {
    exists x :: InRange(x, a, n) && InRange(x, b, m)
  }

  lemma WrappedRange(x: int, a: int, n: nat)
    requires IsRange(a, n) && 0 <= x < TWO_TO_THE_64
    ensures InRange(x, a, n) <==> Within(x, a, n) || x < a + n - TWO_TO_THE_64
  {
    if x >= a {
      assert (x - a) % TWO_TO_THE_64 == x - a;
    } else {
      assert (x - a) % TWO_TO_THE_64 == x - a + TWO_TO_THE_64;
    }
  }

  lemma SharedAddress(x: int, a: int, n: nat, b: int, m: nat)
    requires InRange(x, a, n) && InRange(x, b, m)
    ensures ShareAddress(a, n, b, m)
  {
  }

  /** Two ranges share an address when the later one starts inside the earlier, or the one that wraps reaches round. */
  lemma ShareExactly(a: int, n: nat, b: int, m: nat)
    requires IsRange(a, n) && IsRange(b, m) && a <= b
    ensures ShareAddress(a, n, b, m) <==> b < a + n || a < b + m - TWO_TO_THE_64
  {
    WrappedRange(a, a, n);
    WrappedRange(a, b, m);
    WrappedRange(b, a, n);
    WrappedRange(b, b, m);
    if b < a + n {
      SharedAddress(b, a, n, b, m);
    } else if a < b + m - TWO_TO_THE_64 {
      SharedAddress(a, a, n, b, m);
    } else if x :| InRange(x, a, n) && InRange(x, b, m) {
      WrappedRange(x, a, n);
      WrappedRange(x, b, m);
      assert false;
    }
  }

  lemma ShareIsSymmetric(a: int, n: nat, b: int, m: nat)
    ensures ShareAddress(a, n, b, m) <==> ShareAddress(b, m, a, n)
  {
  }

  /** For a range that reaches or passes 2^64 and one that does not: the test asks for both where either suffices. */
  predicate HalvesAgree(a: int, n: nat, b: int, m: nat)
  {
    a < b + m <==> b < a + n - TWO_TO_THE_64
  }

  /** The test is right about two 64-bit ranges if and only if both fit, or one does and the two halves agree. */
  lemma RangesMeetExactly(a: int, n: nat, b: int, m: nat)
    requires IsRange(a, n) && IsRange(b, m)
    ensures (RangesMeet(a, n, b, m) <==> ShareAddress(a, n, b, m))
            <==> if Fits(a, n) then Fits(b, m) || HalvesAgree(b, m, a, n) else Fits(b, m) && HalvesAgree(a, n, b, m)
  {
    EndExactly(a, n);
    EndExactly(b, m);
    if a <= b {
      ShareExactly(a, n, b, m);
    } else {
      ShareExactly(b, m, a, n);
      ShareIsSymmetric(a, n, b, m);
    }
  }

  lemma EndExactly(a: int, n: nat)
    requires IsRange(a, n)
    ensures EndOf(a, n) == if Fits(a, n) then a + n else a + n - TWO_TO_THE_64
  {
  }

  /** The test is right about a range and every other that fits. */
  ghost predicate SeenByAll(a: int, n: nat)
  {
    forall b, m: nat :: IsRange(b, m) && Fits(b, m) ==> (RangesMeet(a, n, b, m) <==> ShareAddress(a, n, b, m))
  }

  /** That is so exactly for the ranges that fit and for the topmost byte on its own. */
  lemma SeenByAllExactly(a: int, n: nat)
    requires IsRange(a, n)
    ensures SeenByAll(a, n) <==> Fits(a, n) || (a == TWO_TO_THE_64 - 1 && n == 1)
  {
    if Fits(a, n) || (a == TWO_TO_THE_64 - 1 && n == 1) {
      forall b, m: nat | IsRange(b, m) && Fits(b, m)
        ensures RangesMeet(a, n, b, m) <==> ShareAddress(a, n, b, m)
      {
        RangesMeetExactly(a, n, b, m);
      }
    } else {
      var b := if a == TWO_TO_THE_64 - 1 then 0 else a;
      RangesMeetExactly(a, n, b, 1);
      assert !(RangesMeet(a, n, b, 1) <==> ShareAddress(a, n, b, 1));
    }
  }

  /** A range that wraps is invisible to the test: two overlapping reservations can both be granted. */
  lemma WrappedReservationsOverlap()
    ensures var top := TWO_TO_THE_64 - 1;
            var s := Apply(Fresh(map[]), Reserve(top, [0, 0]));
            |Apply(s, Reserve(top, [0, 0])).reserved| == 2
  {
    var top := TWO_TO_THE_64 - 1;
    var s := Apply(Fresh(map[]), Reserve(top, [0, 0]));
    assert s.reserved == [Reservation(1, top, 2)];
    assert !RangesMeet(top, 2, top, 2);
    assert !Overlaps(s.patches, s.reserved, top, 2);
  }
}
