/**
 The speed hook's clocks. Each reports a base plus the truncated, scaled time since that base was taken;
 a rate change freezes every started clock at the value it is showing. Scales are reals: rounding of the
 product is not modelled, the truncation to an integer is.
 */
module SpeedHook {
  import opened Common

  datatype ClockState = ClockState(baseReal: int, baseFake: int, started: bool)

  // What a clock sees: a call of the hooked function, or a rate change, with the real reading of that instant.
  datatype Event =
    | Call(reading: int)
    | Change(reading: int, next: real)

  datatype Hook = Hook(clock: ClockState, scale: real)

  /** Conversion of a real to an integer: toward zero. */
  function Truncate(x: real): (n: int)
    ensures if x >= 0.0 then n as real <= x < (n + 1) as real else (n - 1) as real < x <= n as real
  {
    if x >= 0.0 then x.Floor else -(-x).Floor
  }

  /** The clock after one query, and what it answers. */
  function FakeOf(c: ClockState, reading: int, scale: real): (ClockState, int)
  {
    if !c.started then (ClockState(reading, reading, true), reading)
    else
      var base := if reading < c.baseReal then reading else c.baseReal;
      (c.(baseReal := base), c.baseFake + Truncate((reading - base) as real * scale))
  }

  function Rebased(c: ClockState, reading: int, scale: real): ClockState
  {
    if !c.started then c else ClockState(reading, FakeOf(c, reading, scale).1, true)
  }

  function Shown(h: Hook, reading: int): int { FakeOf(h.clock, reading, h.scale).1 }

  function Step(h: Hook, e: Event): Hook
  {
    match e
    case Call(reading) => h.(clock := FakeOf(h.clock, reading, h.scale).0)
    case Change(reading, next) => Hook(Rebased(h.clock, reading, h.scale), next)
  }

  function Run(h: Hook, es: seq<Event>): Hook
    decreases es
  {
    if es == [] then h else Run(Step(h, es[0]), es[1..])
  }

  /** The values the target is told, call by call. */
  function Answers(h: Hook, es: seq<Event>): seq<int>
    decreases es
  {
    if es == [] then []
    else (if es[0].Call? then [Shown(h, es[0].reading)] else []) + Answers(Step(h, es[0]), es[1..])
  }

  /** Real readings never decrease, starting no lower than this. */
  predicate InOrder(from: int, es: seq<Event>)
    decreases es
  {
    es == [] || (from <= es[0].reading && InOrder(es[0].reading, es[1..]))
  }

  predicate PositiveRates(es: seq<Event>)
  {
    forall e | e in es :: e.Change? ==> e.next > 0.0
  }

  class Clock {
    var baseReal: int
    var baseFake: int
    var started: bool

    function Now(): ClockState
      reads this
    {
      ClockState(baseReal, baseFake, started)
    }

    constructor ()
      ensures Now() == ClockState(0, 0, false)
    {
      baseReal, baseFake, started := 0, 0, false;
    }

    method Query(reading: int, scale: real) returns (fake: int)
      modifies this
      ensures (Now(), fake) == FakeOf(old(Now()), reading, scale)
    {
      if !started {
        baseReal, baseFake, started := reading, reading, true;
        return reading;
      }
      if reading < baseReal {
        baseReal := reading;
      }
      return baseFake + Truncate((reading - baseReal) as real * scale);
    }
  }

  class Payload {
    var applied: real
    const clocks: seq<Clock>

    predicate Valid() { forall i, j :: 0 <= i < j < |clocks| ==> clocks[i] != clocks[j] }

    constructor (clocks: seq<Clock>)
      requires forall i, j :: 0 <= i < j < |clocks| ==> clocks[i] != clocks[j]
      ensures Valid() && this.clocks == clocks && applied == 1.0
    {
      this.clocks := clocks;
      applied := 1.0;
    }

    /** Every started clock is rebased at its own reading under the old rate before the new one applies. */
    method ApplyScale(readings: seq<int>, next: real)
      requires Valid() && |readings| == |clocks|
      modifies this, clocks
      ensures applied == next
      ensures forall i :: 0 <= i < |clocks| ==>
                clocks[i].Now() == Rebased(old(clocks[i].Now()), readings[i], old(applied))
    {
      for k := 0 to |clocks|
        invariant applied == old(applied)
        invariant forall i :: 0 <= i < k ==> clocks[i].Now() == Rebased(old(clocks[i].Now()), readings[i], applied)
        invariant forall i :: k <= i < |clocks| ==> clocks[i].Now() == old(clocks[i].Now())
      {
        var clock := clocks[k];
        if clock.started {
          var fake := clock.Query(readings[k], applied);
          clock.baseFake := fake;
          clock.baseReal := readings[k];
        }
      }
      applied := next;
    }
  }

  lemma FloorGrows(x: real, y: real)
    requires x <= y
    ensures x.Floor <= y.Floor
  {
  }

  lemma ScaledGrows(scale: real, a: int, b: int)
    requires scale > 0.0 && 0 <= a <= b
    ensures 0.0 <= a as real * scale <= b as real * scale
  {
    assert a as real <= b as real;
    assert a as real * scale <= b as real * scale;
  }

  lemma ShownGrows(h: Hook, r: int, r': int)
    requires h.clock.started && h.scale > 0.0 && h.clock.baseReal <= r <= r'
    ensures h.clock.baseFake <= Shown(h, r) <= Shown(h, r')
  {
    ScaledGrows(h.scale, r - h.clock.baseReal, r' - h.clock.baseReal);
    FloorGrows((r - h.clock.baseReal) as real * h.scale, (r' - h.clock.baseReal) as real * h.scale);
  }

  /** A rate change never moves the value of that instant, whatever the reading and the rates. */
  lemma ChangeKeepsTheInstant(h: Hook, reading: int, next: real)
    ensures Shown(Step(h, Change(reading, next)), reading) == Shown(h, reading)
  {
    assert 0 as real * next == 0.0;
  }

  /** What one event does to a value already shown at an earlier reading. */
  lemma StepKeepsFloor(h: Hook, at: int, e: Event)
    requires h.clock.started && h.scale > 0.0 && h.clock.baseReal <= at <= e.reading
    ensures var h' := Step(h, e);
            && h'.clock.started && h'.clock.baseReal <= e.reading
            && Shown(h, at) <= Shown(h, e.reading) == Shown(h', e.reading)
  {
    ShownGrows(h, at, e.reading);
    if e.Change? { ChangeKeepsTheInstant(h, e.reading, e.next); }
  }

  predicate Ascending(s: seq<int>) { forall i, j :: 0 <= i <= j < |s| ==> s[i] <= s[j] }

  lemma {:induction false} AnswersAbove(h: Hook, at: int, es: seq<Event>)
    requires h.clock.started && h.scale > 0.0 && h.clock.baseReal <= at && InOrder(at, es) && PositiveRates(es)
    ensures forall k :: 0 <= k < |Answers(h, es)| ==> Shown(h, at) <= Answers(h, es)[k]
    ensures Ascending(Answers(h, es))
    decreases es
  {
    if es != [] {
      StepKeepsFloor(h, at, es[0]);
      AnswersAbove(Step(h, es[0]), es[0].reading, es[1..]);
    }
  }

  /** The reported clock never runs backwards, over any run of calls and rate changes. */
  lemma {:induction false} ClockNeverDecreases(h: Hook, at: int, es: seq<Event>)
    requires h.scale > 0.0 && PositiveRates(es) && InOrder(at, es)
    requires h.clock.started ==> h.clock.baseReal <= at
    ensures Ascending(Answers(h, es))
    decreases es
  {
    if h.clock.started {
      AnswersAbove(h, at, es);
    } else if es != [] {
      if es[0].Call? {
        assert Shown(Step(h, es[0]), es[0].reading) == es[0].reading by { assert 0 as real * h.scale == 0.0; }
        AnswersAbove(Step(h, es[0]), es[0].reading, es[1..]);
      } else {
        ClockNeverDecreases(Step(h, es[0]), es[0].reading, es[1..]);
      }
    }
  }

  /** The reading of the first call, if there is one. */
  function FirstCall(es: seq<Event>): Option<int>
    decreases es
  {
    if es == [] then None else if es[0].Call? then Some(es[0].reading) else FirstCall(es[1..])
  }

  /** Whatever the rates were before it, a clock's first answer is the real reading: hooking does not jump. */
  lemma {:induction false} FirstAnswerIsReal(h: Hook, es: seq<Event>)
    requires !h.clock.started
    ensures match FirstCall(es)
            case None => Answers(h, es) == []
            case Some(reading) => Answers(h, es) != [] && Answers(h, es)[0] == reading
    decreases es
  {
    if es != [] && es[0].Change? { FirstAnswerIsReal(Step(h, es[0]), es[1..]); }
  }

  /** What the real functions would have answered. */
  function RealAnswers(es: seq<Event>): seq<int>
    decreases es
  {
    if es == [] then [] else (if es[0].Call? then [es[0].reading] else []) + RealAnswers(es[1..])
  }

  predicate AtNormalSpeed(es: seq<Event>) { forall e | e in es :: e.Change? ==> e.next == 1.0 }

  /** The clock shows real time from its base on. */
  ghost predicate InStep(h: Hook, at: int)
  {
    h.scale == 1.0 && (h.clock.started ==> h.clock.baseFake == h.clock.baseReal <= at)
  }

  /** At normal speed the hook cannot be told from the real clock. */
  lemma {:induction false} NormalSpeedIsTransparent(h: Hook, at: int, es: seq<Event>)
    requires InStep(h, at) && AtNormalSpeed(es) && InOrder(at, es)
    ensures Answers(h, es) == RealAnswers(es)
    decreases es
  {
    if es != [] {
      var elapsed := (es[0].reading - h.clock.baseReal) as real;
      assert elapsed * 1.0 == elapsed;
      assert Shown(h, es[0].reading) == es[0].reading;
      NormalSpeedIsTransparent(Step(h, es[0]), es[0].reading, es[1..]);
    }
  }

  // A clock without truncation: its value at the last rate change, that instant, and the rate since.
  datatype Ideal = Ideal(value: real, at: int, scale: real)

  function ValueAt(i: Ideal, reading: int): real { i.value + i.scale * (reading - i.at) as real }

  function IdealRun(i: Ideal, es: seq<Event>): Ideal
    decreases es
  {
    if es == [] then i
    else match es[0]
      case Call(_) => IdealRun(i, es[1..])
      case Change(reading, next) => IdealRun(Ideal(ValueAt(i, reading), reading, next), es[1..])
  }

  function Changes(es: seq<Event>): nat
    decreases es
  {
    if es == [] then 0 else Changes(es[1..]) + if es[0].Change? then 1 else 0
  }

  /** The clock stands for the ideal one up to n lost fractions. */
  ghost predicate Tracks(h: Hook, i: Ideal, n: nat)
  {
    && h.clock.started && h.clock.baseReal == i.at && h.scale == i.scale > 0.0
    && i.value - n as real <= h.clock.baseFake as real <= i.value
  }

  lemma ShownNearIdeal(h: Hook, i: Ideal, n: nat, reading: int)
    requires Tracks(h, i, n) && i.at <= reading
    ensures ValueAt(i, reading) - (n + 1) as real < Shown(h, reading) as real <= ValueAt(i, reading)
  {
    var elapsed := (reading - i.at) as real * h.scale;
    ScaledGrows(h.scale, 0, reading - i.at);
    assert elapsed - 1.0 < elapsed.Floor as real <= elapsed;
  }

  lemma {:induction false} RunTracks(h: Hook, i: Ideal, n: nat, at: int, es: seq<Event>)
    requires Tracks(h, i, n) && i.at <= at && InOrder(at, es) && PositiveRates(es)
    ensures Tracks(Run(h, es), IdealRun(i, es), n + Changes(es))
    decreases es
  {
    if es != [] {
      var e := es[0];
      ShownNearIdeal(h, i, n, e.reading);
      match e
      case Call(_) => RunTracks(Step(h, e), i, n, e.reading, es[1..]);
      case Change(reading, next) =>
        RunTracks(Step(h, e), Ideal(ValueAt(i, reading), reading, next), n + 1, reading, es[1..]);
    }
  }

  function LastReading(at: int, es: seq<Event>): int
    decreases es
  {
    if es == [] then at else LastReading(es[0].reading, es[1..])
  }

  lemma {:induction false} IdealNotAhead(i: Ideal, at: int, es: seq<Event>)
    requires i.at <= at && InOrder(at, es)
    ensures IdealRun(i, es).at <= LastReading(at, es)
    decreases es
  {
    if es != [] {
      match es[0]
      case Call(_) => IdealNotAhead(i, es[0].reading, es[1..]);
      case Change(reading, next) => IdealNotAhead(Ideal(ValueAt(i, reading), reading, next), reading, es[1..]);
    }
  }

  /** After n rebases the clock is behind the exact scaled time by less than n + 1, and never ahead of it. */
  lemma DriftIsBounded(h: Hook, es: seq<Event>, reading: int)
    requires h.clock.started && h.scale > 0.0 && PositiveRates(es) && InOrder(h.clock.baseReal, es)
    requires LastReading(h.clock.baseReal, es) <= reading
    ensures var exact := ValueAt(IdealRun(Ideal(h.clock.baseFake as real, h.clock.baseReal, h.scale), es), reading);
            exact - (Changes(es) + 1) as real < Shown(Run(h, es), reading) as real <= exact
  {
    var i := Ideal(h.clock.baseFake as real, h.clock.baseReal, h.scale);
    RunTracks(h, i, 0, h.clock.baseReal, es);
    IdealNotAhead(i, h.clock.baseReal, es);
    ShownNearIdeal(Run(h, es), IdealRun(i, es), Changes(es), reading);
  }

  /**
   A reading below the base is where the promise ends: the clock falls back to the value of the last rebase,
   so it runs backwards exactly when at least one whole unit had been reported since, and it stays behind by
   what it lost.
   */
  lemma BackwardsReadingLosesProgress(h: Hook, r: int, r': int, later: int)
    requires h.clock.started && h.scale > 0.0 && r' < h.clock.baseReal <= r && r' <= later
    ensures Shown(h, r') == h.clock.baseFake
    ensures Shown(h, r') < Shown(h, r) <==> (r - h.clock.baseReal) as real * h.scale >= 1.0
    ensures Shown(Step(h, Call(r')), later) == h.clock.baseFake + ((later - r') as real * h.scale).Floor
  {
    ScaledGrows(h.scale, 0, r - h.clock.baseReal);
    ScaledGrows(h.scale, 0, later - r');
    assert 0 as real * h.scale == 0.0;
  }
}
