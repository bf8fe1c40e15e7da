/** The countdown timer with sets and rests, the stopwatch step and the range
    checks of the command-line values. What the timer prints is modelled as a
    trace of events; sleeping and clearing the terminal are not. */
module Tick {
  import opened Wrappers
  import opened Sums

  /** The working values `hour`, `minute`, `second` of one set. */
  datatype Clock = Clock(hour: int, minute: int, second: int)

  /** What `countdown` prints: the start banner, one line per tick, a rest, the end banner. */
  datatype Event = Starting | Tick(setNumber: int, hour: int, minute: int, second: int) | Resting(seconds: int) | Ended

  function Total(c: Clock): int {
    c.hour * 3600 + c.minute * 60 + c.second
  }

  predicate NonNegative(c: Clock) {
    c.hour >= 0 && c.minute >= 0 && c.second >= 0
  }

  /** The condition of the per-set `while` loop. */
  predicate Running(c: Clock) {
    c.hour > 0 || c.minute > 0 || c.second > 0
  }

  /** One pass of the per-set loop body: take one second off the clock. */
  function Step(c: Clock): (r: Clock)
    ensures NonNegative(c) && Running(c) ==> NonNegative(r) && Total(r) == Total(c) - 1
    ensures !Running(c) ==> r == c
  {
    if c.second >= 1 then c.(second := c.second - 1)
    else if c.second == 0 && c.minute >= 1 then c.(minute := c.minute - 1, second := 59)
    else if c.second == 0 && c.minute == 0 && c.hour >= 1 then Clock(c.hour - 1, 59, 59)
    else c
  }

  /** A non-negative clock is running exactly when its total is positive. */
  lemma RunningIffPositive(c: Clock)
    requires NonNegative(c)
    ensures Running(c) <==> Total(c) > 0
  {
  }

  /** The clock after `k` passes of the loop body. */
  function StepTimes(c: Clock, k: nat): Clock
    decreases k
  {
    if k == 0 then c else StepTimes(Step(c), k - 1)
  }

  /** Each of the first `Total(c)` passes finds the clock running, and after `k`
      of them `Total(c) - k` seconds are left. */
  lemma {:induction false} StepTimesTotal(c: Clock, k: nat)
    requires NonNegative(c) && k <= Total(c)
    ensures NonNegative(StepTimes(c, k)) && Total(StepTimes(c, k)) == Total(c) - k
    decreases k
  {
    if k > 0 {
      RunningIffPositive(c);
      StepTimesTotal(Step(c), k - 1);
    }
  }

  /** The per-set loop runs exactly `Total(c)` times: the clock is running before
      each of those passes and reads 0:0:0 after the last. */
  lemma SetRunsTotalTicks(c: Clock, k: nat)
    requires NonNegative(c)
    ensures k < Total(c) ==> Running(StepTimes(c, k))
    ensures StepTimes(c, Total(c)) == Clock(0, 0, 0)
  {
    if k < Total(c) {
      StepTimesTotal(c, k);
      RunningIffPositive(StepTimes(c, k));
    }
    StepTimesTotal(c, Total(c));
    RunningIffPositive(StepTimes(c, Total(c)));
  }

  /** What one set prints: a tick line for every pass of the loop. */
  function SetTrace(n: int, c: Clock): seq<Event>
    requires NonNegative(c)
    decreases Total(c)
  {
    if !Running(c) then [] else [Tick(n, c.hour, c.minute, c.second)] + SetTrace(n, Step(c))
  }

  /** The sets `k..rep`, with a rest after each set but the last when a rest time is given. */
  function Sets(k: int, rep: int, c: Clock, restTime: Option<int>): seq<Event>
    requires NonNegative(c)
    decreases rep - k + 1
  {
    if k > rep then []
    else SetTrace(k, c) + (if k != rep && restTime.Some? then [Resting(restTime.value)] else [])
         + Sets(k + 1, rep, c, restTime)
  }

  lemma SetsUnfold(k: int, rep: int, c: Clock, restTime: Option<int>)
    requires NonNegative(c) && k <= rep
    ensures Sets(k, rep, c, restTime) ==
              SetTrace(k, c) + (if k != rep && restTime.Some? then [Resting(restTime.value)] else [])
              + Sets(k + 1, rep, c, restTime)
  {
  }

  lemma SetTraceUnfold(n: int, c: Clock)
    requires NonNegative(c) && Running(c)
    ensures SetTrace(n, c) == [Tick(n, c.hour, c.minute, c.second)] + SetTrace(n, Step(c))
  {
  }

  lemma Associate(a: seq<Event>, b: seq<Event>, c: seq<Event>, d: seq<Event>)
    ensures a + b + c + d == a + (b + c + d)
  {
  }

  /** Everything `countdown` prints. */
  function CountdownTrace(c: Clock, rep: int, restTime: Option<int>): seq<Event>
    requires NonNegative(c)
  {
    [Starting] + Sets(1, rep, c, restTime) + [Ended]
  }

  function TickCount(tr: seq<Event>): nat
  {
    if tr == [] then 0 else (if tr[0].Tick? then 1 else 0) + TickCount(tr[1..])
  }

  function RestCount(tr: seq<Event>): nat
  {
    if tr == [] then 0 else (if tr[0].Resting? then 1 else 0) + RestCount(tr[1..])
  }

  lemma {:induction false} CountsOfConcat(a: seq<Event>, b: seq<Event>)
    ensures TickCount(a + b) == TickCount(a) + TickCount(b)
    ensures RestCount(a + b) == RestCount(a) + RestCount(b)
  {
    if a == [] {
      assert a + b == b;
    } else {
      assert (a + b)[0] == a[0] && (a + b)[1..] == a[1..] + b;
      CountsOfConcat(a[1..], b);
    }
  }

  /** A set is `Total(c)` tick lines, all of set `n`, with no rest among them; the
      `j`-th line shows the clock with `Total(c) - j` seconds left. */
  lemma {:induction false} SetTraceShape(n: int, c: Clock)
    requires NonNegative(c)
    ensures |SetTrace(n, c)| == Total(c)
    ensures TickCount(SetTrace(n, c)) == Total(c) && RestCount(SetTrace(n, c)) == 0
    ensures forall j :: 0 <= j < |SetTrace(n, c)| ==>
              var e := SetTrace(n, c)[j];
              e.Tick? && e.setNumber == n && Total(Clock(e.hour, e.minute, e.second)) == Total(c) - j
    decreases Total(c)
  {
    if Running(c) {
      SetTraceShape(n, Step(c));
      var tr := SetTrace(n, c);
      assert tr == [Tick(n, c.hour, c.minute, c.second)] + SetTrace(n, Step(c));
      assert tr[1..] == SetTrace(n, Step(c));
    } else {
      RunningIffPositive(c);
    }
  }

  lemma SetTraceCounts(n: int, c: Clock)
    requires NonNegative(c)
    ensures TickCount(SetTrace(n, c)) == Total(c) && RestCount(SetTrace(n, c)) == 0
  {
    SetTraceShape(n, c);
  }

  /** The sets `k..rep` split into set `k`, the rest after it, and the later sets. */
  lemma SetsSplit(k: int, rep: int, c: Clock, restTime: Option<int>)
    requires NonNegative(c) && k <= rep
    ensures var rest := if k != rep && restTime.Some? then [Resting(restTime.value)] else [];
            TickCount(Sets(k, rep, c, restTime)) == TickCount(SetTrace(k, c)) + TickCount(rest) + TickCount(Sets(k + 1, rep, c, restTime))
            && RestCount(Sets(k, rep, c, restTime)) == RestCount(SetTrace(k, c)) + RestCount(rest) + RestCount(Sets(k + 1, rep, c, restTime))
  {
    var one := SetTrace(k, c);
    var rest := if k != rep && restTime.Some? then [Resting(restTime.value)] else [];
    var later := Sets(k + 1, rep, c, restTime);
    SetsUnfold(k, rep, c, restTime);
    CountsOfConcat(one, rest);
    CountsOfConcat(one + rest, later);
  }

  /** Set `k` adds `Total(c)` tick lines to the later sets. */
  lemma SetsSplitTicks(k: int, rep: int, c: Clock, restTime: Option<int>)
    requires NonNegative(c) && k <= rep
    ensures TickCount(Sets(k, rep, c, restTime)) == Total(c) + TickCount(Sets(k + 1, rep, c, restTime))
  {
    SetsSplit(k, rep, c, restTime);
    SetTraceCounts(k, c);
    var rest := if k != rep && restTime.Some? then [Resting(restTime.value)] else [];
    assert TickCount(rest) == 0;
  }

  /** Set `k` adds one rest to the later sets, unless it is the last or no rest time is given. */
  lemma SetsSplitRests(k: int, rep: int, c: Clock, restTime: Option<int>)
    requires NonNegative(c) && k <= rep
    ensures RestCount(Sets(k, rep, c, restTime)) ==
              (if k != rep && restTime.Some? then 1 else 0) + RestCount(Sets(k + 1, rep, c, restTime))
  {
    SetsSplit(k, rep, c, restTime);
    SetTraceCounts(k, c);
    var rest := if k != rep && restTime.Some? then [Resting(restTime.value)] else [];
    assert RestCount(rest) == (if k != rep && restTime.Some? then 1 else 0);
  }

  /** Sets `k..rep` hold `Total(c)` tick lines each. */
  lemma {:induction false} SetsTicks(k: int, rep: int, c: Clock, restTime: Option<int>)
    requires NonNegative(c) && k <= rep + 1
    ensures TickCount(Sets(k, rep, c, restTime)) == Repeated(rep - k + 1, Total(c))
    decreases rep - k + 1
  {
    if k <= rep {
      SetsTicks(k + 1, rep, c, restTime);
      SetsTicksStep(k, rep, c, restTime);
    } else {
      assert Sets(k, rep, c, restTime) == [];
    }
  }

  lemma SetsTicksStep(k: int, rep: int, c: Clock, restTime: Option<int>)
    requires NonNegative(c) && k <= rep
    requires TickCount(Sets(k + 1, rep, c, restTime)) == Repeated(rep - (k + 1) + 1, Total(c))
    ensures TickCount(Sets(k, rep, c, restTime)) == Repeated(rep - k + 1, Total(c))
  {
    SetsSplitTicks(k, rep, c, restTime);
    RepeatedSucc(rep - k, Total(c));
  }

  /** Sets `k..rep` hold a rest between each two of them when a rest time is given. */
  lemma {:induction false} SetsRests(k: int, rep: int, c: Clock, restTime: Option<int>)
    requires NonNegative(c) && k <= rep + 1
    ensures RestCount(Sets(k, rep, c, restTime)) == if restTime.Some? && k <= rep then rep - k else 0
    decreases rep - k + 1
  {
    if k <= rep {
      SetsSplitRests(k, rep, c, restTime);
      SetsRests(k + 1, rep, c, restTime);
    } else {
      assert Sets(k, rep, c, restTime) == [];
    }
  }

  /** `countdown` prints `rep * Total(c)` tick lines (every set runs the same
      number of ticks) and `rep - 1` rests when a rest time is given, none otherwise. */
  lemma CountdownCounts(c: Clock, rep: int, restTime: Option<int>)
    requires NonNegative(c) && rep >= 1
    ensures TickCount(CountdownTrace(c, rep, restTime)) == rep * Total(c)
    ensures RestCount(CountdownTrace(c, rep, restTime)) == if restTime.Some? then rep - 1 else 0
  {
    SetsTicks(1, rep, c, restTime);
    SetsRests(1, rep, c, restTime);
    CountsOfConcat([Starting], Sets(1, rep, c, restTime));
    CountsOfConcat([Starting] + Sets(1, rep, c, restTime), [Ended]);
    assert TickCount([Starting]) == 0 && TickCount([Ended]) == 0;
    RepeatedIsProduct(rep, Total(c));
  }

  lemma SetsPastLast(k: int, rep: int, c: Clock, restTime: Option<int>)
    requires NonNegative(c)
    ensures k > rep ==> Sets(k, rep, c, restTime) == []
  {
  }

  /** A line of the first set `k` has no rest before it. */
  lemma TickInFirstSet(k: int, rep: int, c: Clock, restTime: Option<int>, p: nat)
    requires NonNegative(c) && k <= rep && p < |SetTrace(k, c)|
    ensures p < |Sets(k, rep, c, restTime)| && Sets(k, rep, c, restTime)[p].Tick?
    ensures RestCount(Sets(k, rep, c, restTime)[..p]) == 0
    ensures Sets(k, rep, c, restTime)[p].setNumber == k
  {
    var tr := Sets(k, rep, c, restTime);
    var a := SetTrace(k, c);
    SetsUnfold(k, rep, c, restTime);
    SetTraceShape(k, c);
    assert tr[..p] == a[..p];
    assert a == a[..p] + a[p..];
    CountsOfConcat(a[..p], a[p..]);
    assert tr[p] == a[p];
  }

  /** A line after the first set `k` comes after its rest, at index `q` in the later sets. */
  lemma TickInLaterSet(k: int, rep: int, c: Clock, restTime: Option<int>, p: nat) returns (q: nat)
    requires NonNegative(c) && restTime.Some? && k <= rep
    requires |SetTrace(k, c)| <= p < |Sets(k, rep, c, restTime)| && Sets(k, rep, c, restTime)[p].Tick?
    ensures q < |Sets(k + 1, rep, c, restTime)| && Sets(k + 1, rep, c, restTime)[q] == Sets(k, rep, c, restTime)[p]
    ensures RestCount(Sets(k, rep, c, restTime)[..p]) == 1 + RestCount(Sets(k + 1, rep, c, restTime)[..q])
  {
    var tr := Sets(k, rep, c, restTime);
    var a := SetTrace(k, c);
    var b := Sets(k + 1, rep, c, restTime);
    SetsUnfold(k, rep, c, restTime);
    SetsPastLast(k + 1, rep, c, restTime);
    SetTraceCounts(k, c);
    var rest := if k != rep then [Resting(restTime.value)] else [];
    assert tr == a + rest + b;
    assert k == rep ==> tr == a;
    assert k != rep && tr[|a|] == Resting(restTime.value);
    q := p - |a| - 1;
    assert tr[p] == b[q];
    assert tr[..p] == a + rest + b[..q];
    CountsOfConcat(a, rest);
    CountsOfConcat(a + rest, b[..q]);
  }

  /** Rests fall only between sets: before any tick line of set `j` there are
      exactly `j - k` rests in sets `k..rep` when a rest time is given. */
  lemma {:induction false} RestsBeforeTick(k: int, rep: int, c: Clock, restTime: Option<int>, p: nat)
    requires NonNegative(c) && restTime.Some?
    requires p < |Sets(k, rep, c, restTime)| && Sets(k, rep, c, restTime)[p].Tick?
    ensures RestCount(Sets(k, rep, c, restTime)[..p]) == Sets(k, rep, c, restTime)[p].setNumber - k
    decreases rep - k + 1
  {
    SetsPastLast(k, rep, c, restTime);
    if p < |SetTrace(k, c)| {
      TickInFirstSet(k, rep, c, restTime, p);
    } else {
      var q := TickInLaterSet(k, rep, c, restTime, p);
      RestsBeforeTick(k + 1, rep, c, restTime, q);
    }
  }

  /** In the whole countdown, a tick line of set `j` comes after exactly `j - 1` rests. */
  lemma CountdownRestsOnlyBetweenSets(c: Clock, rep: int, restTime: Option<int>, p: nat)
    requires NonNegative(c) && restTime.Some?
    requires p < |CountdownTrace(c, rep, restTime)| && CountdownTrace(c, rep, restTime)[p].Tick?
    ensures RestCount(CountdownTrace(c, rep, restTime)[..p]) == CountdownTrace(c, rep, restTime)[p].setNumber - 1
  {
    var s := Sets(1, rep, c, restTime);
    var tr := CountdownTrace(c, rep, restTime);
    assert tr == [Starting] + s + [Ended];
    assert tr[0] == Starting && tr[|s| + 1] == Ended;
    assert p - 1 < |s| && tr[p] == s[p - 1];
    RestsBeforeTick(1, rep, c, restTime, p - 1);
    assert tr[..p] == [Starting] + s[..p - 1];
    CountsOfConcat([Starting], s[..p - 1]);
  }

  /** The `Timer` object: the constructor's values, read by `countdown`. */
  class Timer {
    var second: int
    var minute: int
    var hour: int
    var rep: int
    var restTime: Option<int>

    constructor (second: int := 0, minute: int := 0, hour: int := 0, rep: int := 1, restTime: Option<int> := None)
      ensures this.second == second && this.minute == minute && this.hour == hour
      ensures this.rep == rep && this.restTime == restTime
    {
      this.second := second;
      this.minute := minute;
      this.hour := hour;
      this.rep := rep;
      this.restTime := restTime;
    }

    /** `countdown`: count every set down to 0:0:0, restore the working values
        after each set and rest between sets; `trace` is what it prints. */
    method Countdown() returns (trace: seq<Event>)
      requires NonNegative(Clock(hour, minute, second))
      ensures trace == CountdownTrace(Clock(hour, minute, second), rep, restTime)
    {
      var second, minute, hour := this.second, this.minute, this.hour;
      ghost var start := Clock(hour, minute, second);
      trace := [Starting];
      var repCount := 1;
      while repCount <= rep
        invariant repCount <= rep + 1 || repCount == 1
        invariant Clock(hour, minute, second) == start
        invariant trace + Sets(repCount, rep, start, restTime) == [Starting] + Sets(1, rep, start, restTime)
        decreases rep - repCount + 1
      {
        ghost var before := trace;
        while hour > 0 || minute > 0 || second > 0
          invariant NonNegative(Clock(hour, minute, second))
          invariant trace + SetTrace(repCount, Clock(hour, minute, second)) == before + SetTrace(repCount, start)
          decreases Total(Clock(hour, minute, second))
        {
          ghost var now := Clock(hour, minute, second);
          ghost var done := trace;
          trace := trace + [Tick(repCount, hour, minute, second)];
          if second >= 1 {
            second := second - 1;
          } else if second == 0 && minute >= 1 {
            minute := minute - 1;
            second := 59;
          } else if second == 0 && minute == 0 && hour >= 1 {
            hour := hour - 1;
            minute := 59;
            second := 59;
          }
          assert Clock(hour, minute, second) == Step(now);
          SetTraceUnfold(repCount, now);
          assert trace + SetTrace(repCount, Step(now)) == done + SetTrace(repCount, now);
        }
        assert SetTrace(repCount, Clock(hour, minute, second)) == [];
        second, minute, hour := this.second, this.minute, this.hour;
        ghost var rest := if repCount != rep && restTime.Some? then [Resting(restTime.value)] else [];
        if repCount != rep && restTime.Some? {
          trace := trace + [Resting(restTime.value)];
        }
        ghost var thisSet := SetTrace(repCount, start);
        ghost var later := Sets(repCount + 1, rep, start, restTime);
        assert trace == before + thisSet + rest;
        SetsUnfold(repCount, rep, start, restTime);
        Associate(before, thisSet, rest, later);
        repCount := repCount + 1;
      }
      trace := trace + [Ended];
    }
  }

  /** The stopwatch's counters. */
  datatype Watch = Watch(minute: int, second: int)

  /** One pass of the stopwatch loop: one more second, rolling over into a minute at 60. */
  function StopwatchStep(w: Watch): (r: Watch)
    ensures 0 <= w.second < 60 ==> 0 <= r.second < 60 && r.minute * 60 + r.second == w.minute * 60 + w.second + 1
    ensures r.minute == w.minute + 1 <==> w.second == 59
  {
    var second := w.second + 1;
    if second == 60 then Watch(w.minute + 1, 0) else Watch(w.minute, second)
  }

  /** The stopwatch after `k` seconds from 0:0. */
  function StopwatchAfter(k: nat): Watch
  {
    if k == 0 then Watch(0, 0) else StopwatchStep(StopwatchAfter(k - 1))
  }

  /** Counting from 0:0, the seconds stay within 0..59 and `minute * 60 + second` is the elapsed time. */
  lemma {:induction false} StopwatchCountsSeconds(k: nat)
    ensures 0 <= StopwatchAfter(k).second < 60
    ensures StopwatchAfter(k).minute * 60 + StopwatchAfter(k).second == k
  {
    if k > 0 {
      StopwatchCountsSeconds(k - 1);
    }
  }

  /** Every range check ends in the same `Exception("A rare exception occurred.")`,
      because the `ValueError` it raises is caught by its own `except Exception`. */
  datatype RareException = RareException

  /** `validate_second_input` on an already parsed integer: 0..60. */
  function ValidateSecondInput(n: int): (r: Result<int, RareException>)
    ensures r.Ok? <==> 0 <= n <= 60
    ensures r.Ok? ==> r.value == n
  {
    if n < 0 || n > 60 then Err(RareException) else Ok(n)
  }

  /** `validate_minute_input` on an already parsed integer: 0..60. */
  function ValidateMinuteInput(n: int): (r: Result<int, RareException>)
    ensures r.Ok? <==> 0 <= n <= 60
    ensures r.Ok? ==> r.value == n
  {
    if n < 0 || n > 60 then Err(RareException) else Ok(n)
  }

  /** `validate_hour_input` on an already parsed integer: 0..23. */
  function ValidateHourInput(n: int): (r: Result<int, RareException>)
    ensures r.Ok? <==> 0 <= n <= 23
    ensures r.Ok? ==> r.value == n
  {
    if n < 0 || n >= 24 then Err(RareException) else Ok(n)
  }

  /** `validate_rep_input` on an already parsed integer: at least 1. */
  function ValidateRepInput(n: int): (r: Result<int, RareException>)
    ensures r.Ok? <==> n >= 1
    ensures r.Ok? ==> r.value == n
  {
    if n <= 0 then Err(RareException) else Ok(n)
  }

  /** Values that pass the checks give a clock the countdown accepts. */
  lemma ValidatedClockIsNonNegative(s: int, m: int, h: int)
    requires ValidateSecondInput(s).Ok? && ValidateMinuteInput(m).Ok? && ValidateHourInput(h).Ok?
    ensures NonNegative(Clock(h, m, s)) && Total(Clock(h, m, s)) <= 23 * 3600 + 60 * 60 + 60
  {
  }
}
