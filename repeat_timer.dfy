/** The repeat timer: `time` counted seconds per set, `rep` sets, an optional
    rest between sets, the positive-integer check and the choice of call in `main`.
    What the timer prints is modelled as a trace of events. */
module RepeatTimer {
  import opened Wrappers
  import opened Sums

  /** What `count_the_timer` prints: the start banner, one `rep_count count` line
      per second, a rest, the end banner. */
  datatype Event = Starting | Count(repCount: int, count: int) | Resting(seconds: int) | Ended

  /** The lines `count` for `count` in `j..time` of set `k`. */
  function Row(k: int, j: int, time: int): seq<Event>
    decreases time - j + 1
  {
    if j > time then [] else [Count(k, j)] + Row(k, j + 1, time)
  }

  /** Sets `k..rep`, with a rest after every set but the last when a rest time is given. */
  function Sets(k: int, rep: int, time: int, restTime: Option<int>): seq<Event>
    decreases rep - k + 1
  {
    if k > rep then []
    else Row(k, 1, time) + (if k != rep && restTime.Some? then [Resting(restTime.value)] else [])
         + Sets(k + 1, rep, time, restTime)
  }

  lemma SetsUnfold(k: int, rep: int, time: int, restTime: Option<int>)
    requires k <= rep
    ensures Sets(k, rep, time, restTime) ==
              Row(k, 1, time) + (if k != rep && restTime.Some? then [Resting(restTime.value)] else [])
              + Sets(k + 1, rep, time, restTime)
  {
  }

  lemma Associate(a: seq<Event>, b: seq<Event>, c: seq<Event>, d: seq<Event>)
    ensures a + b + c + d == a + (b + c + d)
  {
  }

  /** Everything `count_the_timer(time, rep, rest_time)` prints. */
  function RepeatTrace(time: int, rep: int, restTime: Option<int>): seq<Event>
  {
    [Starting] + Sets(1, rep, time, restTime) + [Ended]
  }

  /** The `Count` lines of a trace, in order, as `(rep_count, count)` pairs. */
  function Counts(tr: seq<Event>): seq<(int, int)>
  {
    if tr == [] then []
    else (if tr[0].Count? then [(tr[0].repCount, tr[0].count)] else []) + Counts(tr[1..])
  }

  function RestCount(tr: seq<Event>): nat
  {
    if tr == [] then 0 else (if tr[0].Resting? then 1 else 0) + RestCount(tr[1..])
  }

  lemma {:induction false} ConcatCounts(a: seq<Event>, b: seq<Event>)
    ensures Counts(a + b) == Counts(a) + Counts(b)
  {
    if a == [] {
      assert a + b == b;
    } else {
      assert (a + b)[0] == a[0] && (a + b)[1..] == a[1..] + b;
      ConcatCounts(a[1..], b);
    }
  }

  lemma {:induction false} ConcatRests(a: seq<Event>, b: seq<Event>)
    ensures RestCount(a + b) == RestCount(a) + RestCount(b)
  {
    if a == [] {
      assert a + b == b;
    } else {
      assert (a + b)[0] == a[0] && (a + b)[1..] == a[1..] + b;
      ConcatRests(a[1..], b);
    }
  }

  /** Set `k` prints `(k, j), (k, j + 1), ..., (k, time)` and nothing else. */
  lemma {:induction false} RowShape(k: int, j: int, time: int)
    requires 1 <= j
    ensures |Counts(Row(k, j, time))| == if j <= time then time - j + 1 else 0
    ensures forall i :: 0 <= i < |Counts(Row(k, j, time))| ==> Counts(Row(k, j, time))[i] == (k, j + i)
    ensures RestCount(Row(k, j, time)) == 0
    decreases time - j + 1
  {
    if j <= time {
      RowShape(k, j + 1, time);
      ConcatCounts([Count(k, j)], Row(k, j + 1, time));
      ConcatRests([Count(k, j)], Row(k, j + 1, time));
      assert Counts([Count(k, j)]) == [(k, j)];
    }
  }

  /** The sets `k..rep` split into set `k`, the rest after it, and the later sets. */
  lemma SetsSplit(k: int, rep: int, time: int, restTime: Option<int>)
    requires 1 <= time && k <= rep
    ensures Counts(Sets(k, rep, time, restTime)) == Counts(Row(k, 1, time)) + Counts(Sets(k + 1, rep, time, restTime))
    ensures RestCount(Sets(k, rep, time, restTime)) ==
              (if k != rep && restTime.Some? then 1 else 0) + RestCount(Sets(k + 1, rep, time, restTime))
  {
    var row := Row(k, 1, time);
    var rest := if k != rep && restTime.Some? then [Resting(restTime.value)] else [];
    var later := Sets(k + 1, rep, time, restTime);
    SetsUnfold(k, rep, time, restTime);
    RowShape(k, 1, time);
    ConcatCounts(row, rest);
    ConcatCounts(row + rest, later);
    ConcatRests(row, rest);
    ConcatRests(row + rest, later);
    assert Counts(rest) == [] && RestCount(rest) == (if k != rep && restTime.Some? then 1 else 0);
  }

  /** Sets `k..rep` print `time` count lines each. */
  lemma {:induction false} SetsLength(k: int, rep: int, time: int, restTime: Option<int>)
    requires 1 <= time && k <= rep + 1
    ensures |Counts(Sets(k, rep, time, restTime))| == Repeated(rep - k + 1, time)
    decreases rep - k + 1
  {
    if k <= rep {
      SetsLength(k + 1, rep, time, restTime);
      SetsLengthStep(k, rep, time, restTime);
    } else {
      assert Sets(k, rep, time, restTime) == [];
    }
  }

  lemma SetsLengthStep(k: int, rep: int, time: int, restTime: Option<int>)
    requires 1 <= time && k <= rep
    requires |Counts(Sets(k + 1, rep, time, restTime))| == Repeated(rep - (k + 1) + 1, time)
    ensures |Counts(Sets(k, rep, time, restTime))| == Repeated(rep - k + 1, time)
  {
    SetsSplit(k, rep, time, restTime);
    RowShape(k, 1, time);
    RepeatedSucc(rep - k, time);
  }

  /** Sets `k..rep` print a rest between each two sets when a rest time is given. */
  lemma {:induction false} SetsRests(k: int, rep: int, time: int, restTime: Option<int>)
    requires 1 <= time && k <= rep + 1
    ensures RestCount(Sets(k, rep, time, restTime)) == if restTime.Some? && k <= rep then rep - k else 0
    decreases rep - k + 1
  {
    if k <= rep {
      SetsSplit(k, rep, time, restTime);
      SetsRests(k + 1, rep, time, restTime);
    } else {
      assert Sets(k, rep, time, restTime) == [];
    }
  }

  /** The `i`-th pair is the one of index `i` in lexicographic order over
      `k..rep` times `1..time`: `(rep_count - k) * time + count - 1 == i`. */
  predicate LexIndexed(cs: seq<(int, int)>, k: int, rep: int, time: int) {
    forall i :: 0 <= i < |cs| ==>
      k <= cs[i].0 <= rep && 1 <= cs[i].1 <= time && (cs[i].0 - k) * time + cs[i].1 - 1 == i
  }

  /** Within sets `k..rep`, the count lines come in lexicographic order, one per index. */
  lemma {:induction false} SetsCounts(k: int, rep: int, time: int, restTime: Option<int>)
    requires 1 <= time && k <= rep + 1
    ensures LexIndexed(Counts(Sets(k, rep, time, restTime)), k, rep, time)
    decreases rep - k + 1
  {
    if k <= rep {
      SetsCounts(k + 1, rep, time, restTime);
      SetsSplit(k, rep, time, restTime);
      RowShape(k, 1, time);
      LexIndexedAppend(Counts(Row(k, 1, time)), Counts(Sets(k + 1, rep, time, restTime)), k, rep, time);
    } else {
      assert Counts(Sets(k, rep, time, restTime)) == [];
    }
  }

  lemma LexIndexedAppend(rc: seq<(int, int)>, lc: seq<(int, int)>, k: int, rep: int, time: int)
    requires k <= rep && |rc| == time
    requires forall i :: 0 <= i < |rc| ==> rc[i] == (k, 1 + i)
    requires LexIndexed(lc, k + 1, rep, time)
    ensures LexIndexed(rc + lc, k, rep, time)
  {
    var cs := rc + lc;
    forall i | 0 <= i < |cs|
      ensures k <= cs[i].0 <= rep && 1 <= cs[i].1 <= time && (cs[i].0 - k) * time + cs[i].1 - 1 == i
    {
      if i >= time {
        assert cs[i] == lc[i - time];
        MulSucc(lc[i - time].0 - k - 1, time);
      } else {
        assert cs[i] == (k, 1 + i);
      }
    }
  }

  /** `count_the_timer` with validated `time` and `rep` prints `rep * time` count
      lines, which enumerate `(1, 1) .. (rep, time)` in lexicographic order, and
      `rep - 1` rests when a rest time is given, none otherwise. */
  lemma RepeatTraceShape(time: int, rep: int, restTime: Option<int>)
    requires time >= 1 && rep >= 1
    ensures |Counts(RepeatTrace(time, rep, restTime))| == rep * time
    ensures LexIndexed(Counts(RepeatTrace(time, rep, restTime)), 1, rep, time)
    ensures RestCount(RepeatTrace(time, rep, restTime)) == if restTime.Some? then rep - 1 else 0
  {
    var s := Sets(1, rep, time, restTime);
    SetsLength(1, rep, time, restTime);
    RepeatedIsProduct(rep, time);
    SetsRests(1, rep, time, restTime);
    SetsCounts(1, rep, time, restTime);
    ConcatCounts([Starting], s);
    ConcatCounts([Starting] + s, [Ended]);
    ConcatRests([Starting], s);
    ConcatRests([Starting] + s, [Ended]);
    assert Counts([Starting]) == [] && Counts([Ended]) == [];
    assert RestCount([Starting]) == 0 && RestCount([Ended]) == 0;
  }

  /** The `i`-th line of set `k` from count `j` on is `(k, j + i)`. */
  lemma {:induction false} RowElements(k: int, j: int, time: int)
    ensures forall i :: 0 <= i < |Row(k, j, time)| ==> Row(k, j, time)[i] == Count(k, j + i)
    decreases time - j + 1
  {
    if j <= time {
      RowElements(k, j + 1, time);
      assert Row(k, j, time) == [Count(k, j)] + Row(k, j + 1, time);
    }
  }

  lemma SetsPastLast(k: int, rep: int, time: int, restTime: Option<int>)
    ensures k > rep ==> Sets(k, rep, time, restTime) == []
  {
  }

  /** A line of the first set `k` has no rest before it. */
  lemma CountInFirstSet(k: int, rep: int, time: int, restTime: Option<int>, p: nat)
    requires k <= rep && p < |Row(k, 1, time)|
    ensures p < |Sets(k, rep, time, restTime)| && Sets(k, rep, time, restTime)[p] == Count(k, 1 + p)
    ensures RestCount(Sets(k, rep, time, restTime)[..p]) == 0
  {
    var tr := Sets(k, rep, time, restTime);
    var a := Row(k, 1, time);
    SetsUnfold(k, rep, time, restTime);
    RowElements(k, 1, time);
    RowShape(k, 1, time);
    assert tr[..p] == a[..p];
    assert a == a[..p] + a[p..];
    ConcatRests(a[..p], a[p..]);
    assert tr[p] == a[p];
  }

  /** A line after the first set `k` comes after its rest, at index `q` in the later sets. */
  lemma CountInLaterSet(k: int, rep: int, time: int, restTime: Option<int>, p: nat) returns (q: nat)
    requires restTime.Some? && k <= rep
    requires |Row(k, 1, time)| <= p < |Sets(k, rep, time, restTime)| && Sets(k, rep, time, restTime)[p].Count?
    ensures q < |Sets(k + 1, rep, time, restTime)| && Sets(k + 1, rep, time, restTime)[q] == Sets(k, rep, time, restTime)[p]
    ensures RestCount(Sets(k, rep, time, restTime)[..p]) == 1 + RestCount(Sets(k + 1, rep, time, restTime)[..q])
  {
    var tr := Sets(k, rep, time, restTime);
    var a := Row(k, 1, time);
    var b := Sets(k + 1, rep, time, restTime);
    SetsUnfold(k, rep, time, restTime);
    SetsPastLast(k + 1, rep, time, restTime);
    RowShape(k, 1, time);
    var rest := if k != rep then [Resting(restTime.value)] else [];
    assert tr == a + rest + b;
    assert k == rep ==> tr == a;
    assert k != rep && tr[|a|] == Resting(restTime.value);
    q := p - |a| - 1;
    assert tr[p] == b[q];
    assert tr[..p] == a + rest + b[..q];
    ConcatRests(a, rest);
    ConcatRests(a + rest, b[..q]);
  }

  /** Rests fall only between sets: before any count line of set `j` there are
      exactly `j - k` rests in sets `k..rep` when a rest time is given. */
  lemma {:induction false} RestsBeforeCount(k: int, rep: int, time: int, restTime: Option<int>, p: nat)
    requires restTime.Some?
    requires p < |Sets(k, rep, time, restTime)| && Sets(k, rep, time, restTime)[p].Count?
    ensures RestCount(Sets(k, rep, time, restTime)[..p]) == Sets(k, rep, time, restTime)[p].repCount - k
    decreases rep - k + 1
  {
    SetsPastLast(k, rep, time, restTime);
    if p < |Row(k, 1, time)| {
      CountInFirstSet(k, rep, time, restTime, p);
    } else {
      var q := CountInLaterSet(k, rep, time, restTime, p);
      RestsBeforeCount(k + 1, rep, time, restTime, q);
    }
  }

  /** In the whole trace, a count line of set `j` comes after exactly `j - 1`
      rests: no rest precedes the first set and each rest follows a finished set. */
  lemma RepeatRestsOnlyBetweenSets(time: int, rep: int, restTime: Option<int>, p: nat)
    requires restTime.Some?
    requires p < |RepeatTrace(time, rep, restTime)| && RepeatTrace(time, rep, restTime)[p].Count?
    ensures RestCount(RepeatTrace(time, rep, restTime)[..p]) == RepeatTrace(time, rep, restTime)[p].repCount - 1
  {
    var s := Sets(1, rep, time, restTime);
    var tr := RepeatTrace(time, rep, restTime);
    assert tr == [Starting] + s + [Ended];
    assert tr[0] == Starting && tr[|s| + 1] == Ended;
    assert p - 1 < |s| && tr[p] == s[p - 1];
    RestsBeforeCount(1, rep, time, restTime, p - 1);
    assert tr[..p] == [Starting] + s[..p - 1];
    ConcatRests([Starting], s[..p - 1]);
  }

  /** With one set the rest time never shows: `main` dropping `--rest` when
      `--rep` is missing changes nothing that is printed. */
  lemma OneSetIgnoresRest(time: int, restTime: Option<int>)
    ensures RepeatTrace(time, 1, restTime) == RepeatTrace(time, 1, None)
  {
    assert Sets(1, 1, time, restTime) == Row(1, 1, time) + [] + [];
    assert Sets(1, 1, time, None) == Row(1, 1, time) + [] + [];
  }

  /** One pass of the inner loop of `count_the_timer`. */
  lemma RowStep(trace: seq<Event>, k: int, j: int, time: int)
    requires j <= time
    ensures trace + [Count(k, j)] + Row(k, j + 1, time) == trace + Row(k, j, time)
  {
    assert Row(k, j, time) == [Count(k, j)] + Row(k, j + 1, time);
  }

  /** One pass of the outer loop of `count_the_timer`: set `k` and its rest. */
  lemma SetStep(before: seq<Event>, trace: seq<Event>, k: int, rep: int, time: int, restTime: Option<int>)
    requires k <= rep
    requires trace == before + Row(k, 1, time) + (if k != rep && restTime.Some? then [Resting(restTime.value)] else [])
    ensures trace + Sets(k + 1, rep, time, restTime) == before + Sets(k, rep, time, restTime)
  {
    var rest := if k != rep && restTime.Some? then [Resting(restTime.value)] else [];
    SetsUnfold(k, rep, time, restTime);
    Associate(before, Row(k, 1, time), rest, Sets(k + 1, rep, time, restTime));
  }

  /** The `Timer` object; its attributes exist only once `count_the_timer` has set them. */
  class Timer {
    var time: int
    var rep: int
    var restTime: Option<int>

    constructor ()
    {
      time, rep, restTime := 0, 0, None;
    }

    /** `count_the_timer`: store the arguments, then for every set count 1..time
        and rest afterwards unless it was the last set. */
    method CountTheTimer(time: int, rep: int := 1, restTime: Option<int> := None) returns (trace: seq<Event>)
      modifies this
      ensures this.time == time && this.rep == rep && this.restTime == restTime
      ensures trace == RepeatTrace(time, rep, restTime)
    {
      this.time := time;
      this.rep := rep;
      this.restTime := restTime;
      trace := [Starting];
      var repCount := 1;
      while repCount <= this.rep
        invariant repCount <= rep + 1 || repCount == 1
        invariant this.time == time && this.rep == rep && this.restTime == restTime
        invariant trace + Sets(repCount, rep, time, restTime) == [Starting] + Sets(1, rep, time, restTime)
        decreases rep - repCount + 1
      {
        ghost var before := trace;
        var count := 1;
        while count <= this.time
          invariant count <= time + 1 || count == 1
          invariant this.time == time && this.rep == rep && this.restTime == restTime
          invariant trace + Row(repCount, count, time) == before + Row(repCount, 1, time)
          decreases time - count + 1
        {
          RowStep(trace, repCount, count, time);
          trace := trace + [Count(repCount, count)];
          count := count + 1;
        }
        assert Row(repCount, count, time) == [];
        assert trace == before + Row(repCount, 1, time);
        if repCount != this.rep && this.restTime.Some? {
          trace := trace + [Resting(this.restTime.value)];
        }
        SetStep(before, trace, repCount, rep, time, restTime);
        repCount := repCount + 1;
      }
      trace := trace + [Ended];
    }
  }

  /** `validate_time_input` on an already parsed integer: the positive integers pass. */
  function ValidateTimeInput(n: int): (r: Result<int, ()>)
    ensures r.Ok? <==> n > 0
    ensures r.Ok? ==> r.value == n
  {
    if n <= 0 then Err(()) else Ok(n)
  }

  /** The call `main` makes for the `count` command. */
  datatype Call = Call(time: int, rep: int, restTime: Option<int>)

  /** `main`: `--rest` is passed only with `--rep`; without `--rep` the call falls
      back to one set and no rest. `--time` is required by the parser. */
  function ChooseCall(time: int, rep: Option<int>, rest: Option<int>): (c: Call)
    ensures c.time == time
    ensures rep.Some? ==> c.rep == rep.value && c.restTime == rest
    ensures rep.None? ==> c.rep == 1 && c.restTime == None
  {
    if rep.Some? && rest.Some? then Call(time, rep.value, Some(rest.value))
    else if rep.Some? then Call(time, rep.value, None)
    else Call(time, 1, None)
  }

  /** Whatever options are given, the chosen call prints what the options ask for:
      `rep` sets with the given rest, or one set. */
  lemma ChosenCallHonoursOptions(time: int, rep: Option<int>, rest: Option<int>)
    ensures var c := ChooseCall(time, rep, rest);
            RepeatTrace(c.time, c.rep, c.restTime) ==
              RepeatTrace(time, if rep.Some? then rep.value else 1, rest)
  {
    if rep.None? {
      OneSetIgnoresRest(time, rest);
    }
  }
}
