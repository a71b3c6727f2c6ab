/**
 * The two measured closures of benches/main.rs, with `black_box(x)`
 * modelled as appending `x` to an observation trace.
 *
 * Both scanners read `stream[0]` first, so both demand a non-empty stream.
 * What each emits is stated against the maximal runs `Runs(stream)`:
 * `no_dispatch_impl` emits one less than the length of every run but the
 * last, `dispatch_impl` the full length of every run including the last;
 * both finish with the last byte of the stream.
 */
module Scanners {
  import opened RunLength

  /** One less than the length of every run, in order. */
  function Decremented(rs: seq<Run>): seq<int>
  {
    seq(|rs|, k requires 0 <= k < |rs| => rs[k].len - 1)
  }

  lemma DecrementedSnoc(done: seq<Run>, run: Run)
    ensures Decremented(done + [run]) == Decremented(done) + [run.len - 1]
  {
  }

  lemma LengthsSnoc(done: seq<Run>, run: Run)
    ensures Lengths(done + [run]) == Lengths(done) + [run.len]
  {
  }

  /** The trace of `no_dispatch_impl`. */
  function NoDispatchTrace(stream: seq<Byte>): seq<int>
    requires |stream| > 0
  {
    var rs := Runs(stream);
    Decremented(rs[..|rs| - 1]) + [stream[|stream| - 1]]
  }

  /** The trace of `dispatch_impl`. */
  function DispatchTrace(stream: seq<Byte>): seq<int>
    requires |stream| > 0
  {
    Lengths(Runs(stream)) + [stream[|stream| - 1]]
  }

  /** The closure of `no_dispatch_impl`: one pass comparing each byte with the previous one. */
  method NoDispatch(stream: seq<Byte>) returns (trace: seq<int>)
    requires |stream| > 0
    ensures trace == NoDispatchTrace(stream)
  {
    var current := stream[0];
    var skip: nat := 0;
    trace := [];
    ghost var done: seq<Run> := [];
    ghost var start: nat := 0;
    for idx := 1 to |stream|
      invariant start + skip + 1 == idx
      invariant current == stream[idx - 1]
      invariant forall k :: start <= k < idx ==> stream[k] == current
      invariant Runs(stream) == done + RunsFrom(stream, start)
      invariant trace == Decremented(done)
    {
      var next := stream[idx];
      if current == next {
        skip := skip + 1;
      } else {
        ghost var run := Run(current, skip + 1);
        CloseRun(stream, start, skip + 1, done, Runs(stream));
        DecrementedSnoc(done, run);
        current := next;
        trace := trace + [skip];
        skip := 0;
        done := done + [run];
        start := idx;
      }
    }
    ghost var last := Run(current, skip + 1);
    CloseRun(stream, start, skip + 1, done, Runs(stream));
    assert Runs(stream) == done + [last];
    assert Runs(stream)[..|Runs(stream)| - 1] == done;
    trace := trace + [current];
  }

  /**
   * The inner loop of the `current == 1` arm: consume bytes equal to 1,
   * starting at `i` with `skip` already counted. The loop leaves `next`
   * at the mismatching byte, at the last byte consumed when it runs to
   * the end of the stream, and at its initial 0 only when it reads nothing.
   */
  method ConsumeOnes(stream: seq<Byte>, i: nat, skip: nat) returns (end: nat, count: nat, next: Byte)
    requires i <= |stream|
    ensures end == i + RunFrom(stream, i, 1)
    ensures count == skip + (end - i)
    ensures next == if end < |stream| then stream[end] else if end > i then 1 else 0
  {
    end, count := i, skip;
    next := 0;
    while end < |stream|
      invariant i <= end <= |stream|
      invariant count == skip + (end - i)
      invariant forall k :: i <= k < end ==> stream[k] == 1
      invariant next == if end > i then 1 else 0
    {
      next := stream[end];
      if next != 1 {
        break;
      }
      count := count + 1;
      end := end + 1;
    }
    RunFromExact(stream, i, 1, end - i);
  }

  /**
   * The inner loop of the general arm: consume bytes equal to `current`.
   * Its contract is that of `ConsumeOnes` with 1 replaced by `current`,
   * so for `current == 1` the two arms are interchangeable.
   */
  method ConsumeRun(stream: seq<Byte>, i: nat, skip: nat, current: Byte) returns (end: nat, count: nat, next: Byte)
    requires i <= |stream|
    ensures end == i + RunFrom(stream, i, current)
    ensures count == skip + (end - i)
    ensures next == if end < |stream| then stream[end] else if end > i then current else 0
  {
    end, count := i, skip;
    next := 0;
    while end < |stream|
      invariant i <= end <= |stream|
      invariant count == skip + (end - i)
      invariant forall k :: i <= k < end ==> stream[k] == current
      invariant next == if end > i then current else 0
    {
      next := stream[end];
      if current != next {
        break;
      }
      count := count + 1;
      end := end + 1;
    }
    RunFromExact(stream, i, current, end - i);
  }

  /**
   * The closure of `dispatch_impl`: select an inner loop by the value of
   * `current`, let it consume the run starting at `i`, emit its length.
   */
  method Dispatch(stream: seq<Byte>) returns (trace: seq<int>)
    requires |stream| > 0
    ensures trace == DispatchTrace(stream)
  {
    var current := stream[0];
    var skip: nat := 0;
    var i: nat := 0;
    trace := [];
    ghost var done: seq<Run> := [];
    while i < |stream|
      invariant i <= |stream|
      invariant i < |stream| ==> stream[i] == current
      invariant i == |stream| ==> current == stream[|stream| - 1]
      invariant skip == 0
      invariant Runs(stream) == done + RunsFrom(stream, i)
      invariant trace == Lengths(done)
      decreases |stream| - i
    {
      ghost var start := i;
      var next: Byte;
      if current == 1 {
        i, skip, next := ConsumeOnes(stream, i, skip);
      } else {
        i, skip, next := ConsumeRun(stream, i, skip, current);
      }
      RunFromSpec(stream, start, current);
      ghost var run := Run(current, skip);
      CloseRun(stream, start, skip, done, Runs(stream));
      LengthsSnoc(done, run);
      current := next;
      trace := trace + [skip];
      skip := 0;
      done := done + [run];
    }
    assert Runs(stream) == done;
    trace := trace + [current];
  }

  /**
   * The two traces side by side: dispatch emits one more value, every
   * skip no-dispatch emits is one less than dispatch's at the same
   * position, the extra one is the full length of the last run, and both
   * end with the last byte of the stream.
   */
  lemma TracesRelated(stream: seq<Byte>)
    requires |stream| > 0
    ensures var d, n, rs := DispatchTrace(stream), NoDispatchTrace(stream), Runs(stream);
      |d| == |n| + 1
      && (forall k :: 0 <= k < |n| - 1 ==> d[k] == n[k] + 1)
      && d[|d| - 2] == rs[|rs| - 1].len
      && d[|d| - 1] == n[|n| - 1] == stream[|stream| - 1]
  {
  }

  /** Dispatch's skips are the run lengths: none is zero and together they cover the stream. */
  lemma DispatchSkips(stream: seq<Byte>)
    requires |stream| > 0
    ensures var d := DispatchTrace(stream);
      (forall k :: 0 <= k < |d| - 1 ==> d[k] >= 1)
      && Sum(d[..|d| - 1]) == |stream|
  {
    RunsCover(stream);
    var d := DispatchTrace(stream);
    assert d[..|d| - 1] == Lengths(Runs(stream));
  }

  lemma {:induction false} SumDecremented(rs: seq<Run>)
    ensures Sum(Decremented(rs)) == Sum(Lengths(rs)) - |rs|
  {
    if rs != [] {
      assert Decremented(rs)[1..] == Decremented(rs[1..]);
      assert Lengths(rs)[1..] == Lengths(rs[1..]);
      SumDecremented(rs[1..]);
    }
  }

  /**
   * No-dispatch's skips, plus one per run boundary, plus the skip of the
   * last run that it never emits, account for every byte but the first.
   */
  lemma NoDispatchSkips(stream: seq<Byte>)
    requires |stream| > 0
    ensures var n, rs := NoDispatchTrace(stream), Runs(stream);
      (forall k :: 0 <= k < |n| - 1 ==> n[k] >= 0)
      && Sum(n[..|n| - 1]) + (|n| - 1) + (rs[|rs| - 1].len - 1) == |stream| - 1
  {
    var rs := Runs(stream);
    var init := rs[..|rs| - 1];
    RunsCover(stream);
    SumDecremented(init);
    assert rs == init + [rs[|rs| - 1]];
    LengthsSnoc(init, rs[|rs| - 1]);
    SumConcat(Lengths(init), [rs[|rs| - 1].len]);
    var n := NoDispatchTrace(stream);
    assert n[..|n| - 1] == Decremented(init);
  }

  /**
   * A stream of one repeated byte is a single run: no-dispatch emits only
   * that byte, dispatch emits the stream's length and then that byte.
   */
  lemma UniformStream(stream: seq<Byte>)
    requires |stream| > 0
    requires forall k :: 0 <= k < |stream| ==> stream[k] == stream[0]
    ensures NoDispatchTrace(stream) == [stream[0]]
    ensures DispatchTrace(stream) == [|stream|, stream[0]]
  {
    var rs := [Run(stream[0], |stream|)];
    assert Expand(rs) == Repeat(stream[0], |stream|) + Expand([]);
    assert Expand(rs) == stream;
    RunsUnique(rs);
  }

  /**
   * The stream 0,0,0,1,1,1,0,0,0,0: no-dispatch emits 2, 2, then the
   * last byte 0; dispatch emits the three run lengths 3, 3, 4, then 0.
   */
  lemma ThreeRuns()
    ensures NoDispatchTrace([0, 0, 0, 1, 1, 1, 0, 0, 0, 0]) == [2, 2, 0]
    ensures DispatchTrace([0, 0, 0, 1, 1, 1, 0, 0, 0, 0]) == [3, 3, 4, 0]
  {
    var rs := [Run(0, 3), Run(1, 3), Run(0, 4)];
    assert Distinct(rs, 0) && Distinct(rs, 1);
    assert Expand(rs[2..]) == [0, 0, 0, 0] by {
      assert Expand(rs[2..]) == Repeat(0, 4) + Expand([]);
    }
    assert Expand(rs[1..]) == [1, 1, 1, 0, 0, 0, 0] by {
      assert rs[1..][1..] == rs[2..];
      assert Expand(rs[1..]) == Repeat(1, 3) + Expand(rs[2..]);
    }
    assert Expand(rs) == [0, 0, 0, 1, 1, 1, 0, 0, 0, 0] by {
      assert Expand(rs) == Repeat(0, 3) + Expand(rs[1..]);
    }
    RunsUnique(rs);
  }
}
