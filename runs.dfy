/**
 * Maximal runs of equal bytes in a stream.
 *
 * This is the reference decomposition against which both scanners of
 * benches/main.rs are specified: `Runs(s)` splits `s` into blocks of
 * equal bytes, each as long as possible, and the lemmas below show that
 * it is the one and only such decomposition of `s`.
 */
module RunLength {

  /** A Rust `u8`. */
  type Byte = x: int | 0 <= x < 256

  /** `len` consecutive copies of `value`. */
  datatype Run = Run(value: Byte, len: nat)

  /** The number of consecutive bytes equal to `v` in `s` from index `i` on. */
  function RunFrom(s: seq<Byte>, i: nat, v: Byte): (n: nat)
    requires i <= |s|
    ensures i + n <= |s|
    ensures i < |s| && s[i] == v ==> n >= 1
    decreases |s| - i
  {
    if i == |s| || s[i] != v then 0 else 1 + RunFrom(s, i + 1, v)
  }

  /** The bytes `RunFrom` counts all equal `v`, and the byte after them does not. */
  lemma {:induction false} RunFromSpec(s: seq<Byte>, i: nat, v: Byte)
    requires i <= |s|
    ensures forall k :: i <= k < i + RunFrom(s, i, v) ==> s[k] == v
    ensures i + RunFrom(s, i, v) < |s| ==> s[i + RunFrom(s, i, v)] != v
    decreases |s| - i
  {
    if i < |s| && s[i] == v {
      RunFromSpec(s, i + 1, v);
    }
  }

  /** The two properties of `RunFromSpec` determine `RunFrom`. */
  lemma RunFromExact(s: seq<Byte>, i: nat, v: Byte, n: nat)
    requires i + n <= |s|
    requires forall k :: i <= k < i + n ==> s[k] == v
    requires i + n < |s| ==> s[i + n] != v
    ensures RunFrom(s, i, v) == n
  {
    RunFromSpec(s, i, v);
  }

  /** The maximal runs of `s[i..]`, from left to right. */
  function RunsFrom(s: seq<Byte>, i: nat): (rs: seq<Run>)
    requires i <= |s|
    ensures (rs == []) <==> (i == |s|)
    decreases |s| - i
  {
    if i == |s| then []
    else
      var n := RunFrom(s, i, s[i]);
      [Run(s[i], n)] + RunsFrom(s, i + n)
  }

  /** `RunsFrom` puts the run it finds at `i` in front of the runs after it. */
  lemma RunsFromStep(s: seq<Byte>, i: nat, r: Run, rest: seq<Run>)
    requires i < |s| && r.value == s[i] && r.len == RunFrom(s, i, s[i])
    requires RunsFrom(s, i + r.len) == rest
    ensures RunsFrom(s, i) == [r] + rest
  {
  }

  /**
   * A left-to-right scan that has split the runs `whole` of `s` into the
   * runs `done` before `start` and the runs from `start` on, and stands
   * before `n` bytes equal to `s[start]` followed by a different byte or
   * the end of `s`, closes the run of those `n` bytes.
   */
  lemma CloseRun(s: seq<Byte>, start: nat, n: nat, done: seq<Run>, whole: seq<Run>)
    requires start + n <= |s| && n >= 1
    requires forall k :: start <= k < start + n ==> s[k] == s[start]
    requires start + n < |s| ==> s[start + n] != s[start]
    requires whole == done + RunsFrom(s, start)
    ensures whole == (done + [Run(s[start], n)]) + RunsFrom(s, start + n)
  {
    RunFromExact(s, start, s[start], n);
    var rest := RunsFrom(s, start + n);
    RunsFromStep(s, start, Run(s[start], n), rest);
    Reassociate(done, Run(s[start], n), rest);
  }

  lemma Reassociate(done: seq<Run>, run: Run, rest: seq<Run>)
    ensures done + ([run] + rest) == (done + [run]) + rest
  {
  }

  /** The maximal runs of `s`, from left to right. */
  function Runs(s: seq<Byte>): seq<Run>
  {
    RunsFrom(s, 0)
  }

  function Repeat(v: Byte, n: nat): seq<Byte>
  {
    seq(n, _ => v)
  }

  /** The stream that a sequence of runs spells out. */
  function Expand(rs: seq<Run>): seq<Byte>
  {
    if rs == [] then [] else Repeat(rs[0].value, rs[0].len) + Expand(rs[1..])
  }

  /** Runs `k` and `k + 1` hold different bytes, so they could not be merged. */
  predicate Distinct(rs: seq<Run>, k: nat)
    requires k + 1 < |rs|
  {
    rs[k].value != rs[k + 1].value
  }

  /** No run is empty and no two neighbouring runs could be merged. */
  predicate Maximal(rs: seq<Run>)
  {
    (forall k :: 0 <= k < |rs| ==> rs[k].len >= 1)
    && (forall k: nat :: k + 1 < |rs| ==> Distinct(rs, k))
  }

  /** `RunsFrom(s, i)` spells out `s[i..]`. */
  lemma {:induction false} RunsExpand(s: seq<Byte>, i: nat)
    requires i <= |s|
    ensures Expand(RunsFrom(s, i)) == s[i..]
    decreases |s| - i
  {
    if i < |s| {
      var n := RunFrom(s, i, s[i]);
      RunFromSpec(s, i, s[i]);
      RunsExpand(s, i + n);
      var rs := RunsFrom(s, i);
      assert rs[1..] == RunsFrom(s, i + n);
      assert Repeat(s[i], n) == s[i..i + n];
      assert s[i..] == s[i..i + n] + s[i + n..];
    }
  }

  /** The runs of `s[i..]` are maximal. */
  lemma {:induction false} RunsMaximal(s: seq<Byte>, i: nat)
    requires i <= |s|
    ensures Maximal(RunsFrom(s, i))
    decreases |s| - i
  {
    if i < |s| {
      var n := RunFrom(s, i, s[i]);
      RunFromSpec(s, i, s[i]);
      RunsMaximal(s, i + n);
      var rs := RunsFrom(s, i);
      var rest := RunsFrom(s, i + n);
      assert rs == [Run(s[i], n)] + rest;
      forall k: nat | k + 1 < |rs|
        ensures Distinct(rs, k)
      {
        if k > 0 {
          assert Distinct(rest, k - 1);
          assert rs[k] == rest[k - 1] && rs[k + 1] == rest[k];
        }
      }
    }
  }

  /** `Runs(s)` is a decomposition of `s` into maximal runs. */
  lemma RunsDecompose(s: seq<Byte>)
    ensures Maximal(Runs(s))
    ensures Expand(Runs(s)) == s
  {
    RunsMaximal(s, 0);
    RunsExpand(s, 0);
  }

  lemma MaximalTail(rs: seq<Run>)
    requires rs != [] && Maximal(rs)
    ensures Maximal(rs[1..])
  {
    forall k: nat | k + 1 < |rs[1..]|
      ensures Distinct(rs[1..], k)
    {
      assert Distinct(rs, k + 1);
      assert rs[1..][k] == rs[k + 1] && rs[1..][k + 1] == rs[k + 2];
    }
  }

  /** A decomposition spells out its first run, then the rest. */
  lemma ExpandHead(rs: seq<Run>)
    requires rs != [] && rs[0].len >= 1
    ensures |Expand(rs)| >= rs[0].len
    ensures forall k :: 0 <= k < rs[0].len ==> Expand(rs)[k] == rs[0].value
    ensures Expand(rs)[rs[0].len..] == Expand(rs[1..])
  {
    assert Expand(rs) == Repeat(rs[0].value, rs[0].len) + Expand(rs[1..]);
  }

  /** The first run of a maximal decomposition of `s[i..]` is the run `RunFrom` finds at `i`. */
  lemma FirstRun(s: seq<Byte>, i: nat, rs: seq<Run>)
    requires i <= |s| && rs != [] && Maximal(rs) && Expand(rs) == s[i..]
    ensures i < |s| && s[i] == rs[0].value && i + rs[0].len <= |s|
    ensures RunFrom(s, i, s[i]) == rs[0].len
    ensures s[i + rs[0].len..] == Expand(rs[1..])
  {
    var r := rs[0];
    var n := r.len;
    ExpandHead(rs);
    forall k | i <= k < i + n
      ensures s[k] == r.value
    {
      assert s[k] == s[i..][k - i];
    }
    if 1 < |rs| {
      ExpandHead(rs[1..]);
      assert Distinct(rs, 0);
      assert s[i + n] == s[i..][n];
    }
    RunFromExact(s, i, r.value, n);
  }

  /** A maximal decomposition of `s[i..]` is the one `RunsFrom` computes. */
  lemma {:induction false} RunsFromUnique(s: seq<Byte>, i: nat, rs: seq<Run>)
    requires i <= |s| && Maximal(rs) && Expand(rs) == s[i..]
    ensures RunsFrom(s, i) == rs
    decreases |rs|
  {
    if rs != [] {
      var n := rs[0].len;
      FirstRun(s, i, rs);
      MaximalTail(rs);
      RunsFromUnique(s, i + n, rs[1..]);
      RunsFromStep(s, i, rs[0], rs[1..]);
      assert rs == [rs[0]] + rs[1..];
    }
  }

  /** Every maximal decomposition of a stream is the one `Runs` computes. */
  lemma RunsUnique(rs: seq<Run>)
    requires Maximal(rs)
    ensures Runs(Expand(rs)) == rs
  {
    var s := Expand(rs);
    assert s[0..] == s;
    RunsFromUnique(s, 0, rs);
  }

  /** The length of every run, in order. */
  function Lengths(rs: seq<Run>): seq<int>
  {
    seq(|rs|, k requires 0 <= k < |rs| => rs[k].len)
  }

  function Sum(xs: seq<int>): int
  {
    if xs == [] then 0 else xs[0] + Sum(xs[1..])
  }

  lemma {:induction false} SumConcat(a: seq<int>, b: seq<int>)
    ensures Sum(a + b) == Sum(a) + Sum(b)
  {
    if a == [] {
      assert a + b == b;
    } else {
      assert (a + b)[1..] == a[1..] + b;
      SumConcat(a[1..], b);
    }
  }

  lemma {:induction false} ExpandLength(rs: seq<Run>)
    ensures |Expand(rs)| == Sum(Lengths(rs))
  {
    if rs != [] {
      assert Lengths(rs)[1..] == Lengths(rs[1..]);
      ExpandLength(rs[1..]);
    }
  }

  /** The run lengths of a stream add up to its length, and none is zero. */
  lemma RunsCover(s: seq<Byte>)
    ensures Sum(Lengths(Runs(s))) == |s|
    ensures forall k :: 0 <= k < |Runs(s)| ==> Runs(s)[k].len >= 1
  {
    RunsDecompose(s);
    ExpandLength(Runs(s));
  }
}
