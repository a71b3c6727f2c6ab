/**
 * `create_stream` of benches/main.rs: a byte buffer grown batch by batch
 * until it holds at least `size` bytes, then cut back to exactly `size`.
 *
 * The random number generator is an oracle `draws: nat -> Draw`: the n-th
 * pass of the loop consumes `draws(n)`, which records the outcome of the
 * class coin flip, the index drawn from the class's weighted distribution
 * and (for class 0) the per-byte values drawn from the uniform range.
 */
module Generator {
  import opened RunLength

  /** The possible batch lengths, indexed by the weighted-distribution draw. */
  const Choices: seq<nat> := [1, 2, 3, 4, 5, 6, 7, 8, 9, 10]

  /** A `WeightedIndex` over ten weights yields an index below ten. */
  type LenIdx = x: int | 0 <= x < 10

  /** The batch length that the index `i` selects. */
  lemma ChoicesAt(i: LenIdx)
    ensures Choices[i] == i + 1
  {
  }

  /** `Uniform::new_inclusive(10, 20)` yields a byte in 10..=20. */
  type Class0Value = b: Byte | 10 <= b <= 20 witness 10

  datatype RawDraw = RawDraw(isClass1: bool, lenIdx: LenIdx, class0Values: seq<Class0Value>)

  /**
   * One pass of the loop draws one value per pushed byte of a class-0
   * batch, that is `Choices[lenIdx] == lenIdx + 1` of them.
   */
  type Draw = d: RawDraw | d.isClass1 || |d.class0Values| == d.lenIdx + 1
    witness RawDraw(true, 0, [])

  /** The bytes a class-0 or class-1 batch may contain. */
  predicate InAlphabet(b: Byte)
  {
    b == 1 || 10 <= b <= 20
  }

  function Ones(n: nat): seq<Byte>
  {
    seq(n, _ => 1)
  }

  /** The bytes one pass of the loop pushes. */
  function Batch(d: Draw): (r: seq<Byte>)
    ensures 1 <= |r| <= 10
    ensures forall k :: 0 <= k < |r| ==> InAlphabet(r[k])
  {
    if d.isClass1 then Ones(d.lenIdx + 1) else d.class0Values
  }

  /** The buffer after the first `n` passes, before any truncation. */
  function Appended(draws: nat -> Draw, n: nat): (r: seq<Byte>)
    ensures |r| >= n
  {
    if n == 0 then [] else Appended(draws, n - 1) + Batch(draws(n - 1))
  }

  /** The buffer only grows from one pass to the next. */
  lemma {:induction false} AppendedGrows(draws: nat -> Draw, m: nat, n: nat)
    requires m < n
    ensures |Appended(draws, m)| < |Appended(draws, n)|
    decreases n
  {
    if m < n - 1 {
      AppendedGrows(draws, m, n - 1);
    }
  }

  function BatchesFrom(size: nat, draws: nat -> Draw, k: nat): (n: nat)
    requires k >= 1
    requires k == 1 || |Appended(draws, k - 1)| < size
    ensures n >= k && |Appended(draws, n)| >= size
    ensures n == 1 || |Appended(draws, n - 1)| < size
    decreases size - |Appended(draws, k)|
  {
    if |Appended(draws, k)| >= size then k else BatchesFrom(size, draws, k + 1)
  }

  /**
   * How many passes the loop makes: the first pass after which the buffer
   * holds `size` bytes, and never fewer than one, since the loop pushes
   * before it tests the length.
   */
  function BatchCount(size: nat, draws: nat -> Draw): (n: nat)
    ensures n >= 1 && |Appended(draws, n)| >= size
    ensures forall m :: 1 <= m < n ==> |Appended(draws, m)| < size
  {
    var n := BatchesFrom(size, draws, 1);
    assert forall m :: 1 <= m < n ==> |Appended(draws, m)| < size by {
      forall m | 1 <= m < n - 1 {
        AppendedGrows(draws, m, n - 1);
      }
    }
    n
  }

  /** The loop stops after pass `k` exactly when `k` is `BatchCount`. */
  lemma BatchCountExact(size: nat, draws: nat -> Draw, k: nat)
    requires k >= 1 && |Appended(draws, k)| >= size
    requires k == 1 || |Appended(draws, k - 1)| < size
    ensures BatchCount(size, draws) == k
  {
    var n := BatchCount(size, draws);
    if n < k {
      if n < k - 1 {
        AppendedGrows(draws, n, k - 1);
      }
    }
  }

  /** The stream `create_stream(size)` returns for the oracle `draws`. */
  function Generated(size: nat, draws: nat -> Draw): (r: seq<Byte>)
    ensures |r| == size
  {
    Appended(draws, BatchCount(size, draws))[..size]
  }

  lemma {:induction false} AppendedAlphabet(draws: nat -> Draw, n: nat)
    ensures forall k :: 0 <= k < |Appended(draws, n)| ==> InAlphabet(Appended(draws, n)[k])
  {
    if n > 0 {
      AppendedAlphabet(draws, n - 1);
      var before, batch := Appended(draws, n - 1), Batch(draws(n - 1));
      assert Appended(draws, n) == before + batch;
      forall k | 0 <= k < |before + batch|
        ensures InAlphabet((before + batch)[k])
      {
        if k >= |before| {
          assert (before + batch)[k] == batch[k - |before|];
        }
      }
    }
  }

  /** Every byte of the stream is the class-1 byte 1 or a class-0 value in 10..=20. */
  lemma GeneratedAlphabet(size: nat, draws: nat -> Draw)
    ensures forall k :: 0 <= k < size ==> InAlphabet(Generated(size, draws)[k])
  {
    AppendedAlphabet(draws, BatchCount(size, draws));
  }

  /**
   * Truncation only touches the last batch: every batch but the last is
   * kept whole, and at most the last batch's length in bytes is popped
   * (strictly fewer when `size > 0`, and never more than ten).
   */
  lemma TruncationBound(size: nat, draws: nat -> Draw)
    ensures var n := BatchCount(size, draws);
      var kept := Appended(draws, n - 1);
      var popped := |Appended(draws, n)| - size;
      |kept| <= size
      && Generated(size, draws)[..|kept|] == kept
      && popped <= |Batch(draws(n - 1))| <= 10
      && (size > 0 ==> popped < |Batch(draws(n - 1))|)
  {
    var n := BatchCount(size, draws);
    var kept := Appended(draws, n - 1);
    var full := Appended(draws, n);
    assert full == kept + Batch(draws(n - 1));
    if n > 1 {
      assert |Appended(draws, n - 1)| < size;
    }
    assert full[..size][..|kept|] == kept;
  }

  /** The two `for` loops of `create_stream` that push one batch. */
  method PushBatch(buffer: seq<Byte>, d: Draw) returns (result: seq<Byte>)
    ensures result == buffer + Batch(d)
  {
    result := buffer;
    var count := Choices[d.lenIdx];
    ChoicesAt(d.lenIdx);
    if !d.isClass1 {
      for j := 0 to count
        invariant result == buffer + d.class0Values[..j]
      {
        result := result + [d.class0Values[j]];
      }
      assert d.class0Values[..count] == Batch(d);
    } else {
      for j := 0 to count
        invariant result == buffer + Ones(j)
      {
        result := result + [1];
      }
    }
  }

  /** The loop that pops the `|buffer| - size` trailing bytes. */
  method Truncate(buffer: seq<Byte>, size: nat) returns (result: seq<Byte>)
    requires size <= |buffer|
    ensures result == buffer[..size]
  {
    result := buffer;
    var surplus := |buffer| - size;
    for j := 0 to surplus
      invariant result == buffer[..|buffer| - j]
    {
      result := result[..|result| - 1];
    }
  }

  /**
   * The loop of `create_stream`: push one batch per pass, and once the
   * buffer holds `size` bytes pop the surplus and stop.
   */
  method CreateStream(size: nat, draws: nat -> Draw) returns (result: seq<Byte>)
    ensures result == Generated(size, draws)
    ensures |result| == size
    ensures forall k :: 0 <= k < |result| ==> InAlphabet(result[k])
  {
    result := [];
    var pass: nat := 0;
    while true
      invariant result == Appended(draws, pass)
      invariant pass == 0 || |result| < size
      invariant |result| <= size
      decreases size - |result|
    {
      ghost var before := result;
      result := PushBatch(result, draws(pass));
      pass := pass + 1;
      assert before == Appended(draws, pass - 1);
      if |result| >= size {
        BatchCountExact(size, draws, pass);
        result := Truncate(result, size);
        break;
      }
    }
    assert |result| == size;
    GeneratedAlphabet(size, draws);
  }
}
