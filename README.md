# Value-dispatch benchmark, verified

This project models the functional core of the benchmark `benches/main.rs`:

- `create_stream(size)` builds a byte stream. It appends batches of one to ten bytes until the buffer holds at least `size` bytes. A batch is either class 0 (values in 10..=20) or class 1 (the byte 1). It then pops the surplus tail.
- The closure of `no_dispatch_impl` scans the stream in one `for` loop. It counts repeats of the current byte and emits the count at every change of value.
- The closure of `dispatch_impl` scans the stream in an outer `while` loop. The loop hands each run to one of two inner loops: one specialised to the byte 1, one general.

Modules:

- `RunLength` (runs.dfy) is the reference meaning of both scanners. `Runs(s)` is the decomposition of `s` into maximal runs of equal bytes. The lemmas prove that it spells out `s`, that it is maximal, and that it is the only maximal decomposition.
- `Generator` (generator.dfy) models `create_stream`. The random number generator becomes an oracle `draws: nat -> Draw`: pass `n` of the loop consumes `draws(n)`. A `Draw` records three things: the class coin flip, the length index drawn from the weighted distribution, and, for class 0, one uniform value per byte. `Generated(size, draws)` is the stream as a function of its inputs. The method `CreateStream` keeps the source's push/pop loop and is proved to return `Generated(size, draws)`.
- `Scanners` (scanners.dfy) models the two closures as methods over the stream. Each call of `black_box(x)` appends `x` to a returned trace `seq<int>`. Each method is proved equal to a trace function over `Runs(stream)`:
  - `no_dispatch_impl` emits `len - 1` for every run but the last, then the last byte.
  - `dispatch_impl` emits the full length of every run, the last one included, then the last byte.

The dispatch scanner starts at index 0 and does not step past the mismatching byte. So every byte is counted in exactly one emitted skip, and the last inner loop is followed by a `black_box(skip)` like all the others. This is why the end condition differs between the two scanners:

- A stream of one repeated byte makes no-dispatch emit only that byte, but makes dispatch emit the stream's length first (`Scanners.UniformStream`).
- No-dispatch's emitted skips do not account for the whole stream on their own. Add one for each change of value and the last run's unemitted skip, and the total is the stream length minus one (`Scanners.NoDispatchSkips`).

## Model

| member | source | states |
|---|---|---|
| `RunLength.RunFrom` | benches/main.rs:104-111 | the count an inner loop reaches from `i` stays within the stream and is at least 1 when the byte at `i` matches |
| `RunLength.RunFromSpec` | benches/main.rs:116-123 | every byte the count covers equals the run's value, and the byte after them (if any) differs, which is where the inner loop breaks |
| `RunLength.RunFromExact` | benches/main.rs:116-123 | a count with those two properties is the count itself, so the loop's exit condition pins down how many bytes it consumed |
| `RunLength.RunsFrom` | benches/main.rs:101-128 | the decomposition of the suffix from `i` is empty exactly when `i` is the end of the stream |
| `RunLength.CloseRun` | benches/main.rs:82-88 | a left-to-right scan that has consumed one run whole (equal bytes, then a different byte or the end) moves that run from the pending suffix onto the list of finished runs |
| `RunLength.RunsExpand` | benches/main.rs:101-128 | the runs of the suffix from `i` spell out exactly that suffix |
| `RunLength.RunsMaximal` | benches/main.rs:101-128 | the runs of the suffix from `i` are non-empty and no two neighbours hold the same byte |
| `RunLength.RunsDecompose` | benches/main.rs:79-90 | `Runs(s)` is a maximal decomposition of `s` that spells out `s` |
| `RunLength.RunsFromUnique` | benches/main.rs:101-128 | any maximal decomposition of a suffix is the one `RunsFrom` computes |
| `RunLength.RunsUnique` | benches/main.rs:79-90 | any maximal decomposition `rs` is the one `Runs` computes on the stream `rs` spells out, so the scanners' traces are fixed by the stream's runs |
| `RunLength.RunsCover` | benches/main.rs:97-129 | the run lengths of a stream add up to its length and none is zero |
| `Generator.ChoicesAt` | benches/main.rs:32 | the length table maps index `i` to `i + 1`, so every index below 10 selects a length in 1..=10 |
| `Generator.Batch` | benches/main.rs:51-62 | one pass pushes between 1 and 10 bytes, each either 1 or in 10..=20 |
| `Generator.Appended` | benches/main.rs:49-62 | after `n` passes the buffer holds at least `n` bytes |
| `Generator.AppendedGrows` | benches/main.rs:49-62 | the buffer grows strictly with every pass |
| `Generator.BatchesFrom` | benches/main.rs:49-70 | searching from pass `k` before the buffer reached `size` finds a pass at or after `k` whose buffer reaches `size`, with the buffer still short before it |
| `Generator.BatchCount` | benches/main.rs:49-70 | the loop makes at least one pass, even when `size` is 0; after the last pass the buffer holds `size` bytes, and after every earlier pass it holds fewer |
| `Generator.BatchCountExact` | benches/main.rs:64-70 | the first pass after which the length test succeeds is `BatchCount` |
| `Generator.Generated` | benches/main.rs:72 | the generated stream holds exactly `size` bytes |
| `Generator.AppendedAlphabet` | benches/main.rs:51-62 | every byte pushed in the first `n` passes is 1 or in 10..=20 |
| `Generator.GeneratedAlphabet` | benches/main.rs:45-60 | every byte of the generated stream is 1 or in 10..=20 |
| `Generator.TruncationBound` | benches/main.rs:49-69 | all batches but the last survive whole at the front of the stream; the popped tail fits in the last batch, so it has at most 10 bytes and fewer than the batch when `size > 0` |
| `Generator.PushBatch` | benches/main.rs:51-62 | the two push loops append exactly the batch the draw describes: the drawn class-0 values, or `lenIdx + 1` ones |
| `Generator.Truncate` | benches/main.rs:64-69 | popping `len - size` times leaves the length-`size` prefix |
| `Generator.CreateStream` | benches/main.rs:27-74 | the loop returns `Generated(size, draws)`: the length-`size` prefix of the batches pushed up to the first pass that reaches `size`; its length is `size` (the final `assert!` holds) and every byte is 1 or in 10..=20 |
| `Scanners.NoDispatch` | benches/main.rs:79-90 | the trace is `len - 1` of every maximal run but the last, then the last byte of the stream; the stream must be non-empty |
| `Scanners.ConsumeOnes` | benches/main.rs:104-111 | the `current == 1` inner loop stops at the end of the run of ones from `i`, adds its length to `skip`, and leaves `next` at the mismatching byte, at 1 when it reaches the end, or at 0 only when it reads nothing |
| `Scanners.ConsumeRun` | benches/main.rs:116-123 | the general inner loop has the same contract with 1 replaced by `current`, so for `current == 1` both arms consume the same bytes and leave the same `skip` and `next` |
| `Scanners.Dispatch` | benches/main.rs:97-129 | the trace is the full length of every maximal run, the last included, then the last byte; the proof keeps the invariant that `current` is the byte at `i` (the last byte once `i` reaches the end), so the initial `next = 0` never becomes `current` and each outer pass advances `i` |
| `Scanners.TracesRelated` | benches/main.rs:79-129 | dispatch emits one value more than no-dispatch; at each shared skip position it is larger by 1; its extra skip is the length of the last run; both traces end with the last byte of the stream |
| `Scanners.DispatchSkips` | benches/main.rs:97-129 | every skip dispatch emits is at least 1, and together they add up to the stream length |
| `Scanners.NoDispatchSkips` | benches/main.rs:79-90 | every skip no-dispatch emits is non-negative; its skips, plus one per change of value, plus the last run's unemitted skip, add up to the stream length minus one |
| `Scanners.UniformStream` | benches/main.rs:79-129 | on a stream of one repeated byte, no-dispatch emits only that byte, and dispatch emits the stream length and then that byte |
| `Scanners.ThreeRuns` | benches/main.rs:79-129 | on 0,0,0,1,1,1,0,0,0,0, no-dispatch emits 2, 2, 0 and dispatch emits 3, 3, 4, 0 |

## Left out

- Random sampling (`thread_rng`, `WeightedIndex`, `Uniform`, and `Bernoulli` with its `f64` probability, benches/main.rs:29, 42-48): replaced by the oracle `draws`. Probabilities are not functional behaviour. The draws the oracle may return are a superset of the values these distributions can yield: a class flag, any index below 10, values in 10..=20.
- Generator.Draw: allows any length index for either class. The weights at benches/main.rs:39-40 give all their mass to index 0 (class 0) and index 9 (class 1). Every property above holds for all indices, so they hold for these two in particular.
- The `Bencher` / `b.iter` harness and `#![feature(test)]`: timing plumbing. Both scanners are modelled on an arbitrary stream, not only on `create_stream(1 << 18)`.
- `black_box`: only its role of observing a value is kept, as a trace append. Its role as an optimisation barrier is not modelled.
- `Vec::with_capacity(size + 16)`: an allocation hint with no observable effect. The buffer is a `seq` that the methods reassign, so `push` is an append and `pop` drops the last element.
- Scanners.NoDispatch, Scanners.Dispatch: `skip` (inferred `i32` in the source) is a `nat`. Overflow is not modelled: it cannot happen for the streams of 2^18 bytes the benchmark scans.
- Scanners.NoDispatch, Scanners.Dispatch: reading `stream[0]` on an empty stream panics in the source. The model requires a non-empty stream.
- Scanners.ConsumeOnes, Scanners.ConsumeRun: the two inner `while` loops of `dispatch_impl` are extracted as methods. They return the advanced index, the updated `skip` and the last `next`, exactly the variables the inlined loops change.
