# Weather timestamp store — Dafny model

A model of the in-memory store behind the weather server in `src/main.rs`.
The server keeps one map from an `i64` timestamp to a weather sample.
`Weather::add` inserts a sample at its own timestamp and replaces any earlier
sample there. `Weather::get` answers a query timestamp with the sample whose
timestamp is nearest. It finds that key with `get_closest_timestamp`, a fold
over the map's keys that keeps the current best key. A later key replaces the
best only when it is strictly closer.

Layout:

- `optional.dfy` (module `Optional`): Rust's `Option`.
- `int64.dfy` (module `I64`): the `i64` range and the `-` and `abs` operations
  as they behave without overflow checks (wrapping modulo 2^64).
- `nearest.dfy` (module `Nearest`): the fold, its exact-arithmetic and
  wrapping-arithmetic versions, and the properties of the nearest key.
- `weather.dfy` (module `Weather`): the sample types, the `Store` class whose
  `Add` updates the map in place, `Get`, and the properties of sequences of adds.

The map's iteration order is arbitrary in Rust. The model takes it as a
parameter `order: seq<Int64>` that lists every key exactly once
(`IsIterationOrder`). Every claim about ties is stated relative to that order.

The code keeps the key that comes first in iteration order, not the smaller
timestamp. One might expect the smaller timestamp to win a tie; the code
does not do that, and the model follows the code. `TieFollowsIterationOrder` shows that
the keys 100 and 200 with query 150 give 100 in one order and 200 in the other.

## Model

| member | source | states |
|---|---|---|
| `I64.Wrap` | src/main.rs:61 | the `i64` result of an overflowing operation: the identity inside the `i64` range, congruent modulo 2^64 outside it |
| `I64.WrappingSub` | src/main.rs:61 | `k - query_timestamp` on `i64`: equal to the exact difference whenever that fits in an `i64` |
| `I64.WrappingAbs` | src/main.rs:61 | `.abs()` on `i64`: non-negative and equal to `a` or `-a` except at `i64::MIN`, which stays `i64::MIN` |
| `Nearest.Dist` | src/main.rs:61 | the intended distance `abs(k - q)`: zero exactly when `k == q`, and equal to `k - q` or `q - k` |
| `Nearest.WrappingDist` | src/main.rs:61 | the distance as written equals the exact distance whenever `k - q` neither overflows nor equals `i64::MIN` |
| `Nearest.Step` | src/main.rs:58-62 | the fold's closure: the result is always `Some`, and it is either the new key or the old accumulator |
| `Nearest.Fold` | src/main.rs:58-63 | the result is `None` only for `None` over no keys; it is the start value or one of the keys; it is never farther than the start value, nor farther than any key |
| `Nearest.Closest` | src/main.rs:57-64 | `None` exactly when there are no keys; otherwise a key from the sequence whose distance to the query is no larger than any key's |
| `Nearest.ClosestWrapping` | src/main.rs:57-64 | the function as written: `None` exactly when there are no keys; otherwise one of the keys, no farther than any key under the wrapping distance |
| `Nearest.FoldKeeps` | src/main.rs:61 | a best key no farther than any remaining key is never displaced, because replacement needs strict `<` |
| `Nearest.FirstNearestWins` | src/main.rs:61 | if index `i` holds the first key of minimal distance in iteration order, the result is that key |
| `Nearest.FirstNearestExists` | src/main.rs:57-63 | every non-empty key sequence has such a first key of minimal distance, so the two lemmas together fix the result |
| `Nearest.TieFollowsIterationOrder` | src/main.rs:58-63 | keys 100 and 200 with query 150 give 100 in one iteration order and 200 in the other |
| `Nearest.WrappingAgreesInSafeRange` | src/main.rs:61 | when no `k - q` overflows or equals `i64::MIN`, the code as written returns the same key as the exact version |
| `Nearest.WrappingPicksFarKey` | src/main.rs:61 | keys 0 and `i64::MAX` with query -1: the exact answer is 0, but the code as written returns `i64::MAX` in either order |
| `Nearest.WrappingMissesExactMatch` | src/main.rs:61 | keys 0 and `i64::MIN` with query 0: the exact match 0 is the right answer, but the code as written returns `i64::MIN` in either order |
| `Weather.Put` | src/main.rs:36 | `insert`: the key set gains the sample's timestamp, the sample is stored there, every other entry is unchanged, the size grows by one exactly when the timestamp is new, and keying by timestamp is preserved |
| `Weather.Store.constructor` | src/main.rs:11-13 | the store starts empty and keyed by timestamp |
| `Weather.Store.Add` | src/main.rs:33-38 | the new map is the old map with the sample put at its timestamp; the keying invariant is kept |
| `Weather.Get` | src/main.rs:41-53 | not found exactly when the store is empty; otherwise a stored sample; the sample at the first nearest key in iteration order; in a keyed store, a sample whose timestamp is nearest to the query |
| `Weather.GetAfterAdd` | src/main.rs:33-53 | right after adding a sample, a query at its timestamp returns that sample (for the corrected exact-distance `Get`) |
| `Weather.SecondAddReplaces` | src/main.rs:36 | two adds at one timestamp leave the same map as the second add alone |
| `Weather.PutAll` | src/main.rs:33-38 | a sequence of adds never shrinks the store, grows it by at most one entry per add, and keeps it keyed by timestamp |
| `Weather.PutAllKeepsLast` | src/main.rs:36 | after a sequence of adds, a timestamp is stored exactly when it was stored before or was added, and its sample is the last one added with that timestamp |
| `Weather.PutAllDistinctGrows` | src/main.rs:36 | adds at distinct, new timestamps grow the store by exactly one entry each |

## Left out

- The actix-web server, routes, CORS setup and `main` (src/main.rs:9-29) are transport and process start-up.
- The `Mutex` and the `unwrap` on a poisoned lock (src/main.rs:34, 42) are not modelled; the store is single-threaded, and each `Add` or `Get` is one atomic step.
- JSON decoding of the request and encoding of the response (src/main.rs:37, 46-51) are library calls. `Get` returns the sample or `NotFound` instead of an HTTP response.
- The `println!` of the timestamp (src/main.rs:35) is output only.
- The `validator` range attributes on the readings (src/main.rs:70-75) are never checked, because `add` never calls `validate()`. The readings are carried as `real` and never inspected, so `f64` rounding and NaN play no part.
- `Weather.Get` uses exact distance, the corrected behaviour. The wrapping behaviour of the code as written is `Nearest.ClosestWrapping`, under Findings.
- A build with overflow checks panics at `k - query_timestamp` or `.abs()` instead of wrapping. This panic is not modelled. It happens exactly when the store holds at least two keys and one of them lies outside `Nearest.SafeRange`. With one key the fold never subtracts.
- Weather.GetAfterAdd: holds only for the corrected `Get`. For the code as written, keys 0 and `i64::MIN` queried at 0 return the sample at `i64::MIN` without overflow checks (`Nearest.WrappingMissesExactMatch`), and panic with them.
- HashMap iteration order is a parameter. Nothing is claimed about which order Rust uses.

## Findings

| source | as written | input that shows it | evidently intended | confidence | as-written member | corrected member |
|---|---|---|---|---|---|---|
| src/main.rs:61 | `(k - query_timestamp).abs()` on `i64` overflows. Without overflow checks, `i64::MAX - (-1)` wraps to `i64::MIN`, whose `abs()` is still `i64::MIN`, so the farthest key looks closest. With overflow checks the handler panics while holding the lock. The same overflow breaks a query at a stored timestamp: keys 0 and `i64::MIN` queried at 0 give `i64::MIN`. | store timestamps 0 and `i64::MAX`, then query -1: the code returns the sample at `i64::MAX`, although 0 is at distance 1 | the key minimising the exact distance `abs(k - q)`, here 0 | not executed; high | `Nearest.ClosestWrapping` with `Nearest.WrappingPicksFarKey` and `Nearest.WrappingMissesExactMatch` | `Nearest.Closest` with `Nearest.FirstNearestWins` and `Nearest.FirstNearestExists`, used by `Weather.Get` |
