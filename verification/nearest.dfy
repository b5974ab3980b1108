/**
 The nearest-key search `get_closest_timestamp`: a left fold over the keys of
 the store, in the map's iteration order, that keeps the key closest to the
 query and replaces it only by a key that is strictly closer.
 */
module Nearest {
  import opened Optional
  import opened I64

  /** The distance the search minimises, as an unbounded integer: `|k - q|`. */
  function Dist(k: Int64, q: Int64): (d: nat)
    ensures d == 0 <==> k == q
    ensures k - q == d || q - k == d
  {
    if k < q then q - k else k - q
  }

  /** The distance as the source computes it: `(k - q).abs()` on wrapping `i64`. */
  function WrappingDist(k: Int64, q: Int64): (d: Int64)
    ensures MIN < k - q <= MAX ==> d == Dist(k, q)
  {
    WrappingAbs(WrappingSub(k, q))
  }

  /**
   How `k - q` and `abs` are evaluated: exactly, or as the source's `i64`
   operations do in a build without overflow checks.
   */
  datatype Arith = Exact | Wrapping

  /** The distance the fold compares, under either arithmetic. */
  function Distance(arith: Arith, k: Int64, q: Int64): int
  {
    match arith
    case Exact => Dist(k, q)
    case Wrapping => WrappingDist(k, q)
  }

  /** One step of the fold: the closure passed to `fold`. */
  function Step(arith: Arith, q: Int64, acc: Option<Int64>, k: Int64): (r: Option<Int64>)
    ensures r == Some(k) || r == acc
    ensures r.Some?
  {
    match acc
    case None => Some(k)
    case Some(closest) => if Distance(arith, k, q) < Distance(arith, closest, q) then Some(k) else acc
  }

  /** `keys.fold(acc, step)`, under either arithmetic. */
  function Fold(arith: Arith, q: Int64, acc: Option<Int64>, keys: seq<Int64>): (r: Option<Int64>)
    ensures r.None? <==> acc.None? && keys == []
    ensures r.Some? ==> r == acc || r.value in keys
    ensures r.Some? && acc.Some? ==> Distance(arith, r.value, q) <= Distance(arith, acc.value, q)
    ensures r.Some? ==> forall k :: k in keys ==> Distance(arith, r.value, q) <= Distance(arith, k, q)
    decreases |keys|
  {
    if keys == [] then acc
    else
      var next := Step(arith, q, acc, keys[0]);
      var r := Fold(arith, q, next, keys[1..]);
      assert forall k :: k in keys ==> k == keys[0] || k in keys[1..];
      r
  }

  /**
   `get_closest_timestamp` with the distance measured exactly: `None` exactly
   for no keys, otherwise a key of the sequence at least as close to `q` as
   every other key.
   */
  function Closest(keys: seq<Int64>, q: Int64): (r: Option<Int64>)
    ensures r.None? <==> keys == []
    ensures r.Some? ==> r.value in keys
    ensures r.Some? ==> forall k :: k in keys ==> Dist(r.value, q) <= Dist(k, q)
  {
    Fold(Exact, q, None, keys)
  }

  /** `get_closest_timestamp` exactly as written, with wrapping `i64` distance. */
  function ClosestWrapping(keys: seq<Int64>, q: Int64): (r: Option<Int64>)
    ensures r.None? <==> keys == []
    ensures r.Some? ==> r.value in keys
    ensures r.Some? ==> forall k :: k in keys ==> WrappingDist(r.value, q) <= WrappingDist(k, q)
  {
    Fold(Wrapping, q, None, keys)
  }

  /** Index `i` holds the first key, in iteration order, of minimal distance to `q`. */
  ghost predicate FirstNearest(keys: seq<Int64>, q: Int64, i: int)
  {
    && 0 <= i < |keys|
    && (forall j :: 0 <= j < |keys| ==> Dist(keys[i], q) <= Dist(keys[j], q))
    && (forall j :: 0 <= j < i ==> Dist(keys[i], q) < Dist(keys[j], q))
  }

  /** Once the accumulator holds a key no farther than any key left, the fold keeps it. */
  lemma {:induction false} FoldKeeps(q: Int64, c: Int64, keys: seq<Int64>)
    requires forall k :: k in keys ==> Dist(c, q) <= Dist(k, q)
    ensures Fold(Exact, q, Some(c), keys) == Some(c)
    decreases |keys|
  {
    if keys != [] {
      assert keys[0] in keys;
      assert Step(Exact, q, Some(c), keys[0]) == Some(c);
      forall k | k in keys[1..] ensures Dist(c, q) <= Dist(k, q) {
        assert k in keys;
      }
      FoldKeeps(q, c, keys[1..]);
    }
  }

  lemma {:induction false} FoldFindsFirst(q: Int64, acc: Option<Int64>, keys: seq<Int64>, i: int)
    requires FirstNearest(keys, q, i)
    requires acc.Some? ==> Dist(keys[i], q) < Dist(acc.value, q)
    ensures Fold(Exact, q, acc, keys) == Some(keys[i])
    decreases |keys|
  {
    var next := Step(Exact, q, acc, keys[0]);
    if i == 0 {
      assert next == Some(keys[0]);
      forall k | k in keys[1..] ensures Dist(keys[0], q) <= Dist(k, q) {
        var j :| 0 <= j < |keys[1..]| && keys[1..][j] == k;
        assert keys[j + 1] == k;
      }
      FoldKeeps(q, keys[0], keys[1..]);
    } else {
      assert Dist(keys[i], q) < Dist(keys[0], q);
      assert Dist(keys[i], q) < Dist(next.value, q);
      var rest := keys[1..];
      assert rest[i - 1] == keys[i];
      forall j | 0 <= j < |rest| ensures Dist(rest[i - 1], q) <= Dist(rest[j], q) {
        assert rest[j] == keys[j + 1];
      }
      forall j | 0 <= j < i - 1 ensures Dist(rest[i - 1], q) < Dist(rest[j], q) {
        assert rest[j] == keys[j + 1];
      }
      FoldFindsFirst(q, next, rest, i - 1);
    }
  }

  /**
   Ties go to iteration order: the key returned is the first key of the
   sequence whose distance to `q` is minimal, because a later key replaces
   the current best only when strictly closer.
   */
  lemma FirstNearestWins(keys: seq<Int64>, q: Int64, i: int)
    requires FirstNearest(keys, q, i)
    ensures Closest(keys, q) == Some(keys[i])
  {
    FoldFindsFirst(q, None, keys, i);
  }

  /** Every non-empty key sequence has a first nearest key. */
  lemma FirstNearestExists(keys: seq<Int64>, q: Int64)
    requires keys != []
    ensures exists i :: FirstNearest(keys, q, i)
  {
    var c := Closest(keys, q).value;
    var i := FirstAtDistance(keys, q, Dist(c, q));
    assert FirstNearest(keys, q, i);
  }

  /** The first index whose key is at distance `d` from `q`, when there is one. */
  lemma {:induction false} FirstAtDistance(keys: seq<Int64>, q: Int64, d: int) returns (i: int)
    requires exists j :: 0 <= j < |keys| && Dist(keys[j], q) == d
    ensures 0 <= i < |keys| && Dist(keys[i], q) == d
    ensures forall j :: 0 <= j < i ==> Dist(keys[j], q) != d
    decreases |keys|
  {
    if Dist(keys[0], q) == d {
      i := 0;
    } else {
      var j :| 0 <= j < |keys| && Dist(keys[j], q) == d;
      assert keys[1..][j - 1] == keys[j];
      var i' := FirstAtDistance(keys[1..], q, d);
      i := i' + 1;
      forall j' | 0 <= j' < i ensures Dist(keys[j'], q) != d {
        if j' > 0 { assert keys[j'] == keys[1..][j' - 1]; }
      }
    }
  }

  /**
   The tie rule depends on iteration order, not on the timestamps: the same
   two keys, equidistant from the query, give different answers in the two
   orders, and the smaller key does not always win.
   */
  lemma TieFollowsIterationOrder()
    ensures Closest([100, 200], 150) == Some(100)
    ensures Closest([200, 100], 150) == Some(200)
  {
  }

  /** Every key whose exact distance fits in an `i64` that is not `i64::MIN`. */
  ghost predicate SafeRange(keys: seq<Int64>, q: Int64)
  {
    forall k :: k in keys ==> MIN < k - q <= MAX
  }

  lemma {:induction false} FoldAgrees(a1: Arith, a2: Arith,
                                      q: Int64, acc: Option<Int64>, keys: seq<Int64>)
    requires forall k :: k in keys ==> Distance(a1, k, q) == Distance(a2, k, q)
    requires acc.Some? ==> Distance(a1, acc.value, q) == Distance(a2, acc.value, q)
    ensures Fold(a1, q, acc, keys) == Fold(a2, q, acc, keys)
    decreases |keys|
  {
    if keys != [] {
      assert keys[0] in keys;
      assert Step(a1, q, acc, keys[0]) == Step(a2, q, acc, keys[0]);
      forall k | k in keys[1..] ensures Distance(a1, k, q) == Distance(a2, k, q) {
        assert k in keys;
      }
      FoldAgrees(a1, a2, q, Step(a1, q, acc, keys[0]), keys[1..]);
    }
  }

  /** Where no subtraction overflows, the code as written returns the exact nearest key. */
  lemma WrappingAgreesInSafeRange(keys: seq<Int64>, q: Int64)
    requires SafeRange(keys, q)
    ensures ClosestWrapping(keys, q) == Closest(keys, q)
  {
    FoldAgrees(Wrapping, Exact, q, None, keys);
  }

  /**
   Outside that range the wrapping distance goes wrong: with keys 0 and
   `i64::MAX` and query -1, `i64::MAX - (-1)` wraps to `i64::MIN`, whose
   `abs()` is still `i64::MIN`, so the far key looks closest in either order.
   */
  lemma WrappingPicksFarKey()
    ensures Dist(0, -1) < Dist(MAX, -1)
    ensures Closest([0, MAX], -1) == Some(0)
    ensures ClosestWrapping([0, MAX], -1) == Some(MAX)
    ensures ClosestWrapping([MAX, 0], -1) == Some(MAX)
  {
  }

  /**
   The same overflow defeats a query at a stored timestamp: with keys 0 and
   `i64::MIN` and query 0, `(i64::MIN - 0).abs()` is `i64::MIN`, below the
   distance 0 of the exact match, so the code as written returns `i64::MIN`
   in either order.
   */
  lemma WrappingMissesExactMatch()
    ensures Closest([0, MIN], 0) == Some(0)
    ensures ClosestWrapping([0, MIN], 0) == Some(MIN)
    ensures ClosestWrapping([MIN, 0], 0) == Some(MIN)
  {
    assert WrappingDist(MIN, 0) == MIN < WrappingDist(0, 0);
  }

}
