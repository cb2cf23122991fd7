/** The negative sampler: the lexical-overlap test `_are_different_uttrs`
    and the retry loop that draws pool utterances until one passes it. */
module NegativeSampling {
  import opened Results
  import opened Utterances

  /** `set(ids)`: the distinct token ids of an utterance. */
  function IdSet(ids: seq<int>): set<int>
  {
    if |ids| == 0 then {} else {ids[0]} + IdSet(ids[1..])
  }

  lemma NonEmptyIdSet(ids: seq<int>)
    requires |ids| > 0
    ensures |IdSet(ids)| > 0
  {
    assert ids[0] in IdSet(ids);
  }

  /** IdSet holds exactly the ids occurring in the sequence: it is
      `set x | x in ids`, written by recursion so that proofs about the
      overlap test unfold it one id at a time. */
  lemma {:induction false} IdSetMembers(ids: seq<int>)
    ensures IdSet(ids) == set x | x in ids
  {
    if |ids| > 0 {
      IdSetMembers(ids[1..]);
      assert ids == [ids[0]] + ids[1..];
    }
  }

  /** The coverage score as Python computes it, in exact arithmetic: the
      mean of the shares of each id set that the intersection covers. */
  function CoverageScore(ids1: seq<int>, ids2: seq<int>): real
    requires |ids1| > 0 && |ids2| > 0
  {
    NonEmptyIdSet(ids1);
    NonEmptyIdSet(ids2);
    var inter := |IdSet(ids1) * IdSet(ids2)| as real;
    (inter / |IdSet(ids1)| as real + inter / |IdSet(ids2)| as real) / 2.0
  }

  /** `_are_different_uttrs`, evaluated with integers only: with a, b the
      sizes of the two id sets and i the size of their intersection, the
      test (i/a + i/b)/2 < 0.8 is cross-multiplied to 5·i·(a+b) < 8·a·b.
      The products are written with Product, so that proofs which only pass
      the test's outcome around do not face nonlinear arithmetic. Both id
      sequences must be non-empty: Python divides by the set sizes. */
  function AreDifferentUttrs(ids1: seq<int>, ids2: seq<int>): (r: bool)
    requires |ids1| > 0 && |ids2| > 0
    ensures r <==> CoverageScore(ids1, ids2) < 0.8
  {
    var a := |IdSet(ids1)|;
    var b := |IdSet(ids2)|;
    var i := |IdSet(ids1) * IdSet(ids2)|;
    NonEmptyIdSet(ids1);
    NonEmptyIdSet(ids2);
    CrossMultiplied(i, a, b);
    ThresholdByProducts(i, a, b);
    5 * Product(i, a + b) < 8 * Product(a, b)
  }

  /** x·y by repeated addition. */
  function Product(x: nat, y: nat): nat
  {
    if x == 0 then 0 else y + Product(x - 1, y)
  }

  lemma {:induction false} ProductIsMul(x: nat, y: nat)
    ensures Product(x, y) == x * y
  {
    if x > 0 {
      ProductIsMul(x - 1, y);
    }
  }

  /** The real-valued threshold test and its integer form agree. */
  lemma CrossMultiplied(i: nat, a: nat, b: nat)
    requires a > 0 && b > 0
    ensures (i as real / a as real + i as real / b as real) / 2.0 < 0.8 <==> 5 * i * (a + b) < 8 * a * b
  {
    SumOfShares(i, a, b);
    ThresholdAsIntegers(i * (a + b), a * b);
    assert 5 * (i * (a + b)) == 5 * i * (a + b);
    assert 8 * (a * b) == 8 * a * b;
  }

  /** i/a + i/b over a common denominator. */
  lemma SumOfShares(i: nat, a: nat, b: nat)
    requires a > 0 && b > 0
    ensures i as real / a as real + i as real / b as real == (i * (a + b)) as real / (a * b) as real
  {
    var x := i as real / a as real;
    var y := i as real / b as real;
    var ab := (a * b) as real;
    assert x * a as real == i as real;
    assert y * b as real == i as real;
    assert ab == a as real * b as real;
    assert (x + y) * ab == i as real * b as real + i as real * a as real by {
      assert (x + y) * ab == (x * a as real) * b as real + (y * b as real) * a as real;
    }
    assert (i * (a + b)) as real == i as real * b as real + i as real * a as real;
  }

  /** (n/d)/2 < 0.8 is 5·n < 8·d for a positive denominator. */
  lemma ThresholdAsIntegers(n: int, d: int)
    requires d > 0
    ensures (n as real / d as real) / 2.0 < 0.8 <==> 5 * n < 8 * d
  {
    var q := n as real / d as real;
    assert q * d as real == n as real;
    ScaleByPositive(q, 1.6, d as real);
    assert q / 2.0 < 0.8 <==> n as real < 1.6 * d as real;
  }

  lemma ScaleByPositive(u: real, v: real, c: real)
    requires c > 0.0
    ensures u < v <==> u * c < v * c
  {
    assert v * c - u * c == (v - u) * c;
  }

  /** The test does not depend on the order of its arguments. */
  lemma AreDifferentSymmetric(ids1: seq<int>, ids2: seq<int>)
    requires |ids1| > 0 && |ids2| > 0
    ensures AreDifferentUttrs(ids1, ids2) == AreDifferentUttrs(ids2, ids1)
  {
    assert IdSet(ids1) * IdSet(ids2) == IdSet(ids2) * IdSet(ids1);
    var a, b := |IdSet(ids1)|, |IdSet(ids2)|;
    ProductIsMul(a, b);
    ProductIsMul(b, a);
  }

  /** Two utterances with the same id set have coverage 1 and are never
      accepted as a pair; in particular a positive is never its own negative. */
  lemma SameIdSetRejected(ids1: seq<int>, ids2: seq<int>)
    requires |ids1| > 0 && |ids2| > 0
    requires IdSet(ids1) == IdSet(ids2)
    ensures !AreDifferentUttrs(ids1, ids2)
  {
    assert IdSet(ids1) * IdSet(ids2) == IdSet(ids1);
    FullCoverageFails(|IdSet(ids1)|);
  }

  /** The test on products agrees with the one on multiplications. */
  lemma ThresholdByProducts(i: nat, a: nat, b: nat)
    ensures 5 * Product(i, a + b) < 8 * Product(a, b) <==> 5 * i * (a + b) < 8 * a * b
  {
    ProductIsMul(i, a + b);
    ProductIsMul(a, b);
    assert 5 * (i * (a + b)) == 5 * i * (a + b);
    assert 8 * (a * b) == 8 * a * b;
  }

  /** With i = a = b the integer test reads 10·a² < 8·a², which fails. */
  lemma FullCoverageFails(a: nat)
    ensures !(5 * Product(a, a + a) < 8 * Product(a, a))
  {
    ProductIsMul(a, a + a);
    ProductIsMul(a, a);
    var aa := a * a;
    assert 5 * a * (a + a) == 10 * aa;
    assert 8 * a * a == 8 * aa;
  }

  /** Utterances sharing no token id are always accepted as a pair. */
  lemma DisjointAccepted(ids1: seq<int>, ids2: seq<int>)
    requires |ids1| > 0 && |ids2| > 0
    requires IdSet(ids1) !! IdSet(ids2)
    ensures AreDifferentUttrs(ids1, ids2)
  {
    assert IdSet(ids1) * IdSet(ids2) == {};
    NonEmptyIdSet(ids1);
    NonEmptyIdSet(ids2);
    ProductIsMul(|IdSet(ids1)|, |IdSet(ids2)|);
    assert |IdSet(ids1)| * |IdSet(ids2)| > 0;
  }

  /** Every pool utterance has a non-empty id sequence. */
  predicate PoolTokenized(pool: seq<Utterance>)
  {
    forall k :: 0 <= k < |pool| ==> |pool[k].tokenIds| > 0
  }

  /** Every supplied draw is an index of the pool. */
  predicate DrawsInPool(draws: seq<nat>, poolSize: nat)
  {
    forall k :: 0 <= k < |draws| ==> draws[k] < poolSize
  }

  /** The `while True` loop of lines 68-72, with `random.choice` replaced by
      the supplied draws read from position `from` on: the position of the
      first draw whose pool utterance passes the overlap test. None when the
      draws run out first, where Python would keep drawing. */
  function SampleNegative(pool: seq<Utterance>, positiveIds: seq<int>, draws: seq<nat>, from: nat): (r: Option<nat>)
    requires |positiveIds| > 0 && PoolTokenized(pool) && DrawsInPool(draws, |pool|)
    decreases |draws| - from
    ensures r.None? <==> forall j :: from <= j < |draws| ==> !AreDifferentUttrs(positiveIds, pool[draws[j]].tokenIds)
    ensures r.Some? ==>
      && from <= r.value < |draws|
      && AreDifferentUttrs(positiveIds, pool[draws[r.value]].tokenIds)
      && forall j :: from <= j < r.value ==> !AreDifferentUttrs(positiveIds, pool[draws[j]].tokenIds)
  {
    if from >= |draws| then None
    else if AreDifferentUttrs(positiveIds, pool[draws[from]].tokenIds) then Some(from)
    else SampleNegative(pool, positiveIds, draws, from + 1)
  }
}
