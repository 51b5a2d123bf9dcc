/** Sequence helpers shared by the repair jobs: concatenation of a list of
    lists, `Array.prototype.slice` batching, and the stable sort that
    `Array.prototype.sort` performs with a numeric comparator. */
module Seqs {

  function Flatten<T>(xss: seq<seq<T>>): seq<T>
  {
    if |xss| == 0 then [] else xss[0] + Flatten(xss[1..])
  }

  lemma {:induction false} FlattenAppend<T>(a: seq<seq<T>>, b: seq<seq<T>>)
    ensures Flatten(a + b) == Flatten(a) + Flatten(b)
  {
    if |a| == 0 {
      assert a + b == b;
    } else {
      assert (a + b)[1..] == a[1..] + b;
      FlattenAppend(a[1..], b);
    }
  }

  function Min(a: int, b: int): int { if a <= b then a else b }

  /** The batches `xs.slice(i, i + n)` for `i = 0, n, 2n, ...` while
      `i < xs.length`. */
  function Batches<T>(xs: seq<T>, n: nat): (r: seq<seq<T>>)
    requires n > 0
    ensures forall i :: 0 <= i < |r| ==> 0 < |r[i]| <= n
    ensures forall i :: 0 <= i < |r| - 1 ==> |r[i]| == n
    ensures |xs| == 0 <==> |r| == 0
    decreases |xs|
  {
    if |xs| == 0 then []
    else if |xs| <= n then [xs]
    else [xs[..n]] + Batches(xs[n..], n)
  }

  /** The batches together are exactly the input, in order. */
  lemma {:induction false} FlattenBatches<T>(xs: seq<T>, n: nat)
    requires n > 0
    ensures Flatten(Batches(xs, n)) == xs
    decreases |xs|
  {
    if |xs| > n {
      FlattenBatches(xs[n..], n);
      assert xs == xs[..n] + xs[n..];
    }
  }

  /** Taking one more slice at offset `i` extends the batch list. */
  lemma BatchesStep<T>(xs: seq<T>, n: nat, i: nat)
    requires n > 0 && i < |xs|
    ensures Batches(xs[i..], n) == [xs[i..Min(i + n, |xs|)]] + Batches(xs[Min(i + n, |xs|)..], n)
  {
    if |xs| - i <= n {
      assert xs[i..Min(i + n, |xs|)] == xs[i..];
      assert xs[Min(i + n, |xs|)..] == [];
    } else {
      assert xs[i..][..n] == xs[i..i + n];
      assert xs[i..][n..] == xs[i + n..];
    }
  }

  /** One turn of the batch loop: the next slice extends both the batch
      list and the prefix of `xs` it covers. */
  lemma BatchesAdvance<T>(xs: seq<T>, n: nat, done: seq<seq<T>>, i: nat)
    requires n > 0 && i < |xs|
    requires Batches(xs, n) == done + Batches(xs[i..], n)
    requires Flatten(done) == xs[..i]
    ensures var b := xs[i..Min(i + n, |xs|)];
      && Batches(xs, n) == (done + [b]) + Batches(xs[Min(i + n, |xs|)..], n)
      && Flatten(done + [b]) == xs[..Min(i + n, |xs|)]
      && Flatten(done + [b]) == Flatten(done) + b
  {
    var b := xs[i..Min(i + n, |xs|)];
    BatchesStep(xs, n, i);
    FlattenAppend(done, [b]);
    assert Flatten([b]) == b;
    assert xs[..Min(i + n, |xs|)] == xs[..i] + b;
  }

  /** No element occurs twice. */
  ghost predicate Distinct<T>(xs: seq<T>)
  {
    forall i, j :: 0 <= i < j < |xs| ==> xs[i] != xs[j]
  }

  lemma {:induction false} DistinctCount<T>(xs: seq<T>, v: T)
    requires Distinct(xs)
    ensures multiset(xs)[v] <= 1
  {
    if |xs| > 0 {
      assert xs == [xs[0]] + xs[1..];
      DistinctCount(xs[1..], v);
      forall k | 0 <= k < |xs[1..]| ensures xs[1..][k] != xs[0] {
        assert xs[1..][k] == xs[k + 1];
      }
      assert xs[0] !in xs[1..];
    }
  }

  lemma RepeatCount<T>(xs: seq<T>, i: nat, j: nat)
    requires i < j < |xs| && xs[i] == xs[j]
    ensures multiset(xs)[xs[i]] >= 2
  {
    assert xs == xs[..j] + [xs[j]] + xs[j + 1..];
    assert xs[i] in xs[..j];
  }

  /** A rearrangement of a repetition-free sequence is repetition-free. */
  lemma DistinctPermutation<T>(xs: seq<T>, ys: seq<T>)
    requires Distinct(xs) && multiset(xs) == multiset(ys)
    ensures Distinct(ys)
  {
    forall i, j | 0 <= i < j < |ys| ensures ys[i] != ys[j] {
      if ys[i] == ys[j] {
        RepeatCount(ys, i, j);
        DistinctCount(xs, ys[i]);
      }
    }
  }

  /** `rank` does not decrease along `s`. */
  predicate SortedBy<T>(s: seq<T>, rank: T -> int)
  {
    forall i, j :: 0 <= i < j < |s| ==> rank(s[i]) <= rank(s[j])
  }

  /** Inserts `x` before the first element that ranks at least as high, so
      that among equal ranks the inserted element comes first. */
  function Insert<T>(x: T, s: seq<T>, rank: T -> int): (r: seq<T>)
    ensures multiset(r) == multiset(s) + multiset{x}
    ensures |r| == |s| + 1
  {
    if |s| == 0 || rank(x) <= rank(s[0]) then [x] + s
    else
      assert s == [s[0]] + s[1..];
      [s[0]] + Insert(x, s[1..], rank)
  }

  lemma {:induction false} InsertSorted<T>(x: T, s: seq<T>, rank: T -> int)
    requires SortedBy(s, rank)
    ensures SortedBy(Insert(x, s, rank), rank)
    ensures Insert(x, s, rank)[0] == x || Insert(x, s, rank)[0] == s[0]
  {
    if |s| > 0 && rank(x) > rank(s[0]) {
      var t := Insert(x, s[1..], rank);
      InsertSorted(x, s[1..], rank);
      assert rank(s[0]) <= rank(t[0]);
      var r := [s[0]] + t;
      forall i, j | 0 <= i < j < |r| ensures rank(r[i]) <= rank(r[j]) {
        if i > 0 {
          assert r[i] == t[i - 1] && r[j] == t[j - 1];
        } else {
          assert r[j] == t[j - 1];
          assert rank(t[0]) <= rank(t[j - 1]) || j - 1 == 0;
        }
      }
    }
  }

  /** Insertion sort by `rank`: the stable ascending sort that
      `xs.sort((a, b) => rank(a) - rank(b))` performs. */
  function SortBy<T>(xs: seq<T>, rank: T -> int): (r: seq<T>)
    ensures SortedBy(r, rank)
    ensures multiset(r) == multiset(xs)
    ensures |r| == |xs|
  {
    if |xs| == 0 then []
    else
      assert xs == [xs[0]] + xs[1..];
      var t := SortBy(xs[1..], rank);
      InsertSorted(xs[0], t, rank);
      Insert(xs[0], t, rank)
  }

  /** The position of the first element of least rank. */
  function FirstMinIndex<T>(xs: seq<T>, rank: T -> int): (i: nat)
    requires |xs| > 0
    ensures i < |xs|
    ensures forall j :: 0 <= j < |xs| ==> rank(xs[i]) <= rank(xs[j])
    ensures forall j :: 0 <= j < i ==> rank(xs[j]) > rank(xs[i])
  {
    if |xs| == 1 then 0
    else
      var k := FirstMinIndex(xs[1..], rank);
      if rank(xs[0]) <= rank(xs[1..][k]) then 0 else k + 1
  }

  /** The sort is stable at its head: the element it puts first is the
      earliest of the least-ranked elements. */
  lemma {:induction false} SortByHead<T>(xs: seq<T>, rank: T -> int)
    requires |xs| > 0
    ensures SortBy(xs, rank)[0] == xs[FirstMinIndex(xs, rank)]
  {
    if |xs| > 1 {
      SortByHead(xs[1..], rank);
    }
  }

  /** The head of the sort is least in rank, and every element before it
      in the input ranks strictly higher. */
  lemma SortByHeadIsFirstMin<T>(xs: seq<T>, rank: T -> int)
    requires |xs| > 0
    ensures exists i ::
              && 0 <= i < |xs| && xs[i] == SortBy(xs, rank)[0]
              && (forall j :: 0 <= j < |xs| ==> rank(xs[i]) <= rank(xs[j]))
              && (forall j :: 0 <= j < i ==> rank(xs[j]) > rank(xs[i]))
  {
    SortByHead(xs, rank);
    var i := FirstMinIndex(xs, rank);
    assert xs[i] == SortBy(xs, rank)[0];
  }
}
