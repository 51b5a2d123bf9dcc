/** Grouping of rows by a key, as the repair jobs do with a JavaScript
    `Map<key, row[]>` filled by `forEach` and `push`. A JavaScript `Map`
    iterates in first-insertion order, so it is modelled as a list of
    groups in the order their keys were first seen. */
module Grouping {
  import opened Wrappers
  import opened Seqs

  datatype Group<K, T> = Group(key: K, items: seq<T>)

  /** `map.has(k)`, returning where the entry is. */
  function IndexOfKey<K(==), T>(gs: seq<Group<K, T>>, k: K): (r: Option<nat>)
    ensures r.None? ==> forall i :: 0 <= i < |gs| ==> gs[i].key != k
    ensures r.Some? ==> r.value < |gs| && gs[r.value].key == k
  {
    if |gs| == 0 then None
    else if gs[0].key == k then Some(0)
    else match IndexOfKey(gs[1..], k)
      case None => None
      case Some(j) => Some(j + 1)
  }

  /** `if (!map.has(k)) map.set(k, []); map.get(k).push(x)` */
  function AddTo<K(==), T>(gs: seq<Group<K, T>>, k: K, x: T): seq<Group<K, T>>
  {
    match IndexOfKey(gs, k)
    case None => gs + [Group(k, [x])]
    case Some(j) => gs[j := Group(k, gs[j].items + [x])]
  }

  /** The groups after pushing every element of `xs`, in order. */
  function GroupBy<K(==), T>(xs: seq<T>, key: T -> K): seq<Group<K, T>>
  {
    if |xs| == 0 then []
    else
      var x := xs[|xs| - 1];
      AddTo(GroupBy(xs[..|xs| - 1], key), key(x), x)
  }

  /** The elements of `xs` whose key is `k`, in order: the reference
      definition of one group's contents. */
  function Select<K(==), T>(xs: seq<T>, key: T -> K, k: K): seq<T>
  {
    if |xs| == 0 then []
    else
      var x := xs[|xs| - 1];
      Select(xs[..|xs| - 1], key, k) + (if key(x) == k then [x] else [])
  }

  lemma SelectSnoc<K, T>(pre: seq<T>, x: T, key: T -> K, k: K)
    ensures Select(pre + [x], key, k) == Select(pre, key, k) + (if key(x) == k then [x] else [])
  {
    assert (pre + [x])[..|pre|] == pre;
  }

  lemma GroupBySnoc<K, T>(pre: seq<T>, x: T, key: T -> K)
    ensures GroupBy(pre + [x], key) == AddTo(GroupBy(pre, key), key(x), x)
  {
    assert (pre + [x])[..|pre|] == pre;
  }

  lemma {:induction false} SelectMembers<K, T>(xs: seq<T>, key: T -> K, k: K, x: T)
    ensures x in Select(xs, key, k) <==> x in xs && key(x) == k
  {
    if |xs| > 0 {
      SelectMembers(xs[..|xs| - 1], key, k, x);
      assert xs == xs[..|xs| - 1] + [xs[|xs| - 1]];
    }
  }

  predicate KeysDistinct<K(==), T>(gs: seq<Group<K, T>>)
  {
    forall i, j :: 0 <= i < j < |gs| ==> gs[i].key != gs[j].key
  }

  function SizeSum<K, T>(gs: seq<Group<K, T>>): nat
  {
    if |gs| == 0 then 0 else |gs[0].items| + SizeSum(gs[1..])
  }

  lemma {:induction false} SizeSumAppend<K, T>(gs: seq<Group<K, T>>, g: Group<K, T>)
    ensures SizeSum(gs + [g]) == SizeSum(gs) + |g.items|
  {
    if |gs| > 0 {
      assert (gs + [g])[1..] == gs[1..] + [g];
      SizeSumAppend(gs[1..], g);
    }
  }

  lemma {:induction false} SizeSumUpdate<K, T>(gs: seq<Group<K, T>>, j: nat, g: Group<K, T>)
    requires j < |gs|
    ensures SizeSum(gs[j := g]) == SizeSum(gs) - |gs[j].items| + |g.items|
  {
    if j > 0 {
      assert gs[j := g][1..] == gs[1..][j - 1 := g];
      SizeSumUpdate(gs[1..], j - 1, g);
    }
  }

  /** One push keeps the grouping a partition: the pushed element lands in
      the group of its key, which is created at the end if it is new. */
  lemma AddToShape<K, T>(gs: seq<Group<K, T>>, k: K, x: T)
    ensures var r := AddTo(gs, k, x);
      && (IndexOfKey(gs, k).None? ==> r == gs + [Group(k, [x])])
      && (IndexOfKey(gs, k).Some? ==>
            var j := IndexOfKey(gs, k).value; r == gs[j := Group(k, gs[j].items + [x])])
  {
  }

  /** The groups have pairwise distinct keys. */
  lemma {:induction false} GroupByKeysDistinct<K, T>(xs: seq<T>, key: T -> K)
    ensures KeysDistinct(GroupBy(xs, key))
  {
    if |xs| > 0 {
      GroupByKeysDistinct(xs[..|xs| - 1], key);
    }
  }

  /** Each group holds exactly the elements with its key, in input order,
      and is never empty. */
  lemma {:induction false} GroupByItems<K, T>(xs: seq<T>, key: T -> K)
    ensures var gs := GroupBy(xs, key);
      forall i :: 0 <= i < |gs| ==> gs[i].items == Select(xs, key, gs[i].key) && gs[i].items != []
  {
    if |xs| > 0 {
      var pre := xs[..|xs| - 1];
      var x := xs[|xs| - 1];
      var k := key(x);
      assert xs == pre + [x];
      GroupByItems(pre, key);
      GroupByCovers(pre, key);
      GroupByKeysDistinct(pre, key);
      GroupBySnoc(pre, x, key);
      var gs0 := GroupBy(pre, key);
      var gs := GroupBy(xs, key);
      forall i | 0 <= i < |gs|
        ensures gs[i].items == Select(xs, key, gs[i].key) && gs[i].items != []
      {
        SelectSnoc(pre, x, key, gs[i].key);
        match IndexOfKey(gs0, k)
        case None =>
          if i < |gs0| {
            assert gs[i] == gs0[i] && gs0[i].key != k;
          } else {
            assert Select(pre, key, k) == [] by {
              if Select(pre, key, k) != [] {
                var y := Select(pre, key, k)[0];
                SelectMembers(pre, key, k, y);
                assert false;
              }
            }
          }
        case Some(j) =>
          if i != j {
            assert gs[i] == gs0[i] && gs0[i].key != gs0[j].key;
          }
      }
    }
  }

  /** Every element's key has a group. */
  lemma {:induction false} GroupByCovers<K, T>(xs: seq<T>, key: T -> K)
    ensures forall x :: x in xs ==> IndexOfKey(GroupBy(xs, key), key(x)).Some?
  {
    if |xs| > 0 {
      var pre := xs[..|xs| - 1];
      var x := xs[|xs| - 1];
      GroupByCovers(pre, key);
      var gs0 := GroupBy(pre, key);
      var gs := GroupBy(xs, key);
      assert xs == pre + [x];
      forall y | y in xs ensures IndexOfKey(gs, key(y)).Some? {
        if y in pre {
          var i := IndexOfKey(gs0, key(y)).value;
          assert gs[i].key == key(y);
        } else if IndexOfKey(gs0, key(x)).None? {
          assert gs[|gs0|].key == key(y);
        } else {
          assert gs[IndexOfKey(gs0, key(x)).value].key == key(y);
        }
      }
    }
  }

  /** The group sizes add up to the number of elements grouped. */
  lemma {:induction false} GroupBySizes<K, T>(xs: seq<T>, key: T -> K)
    ensures SizeSum(GroupBy(xs, key)) == |xs|
  {
    if |xs| > 0 {
      var pre := xs[..|xs| - 1];
      var x := xs[|xs| - 1];
      var k := key(x);
      GroupBySizes(pre, key);
      var gs0 := GroupBy(pre, key);
      match IndexOfKey(gs0, k)
      case None => SizeSumAppend(gs0, Group(k, [x]));
      case Some(j) => SizeSumUpdate(gs0, j, Group(k, gs0[j].items + [x]));
    }
  }

  /** The loop of the repair jobs that fills the `Map`. */
  /** `if (!map.has(k)) map.set(k, []); map.get(k).push(x)` on the map. */
  method PushTo<K(==), T>(groups: seq<Group<K, T>>, k: K, x: T) returns (r: seq<Group<K, T>>)
    ensures r == AddTo(groups, k, x)
  {
    r := groups;
    var at := IndexOfKey(r, k);
    if at.None? {
      r := r + [Group(k, [])];
      at := Some(|r| - 1);
    }
    var j := at.value;
    r := r[j := r[j].(items := r[j].items + [x])];
    if IndexOfKey(groups, k).None? {
      var expected := groups + [Group(k, [x])];
      assert |r| == |expected|;
      forall idx | 0 <= idx < |r| ensures r[idx] == expected[idx] {
      }
    }
  }

  /** `xs.forEach(x => push(key(x), x))` */
  method BuildGroups<K(==), T>(xs: seq<T>, key: T -> K) returns (groups: seq<Group<K, T>>)
    ensures groups == GroupBy(xs, key)
  {
    groups := [];
    for i := 0 to |xs|
      invariant groups == GroupBy(xs[..i], key)
    {
      groups := PushTo(groups, key(xs[i]), xs[i]);
      assert xs[..i + 1][..i] == xs[..i];
    }
    assert xs[..|xs|] == xs;
  }

  /** The comparator `(a, b) => b.length - a.length`: larger groups first. */
  function DescendingSize<K, T>(g: Group<K, T>): int { -|g.items| }

  /** Every element a grouping drops comes from the grouped sequence. */
  lemma DroppedFromSource<K, T>(xs: seq<T>, key: T -> K, x: T)
    requires x in DropHeads(GroupBy(xs, key))
    ensures x in xs
  {
    var gs := GroupBy(xs, key);
    DropHeadsSource(gs, x);
    var i, k :| 0 <= i < |gs| && 0 < k < |gs[i].items| && gs[i].items[k] == x;
    GroupByItems(xs, key);
    SelectMembers(xs, key, gs[i].key, x);
  }

  lemma GroupItemsAt<K, T>(xs: seq<T>, key: T -> K, n: nat)
    requires n < |GroupBy(xs, key)|
    ensures GroupBy(xs, key)[n].items == Select(xs, key, GroupBy(xs, key)[n].key)
  {
    GroupByItems(xs, key);
  }

  /** An element of the grouped sequence is dropped exactly when it is not
      the first element with its key. */
  lemma DroppedIffNotFirst<K, T>(xs: seq<T>, key: T -> K, x: T)
    requires Distinct(xs) && x in xs
    ensures var s := Select(xs, key, key(x));
      x in DropHeads(GroupBy(xs, key)) <==> |s| > 0 && x != s[0]
  {
    var gs := GroupBy(xs, key);
    GroupByCovers(xs, key);
    var n := IndexOfKey(gs, key(x)).value;
    GroupItemsAt(xs, key, n);
    SelectMembers(xs, key, key(x), x);
    var items := gs[n].items;
    var k :| 0 <= k < |items| && items[k] == x;
    if k == 0 {
      GroupByConsistent(xs, key);
      HeadNotDropped(gs, key, n);
    } else {
      DropHeadsMembers(gs, n, k);
      SelectDistinct(xs, key, key(x));
    }
  }

  /** The groups with more than one element, in map order. */
  function Duplicates<K, T>(gs: seq<Group<K, T>>): (r: seq<Group<K, T>>)
    ensures forall i :: 0 <= i < |r| ==> r[i] in gs && |r[i].items| > 1
    ensures forall i :: 0 <= i < |gs| && |gs[i].items| > 1 ==> gs[i] in r
  {
    if |gs| == 0 then []
    else (if |gs[0].items| > 1 then [gs[0]] else []) + Duplicates(gs[1..])
  }

  lemma {:induction false} DuplicatesAppend<K, T>(a: seq<Group<K, T>>, b: seq<Group<K, T>>)
    ensures Duplicates(a + b) == Duplicates(a) + Duplicates(b)
  {
    if |a| == 0 {
      assert a + b == b;
    } else {
      assert (a + b)[1..] == a[1..] + b;
      DuplicatesAppend(a[1..], b);
    }
  }

  /** How many rows a collapse removes: one less than the size of each
      group. */
  function Surplus<K, T>(gs: seq<Group<K, T>>): int
  {
    if |gs| == 0 then 0 else |gs[0].items| - 1 + Surplus(gs[1..])
  }

  lemma {:induction false} SurplusAppend<K, T>(a: seq<Group<K, T>>, b: seq<Group<K, T>>)
    ensures Surplus(a + b) == Surplus(a) + Surplus(b)
  {
    if |a| == 0 {
      assert a + b == b;
    } else {
      assert (a + b)[1..] == a[1..] + b;
      SurplusAppend(a[1..], b);
    }
  }
  /** One turn of a loop keeping the groups of more than one element and
      adding up their surplus. */
  lemma DuplicatesStep<K, T>(gs: seq<Group<K, T>>, i: nat)
    requires i < |gs|
    ensures Duplicates(gs[..i + 1]) == Duplicates(gs[..i]) + (if |gs[i].items| > 1 then [gs[i]] else [])
    ensures Surplus(Duplicates(gs[..i]) + [gs[i]]) == Surplus(Duplicates(gs[..i])) + |gs[i].items| - 1
  {
    assert gs[..i + 1] == gs[..i] + [gs[i]];
    DuplicatesAppend(gs[..i], [gs[i]]);
    SurplusAppend(Duplicates(gs[..i]), [gs[i]]);
  }


  function Tail<T>(s: seq<T>): seq<T> { if |s| == 0 then [] else s[1..] }

  /** Every element of every group except its first, group by group. */
  function DropHeads<K, T>(gs: seq<Group<K, T>>): seq<T>
  {
    if |gs| == 0 then [] else Tail(gs[0].items) + DropHeads(gs[1..])
  }

  lemma {:induction false} DropHeadsAppend<K, T>(a: seq<Group<K, T>>, b: seq<Group<K, T>>)
    ensures DropHeads(a + b) == DropHeads(a) + DropHeads(b)
  {
    if |a| == 0 {
      assert a + b == b;
    } else {
      assert (a + b)[1..] == a[1..] + b;
      DropHeadsAppend(a[1..], b);
    }
  }

  /** A collapse removes `Surplus` rows: one less than each group's size. */
  lemma {:induction false} DropHeadsLength<K, T>(gs: seq<Group<K, T>>)
    requires forall i :: 0 <= i < |gs| ==> gs[i].items != []
    ensures |DropHeads(gs)| == Surplus(gs)
  {
    if |gs| > 0 {
      DropHeadsLength(gs[1..]);
    }
  }

  /** Singleton groups drop nothing. */
  lemma {:induction false} DropHeadsOfDuplicates<K, T>(gs: seq<Group<K, T>>)
    ensures DropHeads(Duplicates(gs)) == DropHeads(gs)
  {
    if |gs| > 0 {
      DropHeadsOfDuplicates(gs[1..]);
      DropHeadsAppend(if |gs[0].items| > 1 then [gs[0]] else [], Duplicates(gs[1..]));
    }
  }

  lemma {:induction false} SurplusOfDuplicates<K, T>(gs: seq<Group<K, T>>)
    requires forall i :: 0 <= i < |gs| ==> gs[i].items != []
    ensures Surplus(Duplicates(gs)) == Surplus(gs)
  {
    if |gs| > 0 {
      SurplusOfDuplicates(gs[1..]);
      SurplusAppend(if |gs[0].items| > 1 then [gs[0]] else [], Duplicates(gs[1..]));
    }
  }

  /** An element of a group other than its first is dropped. */
  lemma {:induction false} DropHeadsMembers<K, T>(gs: seq<Group<K, T>>, i: nat, k: nat)
    requires i < |gs| && 0 < k < |gs[i].items|
    ensures gs[i].items[k] in DropHeads(gs)
  {
    if i > 0 {
      DropHeadsMembers(gs[1..], i - 1, k);
    } else {
      assert gs[0].items[k] == Tail(gs[0].items)[k - 1];
    }
  }

  /** What is dropped comes from some group, at a position after its
      first. */
  lemma {:induction false} DropHeadsSource<K, T>(gs: seq<Group<K, T>>, x: T)
    requires x in DropHeads(gs)
    ensures exists i, k :: 0 <= i < |gs| && 0 < k < |gs[i].items| && gs[i].items[k] == x
  {
    if x in Tail(gs[0].items) {
      var k :| 0 <= k < |Tail(gs[0].items)| && Tail(gs[0].items)[k] == x;
      assert gs[0].items[k + 1] == x;
    } else {
      DropHeadsSource(gs[1..], x);
      var i, k :| 0 <= i < |gs[1..]| && 0 < k < |gs[1..][i].items| && gs[1..][i].items[k] == x;
      assert gs[i + 1].items[k] == x;
    }
  }

  /** An element of a group that is not dropped is the group's first. */
  lemma SurvivorIsHead<K, T>(gs: seq<Group<K, T>>, i: nat, x: T)
    requires i < |gs| && x in gs[i].items && x !in DropHeads(gs)
    ensures x == gs[i].items[0]
  {
    var k :| 0 <= k < |gs[i].items| && gs[i].items[k] == x;
    if k > 0 {
      DropHeadsMembers(gs, i, k);
    }
  }

  /** Groups as grouping leaves them: non-empty, repetition-free, every
      element carrying its group's key, and keys pairwise distinct. */
  ghost predicate Consistent<K, T>(gs: seq<Group<K, T>>, key: T -> K)
  {
    && KeysDistinct(gs)
    && forall i :: 0 <= i < |gs| ==>
         && gs[i].items != []
         && Distinct(gs[i].items)
         && forall x :: x in gs[i].items ==> key(x) == gs[i].key
  }

  /** What occurs in no group after its first position is not dropped. */
  lemma {:induction false} DropHeadsNotMember<K, T>(gs: seq<Group<K, T>>, x: T)
    requires forall i, k :: 0 <= i < |gs| && 0 < k < |gs[i].items| ==> gs[i].items[k] != x
    ensures x !in DropHeads(gs)
  {
    if |gs| > 0 {
      forall k | 0 <= k < |Tail(gs[0].items)| ensures Tail(gs[0].items)[k] != x {
        assert Tail(gs[0].items)[k] == gs[0].items[k + 1];
      }
      forall i, k | 0 <= i < |gs[1..]| && 0 < k < |gs[1..][i].items| ensures gs[1..][i].items[k] != x {
        assert gs[1..][i] == gs[i + 1];
      }
      DropHeadsNotMember(gs[1..], x);
    }
  }

  /** The first element of a group is never dropped. */
  lemma HeadNotDropped<K, T>(gs: seq<Group<K, T>>, key: T -> K, i: nat)
    requires Consistent(gs, key) && i < |gs|
    ensures gs[i].items[0] !in DropHeads(gs)
  {
    var h := gs[i].items[0];
    forall i', k | 0 <= i' < |gs| && 0 < k < |gs[i'].items| ensures gs[i'].items[k] != h {
      if i' != i {
        assert key(gs[i'].items[k]) == gs[i'].key;
        assert key(h) == gs[i].key;
      }
    }
    DropHeadsNotMember(gs, h);
  }

  lemma {:induction false} SelectDistinct<K, T>(xs: seq<T>, key: T -> K, k: K)
    requires Distinct(xs)
    ensures Distinct(Select(xs, key, k))
  {
    if |xs| > 0 {
      var pre := xs[..|xs| - 1];
      var x := xs[|xs| - 1];
      SelectDistinct(pre, key, k);
      if key(x) == k {
        forall j | 0 <= j < |pre| ensures pre[j] != x {
          assert pre[j] == xs[j];
        }
        SelectMembers(pre, key, k, x);
        assert xs == pre + [x];
      }
    }
  }

  /** Grouping a repetition-free sequence gives consistent groups. */
  lemma GroupByConsistent<K, T>(xs: seq<T>, key: T -> K)
    requires Distinct(xs)
    ensures Consistent(GroupBy(xs, key), key)
  {
    var gs := GroupBy(xs, key);
    GroupByKeysDistinct(xs, key);
    GroupByItems(xs, key);
    forall i | 0 <= i < |gs|
      ensures Distinct(gs[i].items) && forall x :: x in gs[i].items ==> key(x) == gs[i].key
    {
      SelectDistinct(xs, key, gs[i].key);
      forall x | x in gs[i].items ensures key(x) == gs[i].key {
        SelectMembers(xs, key, gs[i].key, x);
      }
    }
  }

  /** Each group with its elements sorted by `rank`, as the in-place
      `items.sort(...)` leaves it. */
  function SortItems<K, T>(gs: seq<Group<K, T>>, rank: T -> int): (r: seq<Group<K, T>>)
    ensures |r| == |gs|
    ensures forall i :: 0 <= i < |gs| ==> r[i] == Group(gs[i].key, SortBy(gs[i].items, rank))
  {
    if |gs| == 0 then [] else [Group(gs[0].key, SortBy(gs[0].items, rank))] + SortItems(gs[1..], rank)
  }

  lemma SortItemsConsistent<K, T>(gs: seq<Group<K, T>>, key: T -> K, rank: T -> int)
    requires Consistent(gs, key)
    ensures Consistent(SortItems(gs, rank), key)
  {
    var r := SortItems(gs, rank);
    forall i | 0 <= i < |r|
      ensures r[i].items != [] && Distinct(r[i].items) && forall x :: x in r[i].items ==> key(x) == r[i].key
    {
      DistinctPermutation(gs[i].items, r[i].items);
      forall x | x in r[i].items ensures key(x) == r[i].key {
        assert x in multiset(r[i].items);
      }
    }
  }

  /** Sorting within groups does not change which groups are duplicates. */
  lemma SortItemsCons<K, T>(g: Group<K, T>, rest: seq<Group<K, T>>, rank: T -> int)
    ensures DropHeads(SortItems([g] + rest, rank)) == Tail(SortBy(g.items, rank)) + DropHeads(SortItems(rest, rank))
  {
    assert ([g] + rest)[1..] == rest;
  }

  lemma {:induction false} SortItemsDuplicates<K, T>(gs: seq<Group<K, T>>, rank: T -> int)
    ensures DropHeads(SortItems(Duplicates(gs), rank)) == DropHeads(SortItems(gs, rank))
  {
    if |gs| > 0 {
      var g := gs[0];
      SortItemsDuplicates(gs[1..], rank);
      SortItemsHead(gs, rank);
      if |g.items| > 1 {
        assert Duplicates(gs) == [g] + Duplicates(gs[1..]);
        SortItemsCons(g, Duplicates(gs[1..]), rank);
      } else {
        assert Duplicates(gs) == Duplicates(gs[1..]);
        var t := Tail(SortBy(g.items, rank));
        assert t == [];
        assert t + DropHeads(SortItems(gs[1..], rank)) == DropHeads(SortItems(gs[1..], rank));
      }
    }
  }

  lemma SortItemsHead<K, T>(gs: seq<Group<K, T>>, rank: T -> int)
    requires |gs| > 0
    ensures DropHeads(SortItems(gs, rank)) == Tail(SortBy(gs[0].items, rank)) + DropHeads(SortItems(gs[1..], rank))
  {
    var r := SortItems(gs, rank);
    assert r[1..] == SortItems(gs[1..], rank);
  }

  /** Reordering the groups does not change what is dropped, only the order
      in which it is dropped. */
  lemma {:induction false} DropHeadsInsert<K, T>(g: Group<K, T>, s: seq<Group<K, T>>, rank: Group<K, T> -> int)
    ensures multiset(DropHeads(Insert(g, s, rank))) == multiset(Tail(g.items)) + multiset(DropHeads(s))
  {
    if |s| > 0 && rank(g) > rank(s[0]) {
      DropHeadsInsert(g, s[1..], rank);
      assert Insert(g, s, rank) == [s[0]] + Insert(g, s[1..], rank);
      assert s == [s[0]] + s[1..];
    }
  }

  lemma {:induction false} DropHeadsSortBy<K, T>(gs: seq<Group<K, T>>, rank: Group<K, T> -> int)
    ensures multiset(DropHeads(SortBy(gs, rank))) == multiset(DropHeads(gs))
  {
    if |gs| > 0 {
      DropHeadsSortBy(gs[1..], rank);
      DropHeadsInsert(gs[0], SortBy(gs[1..], rank), rank);
    }
  }

  /** Every element dropped after sorting within groups comes from the
      grouped sequence. */
  lemma SortedDroppedFromSource<K, T>(xs: seq<T>, key: T -> K, rank: T -> int, x: T)
    requires x in DropHeads(SortItems(GroupBy(xs, key), rank))
    ensures x in xs
  {
    var gs := GroupBy(xs, key);
    var sg := SortItems(gs, rank);
    DropHeadsSource(sg, x);
    var i, k :| 0 <= i < |sg| && 0 < k < |sg[i].items| && sg[i].items[k] == x;
    assert x in multiset(gs[i].items);
    GroupItemsAt(xs, key, i);
    SelectMembers(xs, key, gs[i].key, x);
  }

  /** With each group sorted by `rank`, an element of the grouped sequence
      is dropped exactly when it is not the first, by `rank`, of the
      elements with its key. */
  lemma SortedDroppedIffNotFirst<K, T>(xs: seq<T>, key: T -> K, rank: T -> int, x: T)
    requires Distinct(xs) && x in xs
    ensures var s := SortBy(Select(xs, key, key(x)), rank);
      x in DropHeads(SortItems(GroupBy(xs, key), rank)) <==> |s| > 0 && x != s[0]
  {
    var gs := GroupBy(xs, key);
    var sg := SortItems(gs, rank);
    GroupByCovers(xs, key);
    var n := IndexOfKey(gs, key(x)).value;
    GroupItemsAt(xs, key, n);
    SelectMembers(xs, key, key(x), x);
    var items := sg[n].items;
    assert items == SortBy(Select(xs, key, key(x)), rank);
    assert x in multiset(items);
    var k :| 0 <= k < |items| && items[k] == x;
    GroupByConsistent(xs, key);
    SortItemsConsistent(gs, key, rank);
    if k == 0 {
      HeadNotDropped(sg, key, n);
    } else {
      DropHeadsMembers(sg, n, k);
    }
  }

  /** Sorting within groups keeps every group's size. */
  lemma {:induction false} SurplusSortItems<K, T>(gs: seq<Group<K, T>>, rank: T -> int)
    ensures Surplus(SortItems(gs, rank)) == Surplus(gs)
  {
    if |gs| > 0 {
      SurplusSortItems(gs[1..], rank);
      assert SortItems(gs, rank)[1..] == SortItems(gs[1..], rank);
    }
  }

  lemma {:induction false} SortItemsAppend<K, T>(a: seq<Group<K, T>>, b: seq<Group<K, T>>, rank: T -> int)
    ensures SortItems(a + b, rank) == SortItems(a, rank) + SortItems(b, rank)
  {
    if |a| == 0 {
      assert a + b == b;
    } else {
      assert (a + b)[1..] == a[1..] + b;
      SortItemsAppend(a[1..], b, rank);
    }
  }


  /** Keys are pairwise distinct along `xs`. */
  predicate UniqueKeys<K(==), T>(xs: seq<T>, key: T -> K)
  {
    forall i, j :: 0 <= i < j < |xs| ==> key(xs[i]) != key(xs[j])
  }

  lemma {:induction false} SelectPair<K, T>(xs: seq<T>, key: T -> K, k: K)
    requires |Select(xs, key, k)| >= 2
    ensures exists i, j :: 0 <= i < j < |xs| && key(xs[i]) == k && key(xs[j]) == k
  {
    var pre := xs[..|xs| - 1];
    var x := xs[|xs| - 1];
    if |Select(pre, key, k)| >= 2 {
      SelectPair(pre, key, k);
      var i, j :| 0 <= i < j < |pre| && key(pre[i]) == k && key(pre[j]) == k;
      assert xs[i] == pre[i] && xs[j] == pre[j];
    } else {
      assert key(x) == k && |Select(pre, key, k)| == 1;
      var y := Select(pre, key, k)[0];
      SelectMembers(pre, key, k, y);
      var i :| 0 <= i < |pre| && pre[i] == y;
      assert xs[i] == y;
    }
  }

  lemma {:induction false} PairSelect<K, T>(xs: seq<T>, key: T -> K, i: nat, j: nat)
    requires i < j < |xs| && key(xs[i]) == key(xs[j])
    ensures |Select(xs, key, key(xs[i]))| >= 2
  {
    var pre := xs[..|xs| - 1];
    if j < |xs| - 1 {
      PairSelect(pre, key, i, j);
    } else {
      SelectMembers(pre, key, key(xs[i]), xs[i]);
    }
  }

  /** The grouping has a group of more than one element exactly when two
      elements share a key: the duplicate check is sound and complete. */
  lemma DuplicatesIffRepeatedKey<K, T>(xs: seq<T>, key: T -> K)
    ensures Duplicates(GroupBy(xs, key)) == [] <==> UniqueKeys(xs, key)
  {
    var gs := GroupBy(xs, key);
    GroupByItems(xs, key);
    GroupByCovers(xs, key);
    if Duplicates(gs) != [] {
      var g := Duplicates(gs)[0];
      var i :| 0 <= i < |gs| && gs[i] == g;
      SelectPair(xs, key, g.key);
    }
    if !UniqueKeys(xs, key) {
      var i, j :| 0 <= i < j < |xs| && key(xs[i]) == key(xs[j]);
      PairSelect(xs, key, i, j);
      var n := IndexOfKey(gs, key(xs[i])).value;
      assert gs[n] in Duplicates(gs);
    }
  }
}
