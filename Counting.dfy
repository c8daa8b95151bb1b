/** Python's collections.Counter and defaultdict(int) as an ordered
    association list: keys appear in the order they were first counted, as
    Python dictionaries keep insertion order. Also Counter.most_common(n),
    which sorts by descending count and keeps equal counts in insertion
    order (the sort is stable). */
module Counting {

  type Counter<T> = seq<(T, nat)>

  function Keys<T>(m: Counter<T>): (ks: seq<T>)
    ensures |ks| == |m|
  {
    seq(|m|, i requires 0 <= i < |m| => m[i].0)
  }

  /** `m[k]` on a defaultdict(int): 0 for a key never counted */
  function Get<T(==)>(m: Counter<T>, k: T): nat {
    if m == [] then 0 else if m[0].0 == k then m[0].1 else Get(m[1..], k)
  }

  /** `m[k] += 1` */
  function Bump<T(==)>(m: Counter<T>, k: T): (r: Counter<T>)
    ensures Get(r, k) == Get(m, k) + 1
    ensures |m| <= |r| <= |m| + 1
  {
    if m == [] then [(k, 1)]
    else if m[0].0 == k then [(k, m[0].1 + 1)] + m[1..]
    else [m[0]] + Bump(m[1..], k)
  }

  /** Counter(xs): every element counted in turn */
  function Tally<T(==)>(xs: seq<T>): (r: Counter<T>)
    ensures |r| <= |xs|
    ensures xs != [] ==> r != []
  {
    if xs == [] then [] else Bump(Tally(xs[..|xs| - 1]), xs[|xs| - 1])
  }

  /** Sum of all counts */
  function Total<T>(m: Counter<T>): nat {
    if m == [] then 0 else m[0].1 + Total(m[1..])
  }

  predicate DistinctKeys<T(==)>(m: Counter<T>) {
    forall i, j | 0 <= i < j < |m| :: m[i].0 != m[j].0
  }

  predicate PositiveCounts<T>(m: Counter<T>) {
    forall i | 0 <= i < |m| :: m[i].1 > 0
  }

  /** Index of the first occurrence of x in xs */
  function FirstIndex<T(==)>(xs: seq<T>, x: T): (i: nat)
    requires x in xs
    ensures i < |xs| && xs[i] == x && x !in xs[..i]
  {
    if xs[0] == x then 0 else 1 + FirstIndex(xs[1..], x)
  }

  lemma FirstIndexUnique<T>(xs: seq<T>, x: T, i: nat)
    requires i < |xs| && xs[i] == x && x !in xs[..i]
    ensures FirstIndex(xs, x) == i
  {
    var f := FirstIndex(xs, x);
    assert f >= i by {
      assert forall t | 0 <= t < i :: xs[..i][t] == xs[t];
    }
    assert f <= i by {
      assert forall t | 0 <= t < f :: xs[..f][t] == xs[t];
    }
  }

  lemma FirstIndexAppend<T>(xs: seq<T>, y: T, x: T)
    requires x in xs
    ensures FirstIndex(xs + [y], x) == FirstIndex(xs, x)
  {
    var i := FirstIndex(xs, x);
    assert (xs + [y])[..i] == xs[..i];
    FirstIndexUnique(xs + [y], x, i);
  }

  // ---------------------------------------------------------------------
  // Bump

  /** `m[k] += 1` adds one to k's count and leaves every other count alone. */
  lemma {:induction false} BumpGet<T>(m: Counter<T>, k: T, c: T)
    ensures Get(Bump(m, k), c) == Get(m, c) + (if c == k then 1 else 0)
  {
    if m != [] && m[0].0 != k {
      BumpGet(m[1..], k, c);
      assert Bump(m, k)[1..] == Bump(m[1..], k);
    }
  }

  /** A key already present keeps its place; a new key goes last. */
  lemma {:induction false} BumpKeys<T>(m: Counter<T>, k: T)
    ensures Keys(Bump(m, k)) == if k in Keys(m) then Keys(m) else Keys(m) + [k]
  {
    if m == [] {
      assert Keys(m) == [];
    } else {
      assert Keys(m) == [m[0].0] + Keys(m[1..]);
      if m[0].0 == k {
        assert Keys(Bump(m, k)) == [k] + Keys(m[1..]);
      } else {
        BumpKeys(m[1..], k);
        assert Keys(Bump(m, k)) == [m[0].0] + Keys(Bump(m[1..], k));
        assert k in Keys(m) <==> k in Keys(m[1..]);
      }
    }
  }

  lemma {:induction false} BumpTotal<T>(m: Counter<T>, k: T)
    ensures Total(Bump(m, k)) == Total(m) + 1
  {
    if m != [] && m[0].0 != k {
      BumpTotal(m[1..], k);
      assert Bump(m, k)[1..] == Bump(m[1..], k);
    } else if m != [] {
      assert Bump(m, k)[1..] == m[1..];
    }
  }

  lemma {:induction false} BumpPositive<T>(m: Counter<T>, k: T)
    requires PositiveCounts(m)
    ensures PositiveCounts(Bump(m, k))
  {
    if m != [] && m[0].0 != k {
      BumpPositive(m[1..], k);
      assert Bump(m, k) == [m[0]] + Bump(m[1..], k);
    }
  }

  lemma DistinctKeysOf<T>(m: Counter<T>)
    ensures DistinctKeys(m) <==> forall i, j | 0 <= i < j < |m| :: Keys(m)[i] != Keys(m)[j]
  {
    assert forall i | 0 <= i < |m| :: Keys(m)[i] == m[i].0;
  }

  // ---------------------------------------------------------------------
  // Counter(xs)

  /** Every element's count is its number of occurrences. */
  lemma {:induction false} TallyGet<T>(xs: seq<T>, x: T)
    ensures Get(Tally(xs), x) == multiset(xs)[x]
  {
    if xs != [] {
      var init, last := xs[..|xs| - 1], xs[|xs| - 1];
      assert xs == init + [last];
      TallyGet(init, x);
      BumpGet(Tally(init), last, x);
    }
  }

  /** The counts add up to the number of elements counted. */
  lemma {:induction false} TallyTotal<T>(xs: seq<T>)
    ensures Total(Tally(xs)) == |xs|
  {
    if xs != [] {
      TallyTotal(xs[..|xs| - 1]);
      BumpTotal(Tally(xs[..|xs| - 1]), xs[|xs| - 1]);
    }
  }

  /** The keys are exactly the elements counted. */
  lemma {:induction false} TallyKeys<T>(xs: seq<T>)
    ensures forall x :: x in Keys(Tally(xs)) <==> x in xs
  {
    if xs != [] {
      var init, last := xs[..|xs| - 1], xs[|xs| - 1];
      assert xs == init + [last];
      TallyKeys(init);
      BumpKeys(Tally(init), last);
    }
  }

  /** Each key appears once and was counted at least once. */
  lemma {:induction false} TallyDistinct<T>(xs: seq<T>)
    ensures DistinctKeys(Tally(xs)) && PositiveCounts(Tally(xs))
  {
    if xs != [] {
      var init, last := xs[..|xs| - 1], xs[|xs| - 1];
      var m := Tally(init);
      TallyDistinct(init);
      BumpKeys(m, last);
      BumpPositive(m, last);
      DistinctKeysOf(m);
      DistinctKeysOf(Bump(m, last));
    }
  }

  /** The keys are in order of first occurrence. */
  lemma {:induction false} TallyOrder<T>(xs: seq<T>)
    ensures forall k | k in Keys(Tally(xs)) :: k in xs
    ensures forall i, j | 0 <= i < j < |Tally(xs)| ::
              FirstIndex(xs, Keys(Tally(xs))[i]) < FirstIndex(xs, Keys(Tally(xs))[j])
  {
    TallyKeys(xs);
    if xs != [] {
      var init, last := xs[..|xs| - 1], xs[|xs| - 1];
      assert xs == init + [last];
      TallyOrder(init);
      FirstSeenStep(init, last);
    }
  }

  /** Counting one more element keeps the keys in order of first occurrence. */
  lemma FirstSeenStep<T>(init: seq<T>, last: T)
    requires forall k | k in Keys(Tally(init)) :: k in init
    requires forall i, j | 0 <= i < j < |Tally(init)| ::
      FirstIndex(init, Keys(Tally(init))[i]) < FirstIndex(init, Keys(Tally(init))[j])
    ensures forall k | k in Keys(Tally(init + [last])) :: k in init + [last]
    ensures forall i, j | 0 <= i < j < |Tally(init + [last])| ::
      FirstIndex(init + [last], Keys(Tally(init + [last]))[i]) <
      FirstIndex(init + [last], Keys(Tally(init + [last]))[j])
  {
    var xs := init + [last];
    assert xs[..|xs| - 1] == init;
    var m := Tally(init);
    assert Tally(xs) == Bump(m, last);
    TallyKeys(init);
    BumpKeys(m, last);
    var ks := Keys(Tally(xs));
    TallyKeys(xs);
    forall i, j | 0 <= i < j < |ks| ensures FirstIndex(xs, ks[i]) < FirstIndex(xs, ks[j]) {
      assert ks[i] == Keys(m)[i] && Keys(m)[i] in Keys(m);
      FirstIndexAppend(init, last, ks[i]);
      if j < |m| {
        assert ks[j] == Keys(m)[j] && Keys(m)[j] in Keys(m);
        FirstIndexAppend(init, last, ks[j]);
      } else {
        assert ks[j] == last && last !in init;
        assert xs[..|init|] == init;
        FirstIndexUnique(xs, last, |init|);
      }
    }
  }

  // ---------------------------------------------------------------------
  // most_common(n): stable sort by descending count, then the first n

  /** Insert e after every entry whose count is at least e's. */
  function Insert<T>(sorted: Counter<T>, e: (T, nat)): Counter<T> {
    if sorted == [] then [e]
    else if sorted[0].1 >= e.1 then [sorted[0]] + Insert(sorted[1..], e)
    else [e] + sorted
  }

  function SortByCount<T>(m: Counter<T>): Counter<T> {
    if m == [] then [] else Insert(SortByCount(m[..|m| - 1]), m[|m| - 1])
  }

  /** Counter.most_common(n) */
  function MostCommon<T>(m: Counter<T>, n: nat): (r: Counter<T>)
    ensures |r| == if n < |m| then n else |m|
  {
    SortByCountPermutes(m);
    var s := SortByCount(m);
    s[..if n < |s| then n else |s|]
  }

  /** x comes before y in most_common order relative to m: a larger count,
      or the same count and an earlier place in m. */
  ghost predicate Before<T>(x: (T, nat), y: (T, nat), m: Counter<T>) {
    x in m && y in m &&
    (x.1 > y.1 || (x.1 == y.1 && FirstIndex(m, x) < FirstIndex(m, y)))
  }

  ghost predicate RankedBy<T>(s: Counter<T>, m: Counter<T>) {
    forall i, j | 0 <= i < j < |s| :: Before(s[i], s[j], m)
  }

  lemma {:induction false} InsertPermutes<T>(s: Counter<T>, e: (T, nat))
    ensures multiset(Insert(s, e)) == multiset(s) + multiset{e}
  {
    if s != [] && s[0].1 >= e.1 {
      InsertPermutes(s[1..], e);
      assert s == [s[0]] + s[1..];
    }
  }

  lemma {:induction false} SortByCountPermutes<T>(m: Counter<T>)
    ensures multiset(SortByCount(m)) == multiset(m)
    ensures |SortByCount(m)| == |m|
  {
    if m != [] {
      SortByCountPermutes(m[..|m| - 1]);
      InsertPermutes(SortByCount(m[..|m| - 1]), m[|m| - 1]);
      assert m == m[..|m| - 1] + [m[|m| - 1]];
    }
  }

  lemma RankedCons<T>(x: (T, nat), t: Counter<T>, m: Counter<T>)
    requires RankedBy(t, m)
    requires forall k | 0 <= k < |t| :: Before(x, t[k], m)
    ensures RankedBy([x] + t, m)
  {
    var s := [x] + t;
    forall i, j | 0 <= i < j < |s| ensures Before(s[i], s[j], m) {
      if i > 0 {
        assert s[i] == t[i - 1] && s[j] == t[j - 1];
      } else {
        assert s[j] == t[j - 1];
      }
    }
  }

  /** Inserting an entry that comes later in m than everything already sorted
      keeps the list ranked. */
  /** The head of a ranked list that outranks e stays ahead of everything
      once e is inserted into the rest. */
  lemma HeadBeforeInsert<T>(s: Counter<T>, e: (T, nat), m: Counter<T>)
    requires RankedBy(s, m) && s != [] && s[0].1 >= e.1 && e in m
    requires forall k | 0 <= k < |s| :: s[k] in m && FirstIndex(m, s[k]) < FirstIndex(m, e)
    ensures forall k | 0 <= k < |Insert(s[1..], e)| :: Before(s[0], Insert(s[1..], e)[k], m)
  {
    var t := s[1..];
    InsertPermutes(t, e);
    forall k | 0 <= k < |Insert(t, e)| ensures Before(s[0], Insert(t, e)[k], m) {
      var y := Insert(t, e)[k];
      assert y in multiset(Insert(t, e));
      if y != e {
        assert y in multiset(t);
        var j :| 0 <= j < |t| && t[j] == y;
        assert Before(s[0], s[j + 1], m);
      }
    }
  }

  lemma {:induction false} InsertRanked<T>(s: Counter<T>, e: (T, nat), m: Counter<T>)
    requires RankedBy(s, m) && e in m
    requires forall k | 0 <= k < |s| :: s[k] in m && FirstIndex(m, s[k]) < FirstIndex(m, e)
    ensures RankedBy(Insert(s, e), m)
  {
    if s == [] {
    } else if s[0].1 >= e.1 {
      var t := s[1..];
      assert forall k | 0 <= k < |t| :: t[k] == s[k + 1];
      assert RankedBy(t, m);
      InsertRanked(t, e, m);
      HeadBeforeInsert(s, e, m);
      RankedCons(s[0], Insert(t, e), m);
    } else {
      forall k | 0 <= k < |s| ensures Before(e, s[k], m) {
        if k > 0 {
          assert Before(s[0], s[k], m);
        }
      }
      RankedCons(e, s, m);
    }
  }

  lemma {:induction false} SortByCountRanked<T>(m: Counter<T>)
    requires DistinctKeys(m)
    ensures RankedBy(SortByCount(m), m)
  {
    if m != [] {
      var init, e := m[..|m| - 1], m[|m| - 1];
      assert m == init + [e];
      assert DistinctKeys(init);
      SortByCountRanked(init);
      SortByCountPermutes(init);
      var s := SortByCount(init);
      assert e !in init by {
        forall i | 0 <= i < |init| ensures init[i] != e {
          assert m[i].0 != m[|m| - 1].0;
        }
      }
      FirstIndexUnique(m, e, |init|);
      forall x | x in init ensures FirstIndex(m, x) == FirstIndex(init, x) {
        FirstIndexAppend(init, e, x);
      }
      forall i, j | 0 <= i < j < |s| ensures Before(s[i], s[j], m) {
        assert Before(s[i], s[j], init);
        assert s[i] in multiset(init) && s[j] in multiset(init);
      }
      forall k | 0 <= k < |s| ensures s[k] in m && FirstIndex(m, s[k]) < FirstIndex(m, e) {
        assert s[k] in multiset(init);
      }
      InsertRanked(s, e, m);
    }
  }

  lemma {:induction false} GetAt<T>(m: Counter<T>, p: nat)
    requires DistinctKeys(m) && p < |m|
    ensures Get(m, m[p].0) == m[p].1
  {
    if p > 0 {
      assert DistinctKeys(m[1..]) by {
        forall i, j | 0 <= i < j < |m| - 1 ensures m[1..][i].0 != m[1..][j].0 {
          assert m[i + 1].0 != m[j + 1].0;
        }
      }
      assert m[0].0 != m[p].0;
      GetAt(m[1..], p - 1);
    }
  }

  /** Equal counts keep Counter(xs)'s order, which is first-occurrence order. */
  lemma TallyPlaces<T>(xs: seq<T>, a: (T, nat), b: (T, nat))
    requires a in Tally(xs) && b in Tally(xs)
    requires FirstIndex(Tally(xs), a) < FirstIndex(Tally(xs), b)
    ensures a.0 in xs && b.0 in xs && FirstIndex(xs, a.0) < FirstIndex(xs, b.0)
  {
    var m := Tally(xs);
    TallyOrder(xs);
    var p, q := FirstIndex(m, a), FirstIndex(m, b);
    assert Keys(m)[p] == a.0 && Keys(m)[q] == b.0;
  }

  /** Counter(xs).most_common(n) is a prefix of Counter(xs) sorted by count. */
  lemma MostCommonPrefix<T>(xs: seq<T>, n: nat)
    ensures var m := Tally(xs); var r := MostCommon(m, n);
      && DistinctKeys(m) && |r| <= |SortByCount(m)|
      && r == SortByCount(m)[..|r|]
      && RankedBy(SortByCount(m), m)
      && multiset(SortByCount(m)) == multiset(m)
  {
    TallyDistinct(xs);
    SortByCountRanked(Tally(xs));
    SortByCountPermutes(Tally(xs));
  }

  /** Each entry of most_common(n) is an element of xs with its number of
      occurrences in xs. */
  lemma MostCommonEntries<T>(xs: seq<T>, n: nat, r: Counter<T>)
    requires r == MostCommon(Tally(xs), n)
    ensures
      forall i | 0 <= i < |r| :: r[i].0 in xs && r[i].1 == multiset(xs)[r[i].0]
  {
    var m := Tally(xs);
    MostCommonPrefix(xs, n);
    TallyKeys(xs);
    forall i | 0 <= i < |r| ensures r[i].0 in xs && r[i].1 == multiset(xs)[r[i].0] {
      assert r[i] in multiset(SortByCount(m));
      var p := FirstIndex(m, r[i]);
      GetAt(m, p);
      TallyGet(xs, r[i].0);
      assert Keys(m)[p] == r[i].0;
    }
  }

  /** most_common(n) runs by descending count; equal counts keep the order
      in which the elements first occur in xs. */
  lemma MostCommonSorted<T>(xs: seq<T>, n: nat, r: Counter<T>)
    requires r == MostCommon(Tally(xs), n)
    ensures
      forall i, j | 0 <= i < j < |r| :: r[i].0 in xs && r[j].0 in xs &&
        (r[i].1 > r[j].1 || (r[i].1 == r[j].1 && FirstIndex(xs, r[i].0) < FirstIndex(xs, r[j].0)))
  {
    var m := Tally(xs);
    MostCommonPrefix(xs, n);
    MostCommonEntries(xs, n, r);
    forall i, j | 0 <= i < j < |r|
      ensures r[i].1 > r[j].1 || (r[i].1 == r[j].1 && FirstIndex(xs, r[i].0) < FirstIndex(xs, r[j].0))
    {
      assert Before(SortByCount(m)[i], SortByCount(m)[j], m);
      if r[i].1 == r[j].1 {
        TallyPlaces(xs, r[i], r[j]);
      }
    }
  }

  /** No element of xs left out of most_common(n) occurs more often than
      any element kept. */
  lemma MostCommonTop<T>(xs: seq<T>, n: nat, r: Counter<T>)
    requires r == MostCommon(Tally(xs), n)
    ensures
      forall x | x in xs && x !in Keys(r) :: forall i | 0 <= i < |r| :: multiset(xs)[x] <= r[i].1
  {
    var m := Tally(xs);
    var srt := SortByCount(m);
    MostCommonPrefix(xs, n);
    TallyKeys(xs);
    forall x | x in xs && x !in Keys(r) ensures forall i | 0 <= i < |r| :: multiset(xs)[x] <= r[i].1 {
      var p :| 0 <= p < |m| && Keys(m)[p] == x;
      GetAt(m, p);
      TallyGet(xs, x);
      assert m[p] in multiset(srt);
      var q :| 0 <= q < |srt| && srt[q] == m[p];
      assert q >= |r| by {
        forall t | 0 <= t < |r| ensures Keys(r)[t] == srt[t].0 { }
      }
      forall i | 0 <= i < |r| ensures multiset(xs)[x] <= r[i].1 {
        assert Before(srt[i], srt[q], m);
      }
    }
  }
}
