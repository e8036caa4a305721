/**
 * pandas' `value_counts` on a column of hashable values, and the orderings the
 * dashboard puts on its result: by count descending (the default), by key
 * ascending (`sort_index`) and the first rows (`head(n)`).
 *
 * pandas does not document the order among equal counts. This model fixes it:
 * values are tallied in the order they are first met, and the sort by count is
 * stable, so equal counts keep first-seen order (`ValueCountsTieOrder`).
 */
module Counting {

  /** One row of a counts series: a distinct value and how often it occurs. */
  datatype Entry<K> = Entry(key: K, count: nat)

  function Keys<K>(es: seq<Entry<K>>): (ks: seq<K>)
    ensures |ks| == |es|
    ensures forall i :: 0 <= i < |es| ==> ks[i] == es[i].key
  {
    if es == [] then [] else [es[0].key] + Keys(es[1..])
  }

  ghost predicate DistinctKeys<K>(es: seq<Entry<K>>) {
    forall i, j :: 0 <= i < j < |es| ==> es[i].key != es[j].key
  }

  ghost predicate Positive<K>(es: seq<Entry<K>>) {
    forall i :: 0 <= i < |es| ==> es[i].count > 0
  }

  /** The total of the counts. */
  function Sum<K>(es: seq<Entry<K>>): nat {
    if es == [] then 0 else es[0].count + Sum(es[1..])
  }

  /** The count the series gives `x`: that of its first entry with key `x`, or 0. */
  function CountOf<K(==)>(es: seq<Entry<K>>, x: K): nat {
    if es == [] then 0 else if es[0].key == x then es[0].count else CountOf(es[1..], x)
  }

  /** Counts are non-increasing along the series. */
  ghost predicate ByCountDescending<K>(es: seq<Entry<K>>) {
    forall i, j :: 0 <= i < j < |es| ==> es[i].count >= es[j].count
  }

  /** Keys are strictly increasing along the series. */
  ghost predicate ByKeyAscending(es: seq<Entry<int>>) {
    forall i, j :: 0 <= i < j < |es| ==> es[i].key < es[j].key
  }

  /** The entries whose count is `c`, in series order. */
  function WithCount<K>(es: seq<Entry<K>>, c: nat): seq<Entry<K>> {
    if es == [] then []
    else (if es[0].count == c then [es[0]] else []) + WithCount(es[1..], c)
  }

  /** In a series without repeated keys, an entry's count is the count of its key. */
  lemma {:induction false} CountOfEntry<K>(es: seq<Entry<K>>, i: nat)
    requires DistinctKeys(es) && i < |es|
    ensures CountOf(es, es[i].key) == es[i].count
  {
    if i > 0 {
      CountOfEntry(es[1..], i - 1);
    }
  }

  /** Entries are the same up to order exactly when their keys are. */
  lemma KeysOfPermutation<K>(a: seq<Entry<K>>, b: seq<Entry<K>>)
    requires multiset(a) == multiset(b)
    ensures forall k :: k in Keys(a) <==> k in Keys(b)
  {
    forall k | k in Keys(a) ensures k in Keys(b) {
      var i :| 0 <= i < |a| && a[i].key == k;
      assert a[i] in multiset(b);
      var j :| 0 <= j < |b| && b[j] == a[i];
    }
    forall k | k in Keys(b) ensures k in Keys(a) {
      var j :| 0 <= j < |b| && b[j].key == k;
      assert b[j] in multiset(a);
      var i :| 0 <= i < |a| && a[i] == b[j];
    }
  }

  /** Count one more occurrence of `k`: its entry goes up by one, or a new entry `(k, 1)` is appended. */
  function Bump<K(==)>(es: seq<Entry<K>>, k: K): (r: seq<Entry<K>>)
    ensures Keys(r) == if k in Keys(es) then Keys(es) else Keys(es) + [k]
    ensures Sum(r) == Sum(es) + 1
    ensures Positive(es) ==> Positive(r)
  {
    if es == [] then [Entry(k, 1)]
    else if es[0].key == k then
      var r := [Entry(k, es[0].count + 1)] + es[1..];
      assert r[1..] == es[1..];
      assert Keys(r) == Keys(es) by {
        assert Keys(r) == [k] + Keys(es[1..]) && Keys(es) == [k] + Keys(es[1..]);
      }
      r
    else
      var b := Bump(es[1..], k);
      var r := [es[0]] + b;
      assert r[0] == es[0] && r[1..] == b;
      assert k in Keys(es) <==> k in Keys(es[1..]) by {
        assert Keys(es) == [es[0].key] + Keys(es[1..]);
      }
      assert Keys(r) == [es[0].key] + Keys(b);
      r
  }

  /** `Bump` adds one to the count of `k` and leaves every other count alone. */
  lemma {:induction false} BumpCountOf<K>(es: seq<Entry<K>>, k: K, x: K)
    ensures CountOf(Bump(es, k), x) == CountOf(es, x) + (if x == k then 1 else 0)
  {
    if es != [] && es[0].key != k {
      BumpCountOf(es[1..], k, x);
      assert Bump(es, k)[1..] == Bump(es[1..], k);
    }
  }

  lemma DistinctAfterBump<K>(es: seq<Entry<K>>, k: K)
    requires DistinctKeys(es)
    ensures DistinctKeys(Bump(es, k))
  {
    var r := Bump(es, k);
    var ks := Keys(r);
    if k in Keys(es) {
      forall i, j | 0 <= i < j < |r| ensures r[i].key != r[j].key {
        assert r[i].key == ks[i] == es[i].key;
        assert r[j].key == ks[j] == es[j].key;
      }
    } else {
      forall i, j | 0 <= i < j < |r| ensures r[i].key != r[j].key {
        assert r[i].key == ks[i] == Keys(es)[i];
        assert r[j].key == ks[j];
        if j == |es| {
          assert ks[j] == k;
        } else {
          assert ks[j] == Keys(es)[j];
        }
      }
    }
  }

  /**
   * The counter behind `value_counts`, before sorting: one entry per distinct
   * value of `s`, in the order values are first met (`TallyFirstSeen`), with
   * positive counts that add up to the number of values.
   */
  function Tally<K(==)>(s: seq<K>): (r: seq<Entry<K>>)
    ensures DistinctKeys(r)
    ensures Positive(r)
    ensures Sum(r) == |s|
    ensures forall i :: 0 <= i < |s| ==> s[i] in Keys(r)
    ensures forall i :: 0 <= i < |r| ==> r[i].key in s
  {
    if s == [] then []
    else
      var init, last := s[..|s| - 1], s[|s| - 1];
      assert s == init + [last];
      DistinctAfterBump(Tally(init), last);
      BumpMembers(init, last, Tally(init));
      Bump(Tally(init), last)
  }

  /** Counting one more value keeps the keys of a counter exactly the values counted. */
  lemma BumpMembers<K>(init: seq<K>, last: K, t: seq<Entry<K>>)
    requires forall i :: 0 <= i < |init| ==> init[i] in Keys(t)
    requires forall i :: 0 <= i < |t| ==> t[i].key in init
    ensures var s, r := init + [last], Bump(t, last);
      && (forall i :: 0 <= i < |s| ==> s[i] in Keys(r))
      && (forall i :: 0 <= i < |r| ==> r[i].key in s)
  {
    var s, r := init + [last], Bump(t, last);
    var ks := Keys(r);
    assert forall i :: 0 <= i < |init| ==> s[i] == init[i];
    forall i | 0 <= i < |r| ensures r[i].key in s {
      assert r[i].key == ks[i];
      if i < |t| {
        assert ks[i] == Keys(t)[i] == t[i].key;
      } else {
        assert ks[i] == last;
      }
    }
  }

  /** The tally gives every value its number of occurrences. */
  lemma {:induction false} TallyCountOf<K>(s: seq<K>, x: K)
    ensures CountOf(Tally(s), x) == multiset(s)[x]
    decreases |s|
  {
    if s != [] {
      var init, last := s[..|s| - 1], s[|s| - 1];
      assert s == init + [last];
      TallyCountOf(init, x);
      BumpCountOf(Tally(init), last, x);
    }
  }

  /** Each entry of the tally holds the number of occurrences of its key. */
  lemma TallyEntries<K>(s: seq<K>)
    ensures forall i :: 0 <= i < |Tally(s)| ==> Tally(s)[i].count == multiset(s)[Tally(s)[i].key]
  {
    var t := Tally(s);
    forall i | 0 <= i < |t| ensures t[i].count == multiset(s)[t[i].key] {
      CountOfEntry(t, i);
      TallyCountOf(s, t[i].key);
    }
  }

  /**
   * The tally of a prefix of `s` is a prefix of the tally of `s`: a value that
   * is met earlier gets an earlier entry.
   */
  lemma {:induction false} TallyFirstSeen<K>(s: seq<K>, j: nat)
    requires j <= |s|
    ensures Keys(Tally(s[..j])) <= Keys(Tally(s))
    decreases |s|
  {
    if j == |s| {
      assert s[..j] == s;
    } else {
      var init := s[..|s| - 1];
      assert init[..j] == s[..j];
      TallyFirstSeen(init, j);
      TallyStep(s);
    }
  }

  /** Tallying one more value keeps the earlier keys in place. */
  lemma TallyStep<K>(t: seq<K>)
    requires |t| > 0
    ensures Keys(Tally(t[..|t| - 1])) <= Keys(Tally(t))
  {
    var before := Tally(t[..|t| - 1]);
    assert Tally(t) == Bump(before, t[|t| - 1]);
  }

  /** Stable insertion of `x` into a series ordered by count descending: before the first entry it is not below. */
  function InsertByCount<K(==)>(x: Entry<K>, es: seq<Entry<K>>): (r: seq<Entry<K>>)
    ensures multiset(r) == multiset(es) + multiset{x}
  {
    if es == [] then [x]
    else if x.count >= es[0].count then [x] + es
    else
      assert es == [es[0]] + es[1..];
      [es[0]] + InsertByCount(x, es[1..])
  }

  /** Every entry of `InsertByCount(x, es)` is `x` or an entry of `es`. */
  lemma InsertByCountMembers<K>(x: Entry<K>, es: seq<Entry<K>>)
    ensures forall e :: e in InsertByCount(x, es) ==> e == x || e in es
  {
    var r := InsertByCount(x, es);
    forall e | e in r ensures e == x || e in es {
      assert e in multiset(r);
    }
  }

  /** Insertion keeps a series ordered by count descending. */
  lemma {:induction false} InsertByCountOrdered<K>(x: Entry<K>, es: seq<Entry<K>>)
    requires ByCountDescending(es)
    ensures ByCountDescending(InsertByCount(x, es))
  {
    if es != [] && x.count < es[0].count {
      var tail := InsertByCount(x, es[1..]);
      InsertByCountOrdered(x, es[1..]);
      InsertByCountMembers(x, es[1..]);
      var r := [es[0]] + tail;
      forall i, j | 0 <= i < j < |r| ensures r[i].count >= r[j].count {
        if i > 0 {
          assert r[i] == tail[i - 1] && r[j] == tail[j - 1];
        } else {
          assert r[j] in tail;
        }
      }
    }
  }

  /** Insertion of an entry with a new key keeps keys distinct. */
  lemma {:induction false} InsertByCountDistinct<K>(x: Entry<K>, es: seq<Entry<K>>)
    requires DistinctKeys(es) && x.key !in Keys(es)
    ensures DistinctKeys(InsertByCount(x, es))
  {
    if es != [] && x.count < es[0].count {
      var tail := InsertByCount(x, es[1..]);
      assert Keys(es) == [es[0].key] + Keys(es[1..]);
      InsertByCountDistinct(x, es[1..]);
      InsertByCountMembers(x, es[1..]);
      var r := [es[0]] + tail;
      forall i, j | 0 <= i < j < |r| ensures r[i].key != r[j].key {
        if i > 0 {
          assert r[i] == tail[i - 1] && r[j] == tail[j - 1];
        } else {
          assert r[j] in tail;
        }
      }
    }
  }

  /** Insertion sort by count descending; stable, see `SortByCountStable`. */
  function SortByCount<K(==)>(es: seq<Entry<K>>): (r: seq<Entry<K>>)
    ensures multiset(r) == multiset(es)
    ensures ByCountDescending(r)
  {
    if es == [] then []
    else
      assert es == [es[0]] + es[1..];
      InsertByCountOrdered(es[0], SortByCount(es[1..]));
      InsertByCount(es[0], SortByCount(es[1..]))
  }

  /** Sorting keeps keys distinct. */
  lemma {:induction false} SortByCountDistinct<K>(es: seq<Entry<K>>)
    requires DistinctKeys(es)
    ensures DistinctKeys(SortByCount(es))
  {
    if es != [] {
      var rest := SortByCount(es[1..]);
      assert Keys(es) == [es[0].key] + Keys(es[1..]);
      SortByCountDistinct(es[1..]);
      KeysOfPermutation(rest, es[1..]);
      InsertByCountDistinct(es[0], rest);
    }
  }

  /** The entries of count `c` of a series with one more entry in front. */
  lemma WithCountCons<K>(e: Entry<K>, es: seq<Entry<K>>, c: nat)
    ensures WithCount([e] + es, c) == (if e.count == c then [e] else []) + WithCount(es, c)
  {
    assert ([e] + es)[1..] == es;
  }

  /** Inserting `x` leaves every other count class in place and puts `x` first in its own. */
  lemma {:induction false} InsertByCountStable<K>(x: Entry<K>, es: seq<Entry<K>>, c: nat)
    ensures WithCount(InsertByCount(x, es), c) == (if x.count == c then [x] else []) + WithCount(es, c)
  {
    if es == [] {
    } else if x.count >= es[0].count {
      WithCountCons(x, es, c);
    } else {
      var tail := InsertByCount(x, es[1..]);
      InsertByCountStable(x, es[1..], c);
      WithCountCons(es[0], tail, c);
      WithCountCons(es[0], es[1..], c);
      assert es == [es[0]] + es[1..];
    }
  }

  /** The sort is stable: the entries of any one count keep their relative order. */
  lemma {:induction false} SortByCountStable<K>(es: seq<Entry<K>>, c: nat)
    ensures WithCount(SortByCount(es), c) == WithCount(es, c)
  {
    if es != [] {
      SortByCountStable(es[1..], c);
      InsertByCountStable(es[0], SortByCount(es[1..]), c);
    }
  }

  /** `s.value_counts()`: the tally sorted by count descending, ties in first-seen order. */
  function ValueCounts<K(==)>(s: seq<K>): (r: seq<Entry<K>>)
    ensures DistinctKeys(r) && ByCountDescending(r)
    ensures Sum(r) == |s|
  {
    var t := Tally(s);
    SortByCountDistinct(t);
    PermutedTally(s, SortByCount(t));
    SortByCount(t)
  }

  /**
   * Any reordering of the tally of `s` holds, for each distinct value of `s`
   * and no other, that value's positive number of occurrences, and its counts
   * add up to `|s|`.
   */
  lemma PermutedTally<K>(s: seq<K>, r: seq<Entry<K>>)
    requires multiset(r) == multiset(Tally(s))
    ensures forall i :: 0 <= i < |r| ==> r[i].count == multiset(s)[r[i].key] > 0
    ensures forall k :: k in s <==> k in Keys(r)
    ensures Sum(r) == |s|
  {
    var t := Tally(s);
    PermutedTallyCounts(s, r);
    TallyKeys(s);
    KeysOfPermutation(r, t);
    SumOfPermutation(r, t);
  }

  /** The keys of the tally are the values of `s`. */
  lemma TallyKeys<K>(s: seq<K>)
    ensures forall k :: k in s <==> k in Keys(Tally(s))
  {
    var t := Tally(s);
    forall k | k in s ensures k in Keys(t) {
      var i :| 0 <= i < |s| && s[i] == k;
    }
    forall k | k in Keys(t) ensures k in s {
      var i :| 0 <= i < |t| && Keys(t)[i] == k;
      assert t[i].key in s;
    }
  }

  lemma PermutedTallyCounts<K>(s: seq<K>, r: seq<Entry<K>>)
    requires multiset(r) == multiset(Tally(s))
    ensures forall i :: 0 <= i < |r| ==> r[i].count == multiset(s)[r[i].key] > 0
  {
    var t := Tally(s);
    TallyEntries(s);
    forall i | 0 <= i < |r| ensures r[i].count == multiset(s)[r[i].key] > 0 {
      assert r[i] in multiset(t);
      var j :| 0 <= j < |t| && t[j] == r[i];
      assert t[j].count > 0;
    }
  }

  /**
   * What `value_counts` delivers: one entry per distinct value of `s` and no
   * other, each holding that value's positive number of occurrences, counts
   * non-increasing, the counts adding up to `|s|`.
   */
  lemma ValueCountsSpec<K>(s: seq<K>)
    ensures var r := ValueCounts(s);
      && DistinctKeys(r)
      && ByCountDescending(r)
      && (forall i :: 0 <= i < |r| ==> r[i].count == multiset(s)[r[i].key] > 0)
      && (forall k :: k in s <==> k in Keys(r))
      && Sum(r) == |s|
  {
    SortByCountDistinct(Tally(s));
    PermutedTally(s, ValueCounts(s));
  }

  /**
   * The tie-break: among entries of equal count, `value_counts` lists values in
   * the order of the tally, which is first-seen order (`TallyFirstSeen`).
   */
  lemma ValueCountsTieOrder<K>(s: seq<K>, c: nat)
    ensures WithCount(ValueCounts(s), c) == WithCount(Tally(s), c)
  {
    SortByCountStable(Tally(s), c);
  }

  /** `value_counts().head(n)`: the first `n` rows of the counts. */
  function Top<K(==)>(s: seq<K>, n: nat): (r: seq<Entry<K>>)
    ensures |r| <= n && r <= ValueCounts(s)
    ensures |r| < n ==> r == ValueCounts(s)
  {
    var vc := ValueCounts(s);
    if |vc| <= n then vc else vc[..n]
  }

  /**
   * `head(n)` keeps at most `n` entries, ordered by count descending, each with
   * the exact number of occurrences of its value. A value it leaves out occurs
   * no more often than any value it keeps, and it leaves one out only when it
   * already keeps `n`.
   */
  lemma TopSpec<K>(s: seq<K>, n: nat)
    ensures var r := Top(s, n);
      && |r| <= n
      && r <= ValueCounts(s)
      && DistinctKeys(r)
      && ByCountDescending(r)
      && (forall i :: 0 <= i < |r| ==> r[i].count == multiset(s)[r[i].key] > 0)
      && (forall k :: k in Keys(r) ==> k in s)
      && (forall k :: k in s && k !in Keys(r) ==> |r| == n)
      && (forall k, i :: k in s && k !in Keys(r) && 0 <= i < |r| ==> multiset(s)[k] <= r[i].count)
  {
    var vc := ValueCounts(s);
    var r := Top(s, n);
    ValueCountsSpec(s);
    assert forall i :: 0 <= i < |r| ==> r[i] == vc[i];
    TopKeys(s, n);
    TopLeavesOutLess(s, n);
  }

  /** Every key `head(n)` keeps is a value of `s`. */
  lemma TopKeys<K>(s: seq<K>, n: nat)
    ensures forall k :: k in Keys(Top(s, n)) ==> k in s
  {
    ValueCountsSpec(s);
    PrefixKeys(Top(s, n), ValueCounts(s));
  }

  /** Every key of a prefix is a key of the whole series. */
  lemma PrefixKeys<K>(r: seq<Entry<K>>, vc: seq<Entry<K>>)
    requires r <= vc
    ensures forall k :: k in Keys(r) ==> k in Keys(vc)
  {
    forall k | k in Keys(r) ensures k in Keys(vc) {
      var i :| 0 <= i < |r| && Keys(r)[i] == k;
      assert Keys(vc)[i] == vc[i].key == r[i].key;
    }
  }

  /** A value `head(n)` leaves out is not more frequent than any it keeps, and it leaves one out only when full. */
  lemma TopLeavesOutLess<K>(s: seq<K>, n: nat)
    ensures var r := Top(s, n);
      forall k :: k in s && k !in Keys(r) ==>
        |r| == n && forall i :: 0 <= i < |r| ==> multiset(s)[k] <= r[i].count
  {
    var vc := ValueCounts(s);
    var r := Top(s, n);
    ValueCountsSpec(s);
    forall k | k in s && k !in Keys(r)
      ensures |r| == n && forall i :: 0 <= i < |r| ==> multiset(s)[k] <= r[i].count
    {
      var p :| 0 <= p < |vc| && Keys(vc)[p] == k;
      PrefixLeavesOutLess(vc, |r|, p);
      assert multiset(s)[k] == vc[p].count;
    }
  }

  /** In a series by count descending, an entry outside the first `m` comes after them and is not above them. */
  lemma PrefixLeavesOutLess<K>(vc: seq<Entry<K>>, m: nat, p: nat)
    requires ByCountDescending(vc) && m <= |vc| && p < |vc|
    requires vc[p].key !in Keys(vc[..m])
    ensures m <= p
    ensures forall i :: 0 <= i < m ==> vc[p].count <= vc[..m][i].count
  {
    assert forall i :: 0 <= i < m ==> Keys(vc[..m])[i] == vc[i].key;
  }

  /** Insertion of `x` into a series ordered by key ascending, before the first key it does not exceed. */
  function InsertByKey(x: Entry<int>, es: seq<Entry<int>>): (r: seq<Entry<int>>)
    ensures multiset(r) == multiset(es) + multiset{x}
  {
    if es == [] then [x]
    else if x.key <= es[0].key then [x] + es
    else
      assert es == [es[0]] + es[1..];
      [es[0]] + InsertByKey(x, es[1..])
  }

  /** Inserting an entry above a bound into a series above that bound stays above it. */
  lemma {:induction false} InsertByKeyAbove(x: Entry<int>, es: seq<Entry<int>>, lo: int)
    requires x.key > lo && forall i :: 0 <= i < |es| ==> es[i].key > lo
    ensures forall i :: 0 <= i < |InsertByKey(x, es)| ==> InsertByKey(x, es)[i].key > lo
  {
    if es != [] && x.key > es[0].key {
      InsertByKeyAbove(x, es[1..], lo);
    }
  }

  /** Inserting an entry with a new key keeps keys strictly ascending. */
  lemma {:induction false} InsertByKeyOrdered(x: Entry<int>, es: seq<Entry<int>>)
    requires ByKeyAscending(es) && x.key !in Keys(es)
    ensures ByKeyAscending(InsertByKey(x, es))
  {
    if es != [] {
      assert x.key != es[0].key && x.key !in Keys(es[1..]) by {
        assert Keys(es) == [es[0].key] + Keys(es[1..]);
      }
      if x.key < es[0].key {
        var r := [x] + es;
        forall i, j | 0 <= i < j < |r| ensures r[i].key < r[j].key {
          assert r[j] == es[j - 1];
        }
      } else {
        var tail := InsertByKey(x, es[1..]);
        InsertByKeyOrdered(x, es[1..]);
        InsertByKeyAbove(x, es[1..], es[0].key);
        var r := [es[0]] + tail;
        forall i, j | 0 <= i < j < |r| ensures r[i].key < r[j].key {
          assert r[j] == tail[j - 1];
          if i > 0 {
            assert r[i] == tail[i - 1];
          }
        }
      }
    }
  }

  /** `sort_index()` on a counts series: insertion sort by key ascending. */
  function SortByKey(es: seq<Entry<int>>): (r: seq<Entry<int>>)
    ensures multiset(r) == multiset(es)
  {
    if es == [] then []
    else
      assert es == [es[0]] + es[1..];
      InsertByKey(es[0], SortByKey(es[1..]))
  }

  /** Sorting a series without repeated keys makes its keys strictly ascending. */
  lemma {:induction false} SortByKeyOrdered(es: seq<Entry<int>>)
    requires DistinctKeys(es)
    ensures ByKeyAscending(SortByKey(es))
  {
    if es != [] {
      var rest := SortByKey(es[1..]);
      assert Keys(es) == [es[0].key] + Keys(es[1..]);
      SortByKeyOrdered(es[1..]);
      KeysOfPermutation(rest, es[1..]);
      InsertByKeyOrdered(es[0], rest);
    }
  }

  /** The sum of counts does not depend on their order. */
  lemma {:induction false} SumOfPermutation<K>(a: seq<Entry<K>>, b: seq<Entry<K>>)
    requires multiset(a) == multiset(b)
    ensures Sum(a) == Sum(b)
    decreases |a|
  {
    if a != [] {
      var x := a[0];
      assert x in multiset(b);
      var j :| 0 <= j < |b| && b[j] == x;
      var b' := b[..j] + b[j + 1..];
      assert b == b[..j] + [x] + b[j + 1..];
      assert multiset(b) == multiset(b[..j]) + multiset{x} + multiset(b[j + 1..]);
      assert a == [x] + a[1..];
      assert multiset(a) == multiset{x} + multiset(a[1..]);
      assert multiset(b') == multiset(b[..j]) + multiset(b[j + 1..]);
      assert multiset(a[1..]) == multiset(a) - multiset{x};
      assert multiset(b') == multiset(b) - multiset{x};
      SumOfPermutation(a[1..], b');
      SumRemove(b, j);
    }
  }

  /** Removing the entry at `j` takes its count off the sum. */
  lemma {:induction false} SumRemove<K>(b: seq<Entry<K>>, j: nat)
    requires j < |b|
    ensures Sum(b) == b[j].count + Sum(b[..j] + b[j + 1..])
    decreases j
  {
    if j > 0 {
      SumRemove(b[1..], j - 1);
      assert b[1..][..j - 1] + b[1..][j..] == (b[..j] + b[j + 1..])[1..];
    } else {
      assert b[..0] + b[1..] == b[1..];
    }
  }

  /**
   * `value_counts().sort_index()` on integer values: one entry per distinct
   * value, keys strictly ascending, each holding its positive number of
   * occurrences, the counts adding up to `|s|`.
   */
  lemma SortedCountsSpec(s: seq<int>)
    ensures var r := SortByKey(ValueCounts(s));
      && ByKeyAscending(r)
      && (forall i :: 0 <= i < |r| ==> r[i].count == multiset(s)[r[i].key] > 0)
      && (forall k :: k in s <==> k in Keys(r))
      && Sum(r) == |s|
  {
    var vc := ValueCounts(s);
    assert multiset(vc) == multiset(Tally(s));
    SortByKeyOrdered(vc);
    PermutedTally(s, SortByKey(vc));
  }
}
