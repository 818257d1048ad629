/**
 The two orders the store lists articles in, and the stable sort that
 `Array.prototype.sort` performs with a comparator of the form `key(b) - key(a)`
 (newest first; elements with equal keys keep their relative order).
 */
module StableSort {
  import opened Schema

  /** Newest `createdAt` first, or newest `publishedAt` first with a missing `publishedAt` read as 0. */
  datatype Order = NewestCreated | NewestPublished

  function Key(o: Order, a: Article): int {
    match o
    case NewestCreated => a.createdAt
    case NewestPublished => if a.publishedAt.Some? then a.publishedAt.value else 0
  }

  /** Keys never increase from left to right. */
  predicate SortedDesc(o: Order, s: seq<Article>) {
    forall i, j :: 0 <= i < j < |s| ==> Key(o, s[i]) >= Key(o, s[j])
  }

  /** The elements of `s` whose key is `k`, in their order in `s`. */
  function WithKey(o: Order, s: seq<Article>, k: int): seq<Article> {
    if s == [] then []
    else (if Key(o, s[0]) == k then [s[0]] else []) + WithKey(o, s[1..], k)
  }

  /** `r` holds, for every key, the same elements as `s` in the same relative order. */
  ghost predicate SameRuns(o: Order, s: seq<Article>, r: seq<Article>) {
    forall k :: WithKey(o, r, k) == WithKey(o, s, k)
  }

  /** Inserts `x` in front of the first element whose key does not exceed its own. */
  function Insert(o: Order, x: Article, s: seq<Article>): (r: seq<Article>)
    requires SortedDesc(o, s)
    ensures SortedDesc(o, r)
    ensures |r| == |s| + 1 && (r[0] == x || (|s| > 0 && r[0] == s[0]))
    ensures multiset(r) == multiset(s) + multiset{x}
  {
    if s == [] || Key(o, s[0]) <= Key(o, x) then
      ConsSorted(o, x, s);
      [x] + s
    else
      assert s == [s[0]] + s[1..];
      ConsSorted(o, s[0], s[1..]);
      var rest := Insert(o, x, s[1..]);
      ConsSorted(o, s[0], rest);
      [s[0]] + rest
  }

  /** `x` enters its own run in front of the elements already there, and leaves every other run alone. */
  lemma {:induction false} InsertRun(o: Order, x: Article, s: seq<Article>, k: int)
    requires SortedDesc(o, s)
    ensures WithKey(o, Insert(o, x, s), k) == (if Key(o, x) == k then [x] else []) + WithKey(o, s, k)
  {
    if s == [] || Key(o, s[0]) <= Key(o, x) {
      ConsRun(o, x, s, k);
    } else {
      var y, t := s[0], s[1..];
      assert s == [y] + t;
      ConsSorted(o, y, t);
      var rest := Insert(o, x, t);
      assert Insert(o, x, s) == [y] + rest;
      InsertRun(o, x, t, k);
      SwapHeads(o, y, x, t, rest, k);
    }
  }

  /** An element with a different key can be put in front of `x` before or after inserting `x`. */
  lemma SwapHeads(o: Order, y: Article, x: Article, t: seq<Article>, rest: seq<Article>, k: int)
    requires Key(o, x) != Key(o, y)
    requires WithKey(o, rest, k) == (if Key(o, x) == k then [x] else []) + WithKey(o, t, k)
    ensures WithKey(o, [y] + rest, k) == (if Key(o, x) == k then [x] else []) + WithKey(o, [y] + t, k)
  {
    ConsRun(o, y, rest, k);
    ConsRun(o, y, t, k);
  }

  /** Putting an element in front of a sorted sequence. */
  lemma ConsSorted(o: Order, y: Article, t: seq<Article>)
    ensures SortedDesc(o, [y] + t) ==> SortedDesc(o, t)
    ensures SortedDesc(o, t) && (t == [] || Key(o, t[0]) <= Key(o, y)) ==> SortedDesc(o, [y] + t)
  {
    assert ([y] + t)[1..] == t;
  }

  /** The run of `k` in `[y] + t`. */
  lemma ConsRun(o: Order, y: Article, t: seq<Article>, k: int)
    ensures WithKey(o, [y] + t, k) == (if Key(o, y) == k then [y] else []) + WithKey(o, t, k)
  {
    assert ([y] + t)[1..] == t;
  }

  /** The stable, newest-first sort of `s`. */
  function Sort(o: Order, s: seq<Article>): (r: seq<Article>)
    ensures SortedDesc(o, r)
    ensures multiset(r) == multiset(s)
  {
    if s == [] then []
    else
      assert s == [s[0]] + s[1..];
      Insert(o, s[0], Sort(o, s[1..]))
  }

  /** Sorting is stable: each run keeps the elements of `s` with that key, in their order in `s`. */
  lemma {:induction false} SortRuns(o: Order, s: seq<Article>)
    ensures SameRuns(o, s, Sort(o, s))
  {
    if s != [] {
      SortRuns(o, s[1..]);
      forall k
        ensures WithKey(o, Sort(o, s), k) == WithKey(o, s, k)
      {
        InsertRun(o, s[0], Sort(o, s[1..]), k);
        assert s == [s[0]] + s[1..];
        ConsRun(o, s[0], s[1..], k);
      }
    }
  }

  /** Being sorted with the same runs as `s` pins a sequence down: the stable sort is the only such order. */
  lemma SortUnique(o: Order, s: seq<Article>, t: seq<Article>)
    requires SortedDesc(o, t) && SameRuns(o, s, t)
    ensures t == Sort(o, s)
  {
    SortRuns(o, s);
    SortedRunsEqual(o, Sort(o, s), t);
  }

  /** Two sorted sequences with the same runs are equal. */
  lemma {:induction false} SortedRunsEqual(o: Order, t: seq<Article>, u: seq<Article>)
    requires SortedDesc(o, t) && SortedDesc(o, u)
    requires SameRuns(o, t, u)
    ensures t == u
    decreases |t|
  {
    if t != [] {
      HeadRun(o, t);
      assert WithKey(o, u, Key(o, t[0])) != [];
    }
    if u != [] {
      HeadRun(o, u);
      assert WithKey(o, t, Key(o, u[0])) != [];
    }
    if t != [] {
      var a, b := Key(o, t[0]), Key(o, u[0]);
      RunBelowHead(o, u, a);
      RunBelowHead(o, t, b);
      assert a == b;
      assert t == [t[0]] + t[1..];
      assert u == [u[0]] + u[1..];
      ConsRun(o, t[0], t[1..], a);
      ConsRun(o, u[0], u[1..], a);
      assert [t[0]] + WithKey(o, t[1..], a) == [u[0]] + WithKey(o, u[1..], a);
      assert t[0] == ([t[0]] + WithKey(o, t[1..], a))[0];
      ConsSorted(o, t[0], t[1..]);
      ConsSorted(o, u[0], u[1..]);
      forall k
        ensures WithKey(o, t[1..], k) == WithKey(o, u[1..], k)
      {
        ConsRun(o, t[0], t[1..], k);
        ConsRun(o, u[0], u[1..], k);
        assert WithKey(o, t, k) == WithKey(o, u, k);
        if k == a {
          assert WithKey(o, t[1..], a) == ([t[0]] + WithKey(o, t[1..], a))[1..];
          assert WithKey(o, u[1..], a) == ([u[0]] + WithKey(o, u[1..], a))[1..];
        } else {
          assert WithKey(o, t, k) == WithKey(o, t[1..], k);
          assert WithKey(o, u, k) == WithKey(o, u[1..], k);
        }
      }
      SortedRunsEqual(o, t[1..], u[1..]);
    }
  }

  /** The head of a sequence starts its own run. */
  lemma HeadRun(o: Order, s: seq<Article>)
    requires |s| > 0
    ensures WithKey(o, s, Key(o, s[0])) != []
  {
  }

  /** In a sorted sequence no run has a key above the head's. */
  lemma {:induction false} RunBelowHead(o: Order, s: seq<Article>, k: int)
    requires SortedDesc(o, s) && |s| > 0 && WithKey(o, s, k) != []
    ensures k <= Key(o, s[0])
  {
    if Key(o, s[0]) != k {
      assert WithKey(o, s, k) == WithKey(o, s[1..], k);
      ConsSorted(o, s[0], s[1..]);
      assert s == [s[0]] + s[1..];
      RunBelowHead(o, s[1..], k);
    }
  }

  /** Keys pairwise distinct. */
  predicate DistinctKeys(o: Order, s: seq<Article>) {
    forall i, j :: 0 <= i < j < |s| ==> Key(o, s[i]) != Key(o, s[j])
  }

  /** With pairwise distinct keys, a sorted sequence with the runs of `s` is strictly decreasing. */
  lemma DistinctKeysStrict(o: Order, s: seq<Article>, r: seq<Article>)
    requires DistinctKeys(o, s) && SortedDesc(o, r) && SameRuns(o, s, r)
    ensures forall i, j :: 0 <= i < j < |r| ==> Key(o, r[i]) > Key(o, r[j])
  {
    forall i, j | 0 <= i < j < |r|
      ensures Key(o, r[i]) > Key(o, r[j])
    {
      if Key(o, r[i]) == Key(o, r[j]) {
        var k := Key(o, r[i]);
        RunOfTwo(o, r, i, j);
        RunOfDistinct(o, s, k);
        assert false;
      }
    }
  }

  /** Two positions with key `k` put at least two elements in the run of `k`. */
  lemma {:induction false} RunOfTwo(o: Order, r: seq<Article>, i: nat, j: nat)
    requires i < j < |r| && Key(o, r[i]) == Key(o, r[j])
    ensures |WithKey(o, r, Key(o, r[i]))| >= 2
  {
    var k := Key(o, r[i]);
    if i > 0 {
      RunOfTwo(o, r[1..], i - 1, j - 1);
    } else {
      RunMember(o, r[1..], j - 1, k);
    }
  }

  /** A position with key `k` puts an element in the run of `k`. */
  lemma {:induction false} RunMember(o: Order, r: seq<Article>, j: nat, k: int)
    requires j < |r| && Key(o, r[j]) == k
    ensures |WithKey(o, r, k)| >= 1
  {
    if j > 0 {
      RunMember(o, r[1..], j - 1, k);
    }
  }

  /** With pairwise distinct keys, every run has at most one element. */
  lemma {:induction false} RunOfDistinct(o: Order, s: seq<Article>, k: int)
    requires DistinctKeys(o, s)
    ensures |WithKey(o, s, k)| <= 1
  {
    if s != [] {
      assert DistinctKeys(o, s[1..]) by {
        forall i, j | 0 <= i < j < |s[1..]|
          ensures Key(o, s[1..][i]) != Key(o, s[1..][j])
        {
          assert s[1..][i] == s[i + 1] && s[1..][j] == s[j + 1];
        }
      }
      RunOfDistinct(o, s[1..], k);
      if Key(o, s[0]) == k {
        RunAbsent(o, s[1..], k);
      }
    }
  }

  /** No position with key `k` leaves the run of `k` empty. */
  lemma {:induction false} RunAbsent(o: Order, s: seq<Article>, k: int)
    requires forall i :: 0 <= i < |s| ==> Key(o, s[i]) != k
    ensures WithKey(o, s, k) == []
  {
    if s != [] {
      RunAbsent(o, s[1..], k);
    }
  }
}
