/** What the hosted store does to the rows of a table when it answers a
    query: keep the rows a condition holds for, order them by a column,
    newest first, take the first few, or hand back the one row that matches. */
module Seqs {
  import opened Optional

  /** The rows of s that p holds for, in their order. */
  function Filter<T>(s: seq<T>, p: T -> bool): (r: seq<T>)
    ensures |r| <= |s|
    ensures forall i :: 0 <= i < |r| ==> r[i] in s && p(r[i])
    ensures forall i :: 0 <= i < |s| && p(s[i]) ==> s[i] in r
  {
    if s == [] then []
    else
      var rest := Filter(s[1..], p);
      if p(s[0]) then [s[0]] + rest else rest
  }

  /** Filtering a concatenation filters each part. */
  lemma {:induction false} FilterAppend<T>(a: seq<T>, b: seq<T>, p: T -> bool)
    ensures Filter(a + b, p) == Filter(a, p) + Filter(b, p)
  {
    if a != [] {
      assert (a + b)[0] == a[0] && (a + b)[1..] == a[1..] + b;
      FilterAppend(a[1..], b, p);
      var x, fa, fb := a[0], Filter(a[1..], p), Filter(b, p);
      assert [x] + (fa + fb) == [x] + fa + fb;
    } else {
      assert a + b == b;
    }
  }

  /** r is s with some rows left out and the rest in their order. */
  predicate Subsequence<T(==)>(r: seq<T>, s: seq<T>)
    decreases |s|
  {
    if r == [] then true
    else if s == [] then false
    else (r[0] == s[0] && Subsequence(r[1..], s[1..])) || Subsequence(r, s[1..])
  }

  /** Filtering only leaves rows out: the kept rows stay in table order. */
  lemma {:induction false} FilterSubsequence<T>(s: seq<T>, p: T -> bool)
    ensures Subsequence(Filter(s, p), s)
  {
    if s != [] {
      FilterSubsequence(s[1..], p);
      var rest := Filter(s[1..], p);
      if p(s[0]) {
        assert ([s[0]] + rest)[0] == s[0] && ([s[0]] + rest)[1..] == rest;
      }
    }
  }

  /** Two conditions that agree on every row keep the same rows. */
  lemma {:induction false} FilterSame<T>(s: seq<T>, p: T -> bool, q: T -> bool)
    requires forall i :: 0 <= i < |s| ==> p(s[i]) == q(s[i])
    ensures Filter(s, p) == Filter(s, q)
  {
    if s != [] {
      assert forall i :: 0 <= i < |s[1..]| ==> s[1..][i] == s[i + 1];
      FilterSame(s[1..], p, q);
    }
  }

  /** A condition that holds for every row keeps the whole table. */
  lemma {:induction false} FilterAll<T>(s: seq<T>, p: T -> bool)
    requires forall i :: 0 <= i < |s| ==> p(s[i])
    ensures Filter(s, p) == s
  {
    if s != [] {
      FilterAll(s[1..], p);
    }
  }

  /** ok holds of every pair of rows, taken in table order. */
  predicate Pairwise<T>(s: seq<T>, ok: (T, T) -> bool) {
    forall i, j :: 0 <= i < j < |s| ==> ok(s[i], s[j])
  }

  /** Filtering keeps rows in their order, so a property of every ordered
      pair of rows survives it. */
  lemma {:induction false} FilterPairwise<T>(s: seq<T>, p: T -> bool, ok: (T, T) -> bool)
    requires Pairwise(s, ok)
    ensures Pairwise(Filter(s, p), ok)
  {
    if s != [] {
      FilterPairwise(s[1..], p, ok);
      var rest := Filter(s[1..], p);
      forall j | 0 <= j < |rest| ensures ok(s[0], rest[j]) {
        var k :| 0 <= k < |s[1..]| && s[1..][k] == rest[j];
        assert s[k + 1] == rest[j];
      }
    }
  }

  /** A row that pairs well with every row of a table can be appended. */
  lemma PairwiseSnoc<T>(s: seq<T>, x: T, ok: (T, T) -> bool)
    requires Pairwise(s, ok)
    requires forall y :: y in s ==> ok(y, x)
    ensures Pairwise(s + [x], ok)
  {
    var t := s + [x];
    forall i, j | 0 <= i < j < |t| ensures ok(t[i], t[j]) {
      assert t[i] == s[i];
      if j == |s| {
        assert s[i] in s;
      } else {
        assert t[j] == s[j];
      }
    }
  }

  /** The number of rows p holds for. */
  function Count<T>(s: seq<T>, p: T -> bool): (n: nat)
    ensures n <= |s|
  {
    |Filter(s, p)|
  }

  /** Every row is counted either by p or by its complement q. */
  lemma {:induction false} CountSplit<T>(s: seq<T>, p: T -> bool, q: T -> bool)
    requires forall i :: 0 <= i < |s| ==> q(s[i]) == !p(s[i])
    ensures Count(s, p) + Count(s, q) == |s|
  {
    if s != [] {
      CountSplit(s[1..], p, q);
    }
  }

  /** The rows are in non-increasing order of key: ORDER BY key DESC. */
  predicate SortedDesc<T>(s: seq<T>, key: T -> int) {
    forall i, j :: 0 <= i < j < |s| ==> key(s[i]) >= key(s[j])
  }

  /** Places x before the first row whose key is below it. */
  function InsertDesc<T>(x: T, s: seq<T>, key: T -> int): (r: seq<T>)
    requires SortedDesc(s, key)
    ensures SortedDesc(r, key)
    ensures multiset(r) == multiset(s) + multiset{x}
    ensures |r| == |s| + 1
    ensures r[0] == x || (s != [] && r[0] == s[0])
  {
    if s == [] || key(x) >= key(s[0]) then
      FirstIsLargest(s, key);
      ConsSorted(x, s, key);
      [x] + s
    else
      var rest := InsertDesc(x, s[1..], key);
      FirstIsLargest(s, key);
      RestBelow(s[0], x, s[1..], rest, key);
      ConsSorted(s[0], rest, key);
      assert s == [s[0]] + s[1..];
      assert multiset(s) == multiset{s[0]} + multiset(s[1..]);
      assert multiset([s[0]] + rest) == multiset{s[0]} + multiset(rest);
      [s[0]] + rest
  }

  /** The first row of a sorted table has the largest key. */
  lemma FirstIsLargest<T>(s: seq<T>, key: T -> int)
    requires SortedDesc(s, key)
    ensures forall i :: 0 < i < |s| ==> key(s[0]) >= key(s[i])
    ensures s != [] ==> forall i :: 0 <= i < |s[1..]| ==> key(s[0]) >= key(s[1..][i])
  {
    if s != [] {
      forall i | 0 <= i < |s[1..]| ensures key(s[0]) >= key(s[1..][i]) {
        assert s[1..][i] == s[i + 1];
      }
    }
  }

  /** A key at least those of x and of every row of s is at least that of
      every row of a table holding x and the rows of s. */
  lemma RestBelow<T>(h: T, x: T, s: seq<T>, rest: seq<T>, key: T -> int)
    requires forall i :: 0 <= i < |s| ==> key(h) >= key(s[i])
    requires key(h) >= key(x)
    requires multiset(rest) == multiset(s) + multiset{x}
    ensures forall i :: 0 <= i < |rest| ==> key(h) >= key(rest[i])
  {
    forall i | 0 <= i < |rest| ensures key(h) >= key(rest[i]) {
      assert rest[i] in multiset(rest);
      if rest[i] != x {
        assert rest[i] in multiset(s);
        var j :| 0 <= j < |s| && s[j] == rest[i];
      }
    }
  }

  /** A row put in front of a sorted table whose keys are all at most its
      own keeps the table sorted. */
  lemma ConsSorted<T>(h: T, t: seq<T>, key: T -> int)
    requires SortedDesc(t, key)
    requires forall i :: 0 <= i < |t| ==> key(h) >= key(t[i])
    ensures SortedDesc([h] + t, key)
  {
    var r := [h] + t;
    forall i, j | 0 <= i < j < |r| ensures key(r[i]) >= key(r[j]) {
      assert r[j] == t[j - 1];
      if i > 0 {
        assert r[i] == t[i - 1];
      }
    }
  }

  /** ORDER BY key DESC: the same rows, newest first. Rows with equal keys
      come out in some order; nothing here depends on which. */
  function SortDesc<T>(s: seq<T>, key: T -> int): (r: seq<T>)
    ensures SortedDesc(r, key)
    ensures multiset(r) == multiset(s)
    ensures |r| == |s|
  {
    if s == [] then []
    else
      assert s == [s[0]] + s[1..];
      InsertDesc(s[0], SortDesc(s[1..], key), key)
  }

  /** A row is in the sorted table exactly when it is in the table. */
  lemma SortDescMembers<T>(s: seq<T>, key: T -> int)
    ensures forall x :: x in SortDesc(s, key) <==> x in s
  {
    var r := SortDesc(s, key);
    forall x ensures x in r <==> x in s {
      assert x in r <==> x in multiset(r);
      assert x in s <==> x in multiset(s);
    }
  }

  /** LIMIT n. */
  function Take<T>(s: seq<T>, n: nat): (r: seq<T>)
    ensures |r| <= n && |r| <= |s|
    ensures |s| <= n ==> r == s
    ensures forall i :: 0 <= i < |r| ==> r[i] == s[i]
  {
    if |s| <= n then s else s[..n]
  }

  /** The first rows of a sorted table are sorted. */
  lemma TakeSorted<T>(s: seq<T>, n: nat, key: T -> int)
    requires SortedDesc(s, key)
    ensures SortedDesc(Take(s, n), key)
  {
  }

  /** ORDER BY key DESC LIMIT n: the n rows with the largest keys, largest
      first. Every row left out has a key no larger than any row kept. */
  function Newest<T>(s: seq<T>, key: T -> int, n: nat): (r: seq<T>)
    ensures |r| == if |s| < n then |s| else n
    ensures SortedDesc(r, key)
    ensures r == Take(SortDesc(s, key), n)
    ensures forall i :: 0 <= i < |r| ==> r[i] in s
    ensures forall x :: x in s ==> x in r || forall i :: 0 <= i < |r| ==> key(x) <= key(r[i])
    ensures |s| <= n ==> multiset(r) == multiset(s)
  {
    var sorted := SortDesc(s, key);
    NewestTop(s, key, n);
    Take(sorted, n)
  }

  lemma NewestTop<T>(s: seq<T>, key: T -> int, n: nat)
    ensures var sorted := SortDesc(s, key);
            var r := Take(sorted, n);
            && (forall i :: 0 <= i < |r| ==> r[i] in s)
            && (forall x :: x in s ==> x in r || forall i :: 0 <= i < |r| ==> key(x) <= key(r[i]))
  {
    var sorted := SortDesc(s, key);
    var r := Take(sorted, n);
    SortDescMembers(s, key);
    forall i | 0 <= i < |r| ensures r[i] in s {
      assert r[i] == sorted[i];
    }
    forall x | x in s ensures x in r || forall i :: 0 <= i < |r| ==> key(x) <= key(r[i]) {
      var j :| 0 <= j < |sorted| && sorted[j] == x;
      if j < |r| {
        assert r[j] == x;
      } else {
        forall i | 0 <= i < |r| ensures key(x) <= key(r[i]) {
          assert r[i] == sorted[i];
        }
      }
    }
  }

  /** .single() / .maybeSingle(): the one row p holds for. When no row or
      more than one row matches, the store hands back no data. */
  function Single<T>(s: seq<T>, p: T -> bool): (r: Option<T>)
    ensures r.Some? ==> r.value in s && p(r.value)
    ensures Count(s, p) == 1 <==> r.Some?
  {
    var m := Filter(s, p);
    if |m| == 1 then Some(m[0]) else None
  }

  /** A condition that holds for no row keeps nothing. */
  lemma {:induction false} FilterNone<T>(s: seq<T>, p: T -> bool)
    requires forall i :: 0 <= i < |s| ==> !p(s[i])
    ensures Filter(s, p) == []
  {
    if s != [] {
      FilterNone(s[1..], p);
    }
  }

  /** A row that is the only one p holds for is the answer. */
  lemma {:induction false} SingleUnique<T>(s: seq<T>, p: T -> bool, k: nat)
    requires k < |s| && p(s[k])
    requires forall i :: 0 <= i < |s| && i != k ==> !p(s[i])
    ensures Single(s, p) == Some(s[k])
  {
    FilterOnly(s, p, k);
  }

  /** When no two rows both pass p, a row that passes is the answer. */
  lemma SingleOfAtMostOne<T>(s: seq<T>, p: T -> bool, k: nat)
    requires k < |s| && p(s[k])
    requires forall i, j :: 0 <= i < j < |s| ==> !(p(s[i]) && p(s[j]))
    ensures Single(s, p) == Some(s[k])
  {
    forall i | 0 <= i < |s| && i != k ensures !p(s[i]) {
      var a, b := if i < k then i else k, if i < k then k else i;
      assert !(p(s[a]) && p(s[b]));
    }
    SingleUnique(s, p, k);
  }

  lemma {:induction false} FilterOnly<T>(s: seq<T>, p: T -> bool, k: nat)
    requires k < |s| && p(s[k])
    requires forall i :: 0 <= i < |s| && i != k ==> !p(s[i])
    ensures Filter(s, p) == [s[k]]
  {
    if k == 0 {
      assert forall i :: 0 <= i < |s[1..]| ==> !p(s[1..][i]) by {
        forall i | 0 <= i < |s[1..]| ensures !p(s[1..][i]) {
          assert s[1..][i] == s[i + 1];
        }
      }
      FilterNone(s[1..], p);
    } else {
      assert forall i :: 0 <= i < |s[1..]| && i != k - 1 ==> !p(s[1..][i]) by {
        forall i | 0 <= i < |s[1..]| && i != k - 1 ensures !p(s[1..][i]) {
          assert s[1..][i] == s[i + 1];
        }
      }
      FilterOnly(s[1..], p, k - 1);
    }
  }
}
