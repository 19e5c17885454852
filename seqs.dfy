/** Sequences as relational tables: `Filter` is a `WHERE` clause (also the
    effect of a `DELETE ... WHERE`), and `Appended` describes a run of
    `INSERT`s whose rows come in an unspecified order. */
module Seqs {

  /** The rows of `s` that satisfy `keep`, in their original order. */
  function Filter<T(!new)>(s: seq<T>, keep: T -> bool): (r: seq<T>)
    ensures |r| <= |s|
    ensures forall x :: x in r <==> x in s && keep(x)
  {
    if s == [] then []
    else if keep(s[0]) then [s[0]] + Filter(s[1..], keep)
    else Filter(s[1..], keep)
  }

  lemma {:induction false} FilterConcat<T(!new)>(a: seq<T>, b: seq<T>, keep: T -> bool)
    ensures Filter(a + b, keep) == Filter(a, keep) + Filter(b, keep)
  {
    if a == [] {
      assert a + b == b;
    } else {
      assert (a + b)[0] == a[0];
      assert (a + b)[1..] == a[1..] + b;
      FilterConcat(a[1..], b, keep);
    }
  }

  /** A filter that every row passes changes nothing. */
  lemma {:induction false} FilterKeepsAll<T(!new)>(s: seq<T>, keep: T -> bool)
    requires forall x :: x in s ==> keep(x)
    ensures Filter(s, keep) == s
  {
    if s != [] {
      assert s[0] in s;
      assert forall x :: x in s[1..] ==> x in s;
      FilterKeepsAll(s[1..], keep);
      assert s == [s[0]] + s[1..];
    }
  }

  /** A filter that no row passes leaves nothing. */
  lemma {:induction false} FilterDropsAll<T(!new)>(s: seq<T>, keep: T -> bool)
    requires forall x :: x in s ==> !keep(x)
    ensures Filter(s, keep) == []
  {
    if s != [] {
      assert s[0] in s;
      assert forall x :: x in s[1..] ==> x in s;
      FilterDropsAll(s[1..], keep);
    }
  }

  /** Two filters that agree on every row of `s` select the same rows. */
  lemma {:induction false} FilterSame<T(!new)>(s: seq<T>, p: T -> bool, q: T -> bool)
    requires forall x :: x in s ==> p(x) == q(x)
    ensures Filter(s, p) == Filter(s, q)
  {
    if s != [] {
      assert s[0] in s;
      assert forall x :: x in s[1..] ==> x in s;
      FilterSame(s[1..], p, q);
    }
  }

  /** Filtering twice is filtering once by the conjunction. */
  lemma {:induction false} FilterFilter<T(!new)>(s: seq<T>, p: T -> bool, q: T -> bool, pq: T -> bool)
    requires forall x :: x in s ==> (pq(x) <==> p(x) && q(x))
    ensures Filter(Filter(s, p), q) == Filter(s, pq)
  {
    if s != [] {
      assert s[0] in s;
      assert forall x :: x in s[1..] ==> x in s;
      FilterFilter(s[1..], p, q, pq);
    }
  }

  /** A filter and its complement split the rows between them. */
  lemma {:induction false} FilterSplitSize<T(!new)>(s: seq<T>, p: T -> bool, notP: T -> bool)
    requires forall x :: x in s ==> (notP(x) <==> !p(x))
    ensures |Filter(s, p)| + |Filter(s, notP)| == |s|
  {
    if s != [] {
      assert s[0] in s;
      assert forall x :: x in s[1..] ==> x in s;
      FilterSplitSize(s[1..], p, notP);
    }
  }

  /** How many copies of a row a filter keeps. */
  lemma {:induction false} FilterMultiset<T(!new)>(s: seq<T>, keep: T -> bool, x: T)
    ensures multiset(Filter(s, keep))[x] == if keep(x) then multiset(s)[x] else 0
  {
    if s != [] {
      FilterMultiset(s[1..], keep, x);
      assert s == [s[0]] + s[1..];
    }
  }

  /** Rows with as many distinct keys as there are rows have pairwise
      different keys. */
  lemma {:induction false} DistinctKeys<T, K>(s: seq<T>, key: T -> K, keys: set<K>)
    requires forall x :: x in s ==> key(x) in keys
    requires forall k :: k in keys ==> exists x :: x in s && key(x) == k
    requires |keys| == |s|
    ensures forall i, j :: 0 <= i < |s| && 0 <= j < |s| && key(s[i]) == key(s[j]) ==> i == j
  {
    if s != [] {
      var tail, tailKeys := s[1..], set x | x in s[1..] :: key(x);
      assert forall x :: x in s <==> x == s[0] || x in tail;
      KeysBound(tail, key, tailKeys);
      assert keys == tailKeys + {key(s[0])};
      if key(s[0]) in tailKeys {
        assert false;
      }
      DistinctKeys(tail, key, tailKeys);
      assert forall i :: 0 < i < |s| ==> s[i] == tail[i - 1] && key(s[i]) in tailKeys;
      forall i, j | 0 <= i < |s| && 0 <= j < |s| && key(s[i]) == key(s[j])
        ensures i == j
      {
        if i > 0 && j > 0 {
          assert key(tail[i - 1]) == key(tail[j - 1]);
        }
      }
    }
  }

  /** There are no more distinct keys than rows. */
  lemma {:induction false} KeysBound<T, K>(s: seq<T>, key: T -> K, keys: set<K>)
    requires forall k :: k in keys ==> exists x :: x in s && key(x) == k
    ensures |keys| <= |s|
  {
    if s != [] {
      var tail, rest := s[1..], keys - {key(s[0])};
      assert forall x :: x in s ==> x == s[0] || x in tail;
      forall k | k in rest
        ensures exists x :: x in tail && key(x) == k
      {
        var x :| x in s && key(x) == k;
        assert x != s[0];
      }
      KeysBound(tail, key, rest);
    } else {
      assert keys == {};
    }
  }

  /** `after` is `before` followed by exactly one copy of each row of `rows`,
      in some order. */
  ghost predicate Appended<T>(before: seq<T>, after: seq<T>, rows: set<T>)
  {
    |before| <= |after| && after[..|before|] == before &&
    multiset(after[|before|..]) == multiset(rows)
  }

  lemma AppendedNothing<T>(s: seq<T>)
    ensures Appended(s, s, {})
  {
  }

  lemma AppendedOne<T>(s: seq<T>, x: T)
    ensures Appended(s, s + [x], {x})
  {
    assert (s + [x])[|s|..] == [x];
  }

  /** Two runs of inserts of disjoint row sets make one run. */
  lemma AppendedTrans<T>(a: seq<T>, b: seq<T>, c: seq<T>, r1: set<T>, r2: set<T>)
    requires Appended(a, b, r1) && Appended(b, c, r2) && r1 !! r2
    ensures Appended(a, c, r1 + r2)
  {
    assert c[..|a|] == b[..|a|];
    assert c[|a|..] == b[|a|..] + c[|b|..];
    MultisetOfDisjointUnion(r1, r2);
  }

  /** One more insert extends a run of inserts by its row. */
  lemma AppendedPush<T>(before: seq<T>, mid: seq<T>, rows: set<T>, x: T)
    requires Appended(before, mid, rows) && x !in rows
    ensures Appended(before, mid + [x], rows + {x})
  {
    AppendedOne(mid, x);
    AppendedTrans(before, mid, mid + [x], rows, {x});
  }

  /** The rows after a run of inserts are the old rows and the inserted ones. */
  lemma AppendedMembers<T>(before: seq<T>, after: seq<T>, rows: set<T>)
    requires Appended(before, after, rows)
    ensures after == before + after[|before|..]
    ensures forall x :: x in after[|before|..] <==> x in rows
    ensures forall x :: x in after <==> x in before || x in rows
    ensures |after| == |before| + |rows|
  {
    assert after == after[..|before|] + after[|before|..];
    forall x
      ensures x in after[|before|..] <==> x in rows
    {
      assert x in after[|before|..] <==> x in multiset(after[|before|..]);
      assert x in rows <==> x in multiset(rows);
    }
    assert |after[|before|..]| == |multiset(after[|before|..])|;
  }

  /** After a run of inserts, a filter keeps what it kept of the old rows
      and the inserted rows `kept` that pass it. */
  lemma FilterAppendedSize<T(!new)>(before: seq<T>, after: seq<T>, rows: set<T>, keep: T -> bool, kept: set<T>)
    requires Appended(before, after, rows)
    requires forall x :: x in kept <==> x in rows && keep(x)
    ensures |Filter(after, keep)| == |Filter(before, keep)| + |kept|
  {
    AppendedMembers(before, after, rows);
    var added := after[|before|..];
    FilterConcat(before, added, keep);
    forall x
      ensures multiset(Filter(added, keep))[x] == multiset(kept)[x]
    {
      FilterMultiset(added, keep, x);
    }
    assert multiset(Filter(added, keep)) == multiset(kept);
    assert |Filter(added, keep)| == |multiset(Filter(added, keep))|;
  }

  lemma MultisetOfDisjointUnion<T>(a: set<T>, b: set<T>)
    requires a !! b
    ensures multiset(a + b) == multiset(a) + multiset(b)
  {
    forall x
      ensures multiset(a + b)[x] == (multiset(a) + multiset(b))[x]
    {
      assert x in a ==> x !in b;
    }
  }

  /** An injective image of a finite set has the size of the set. */
  lemma {:induction false} InjectiveImageSize<A, B>(s: set<A>, f: A -> B, img: set<B>)
    requires forall x, y :: x in s && y in s && f(x) == f(y) ==> x == y
    requires forall x :: x in s ==> f(x) in img
    requires forall y :: y in img ==> exists x :: x in s && f(x) == y
    ensures |img| == |s|
  {
    if s != {} {
      var x :| x in s;
      var s', img' := s - {x}, img - {f(x)};
      forall y | y in img'
        ensures exists x' :: x' in s' && f(x') == y
      {
        var x' :| x' in s && f(x') == y;
        assert x' != x;
        assert x' in s';
      }
      InjectiveImageSize(s', f, img');
      assert img == img' + {f(x)};
    } else {
      assert img == {};
    }
  }

  /** Some element of a non-empty set: the element a set iteration visits
      next, in an order the model leaves open. */
  method Pick<T>(s: set<T>) returns (x: T)
    requires s != {}
    ensures x in s
  {
    x :| x in s;
  }
}
