/** Sequence helpers shared by the tree view and its host: distinctness,
    order-keeping filters (`Array.prototype.filter`) and first-occurrence
    deduplication (`Array.from(new Set(...))`). */
module Lists {

  /** No element occurs twice. */
  predicate Distinct(s: seq<int>)
  {
    forall i, j :: 0 <= i < j < |s| ==> s[i] != s[j]
  }

  lemma DistinctAppend(a: seq<int>, b: seq<int>)
    requires Distinct(a + b)
    ensures Distinct(a) && Distinct(b)
    ensures forall x :: x in a ==> x !in b
  {
    assert forall i :: 0 <= i < |a| ==> (a + b)[i] == a[i];
    assert forall j :: 0 <= j < |b| ==> (a + b)[|a| + j] == b[j];
    forall x | x in a
      ensures x !in b
    {
      var i :| 0 <= i < |a| && a[i] == x;
    }
  }

  lemma DistinctSnoc(a: seq<int>, y: int)
    requires Distinct(a) && y !in a
    ensures Distinct(a + [y])
  {
    assert forall i :: 0 <= i < |a| ==> (a + [y])[i] == a[i];
  }

  /** Distinctness is a bound of one on every count. */
  lemma {:induction false} DistinctCounts(s: seq<int>)
    ensures Distinct(s) <==> forall x :: multiset(s)[x] <= 1
  {
    if s != [] {
      DistinctCounts(s[1..]);
      assert s == [s[0]] + s[1..];
      if Distinct(s) {
        assert Distinct(s[1..]) by {
          forall i, j | 0 <= i < j < |s[1..]| ensures s[1..][i] != s[1..][j] {
            assert s[1..][i] == s[i + 1] && s[1..][j] == s[j + 1];
          }
        }
        assert s[0] !in s[1..] by {
          forall j | 0 <= j < |s[1..]| ensures s[1..][j] != s[0] {
            assert s[1..][j] == s[j + 1];
          }
        }
      }
      if forall x :: multiset(s)[x] <= 1 {
        assert forall x :: multiset(s[1..])[x] <= 1 by {
          forall x ensures multiset(s[1..])[x] <= 1 {
            assert multiset(s)[x] == multiset(s[1..])[x] + (if x == s[0] then 1 else 0);
          }
        }
        assert multiset(s)[s[0]] == multiset(s[1..])[s[0]] + 1;
        forall i, j | 0 <= i < j < |s| ensures s[i] != s[j] {
          if i == 0 {
            assert s[j] == s[1..][j - 1];
            assert s[j] in multiset(s[1..]);
          } else {
            assert s[i] == s[1..][i - 1] && s[j] == s[1..][j - 1];
          }
        }
      }
    }
  }

  lemma DistinctSub(a: seq<int>, b: seq<int>)
    requires multiset(a) <= multiset(b) && Distinct(b)
    ensures Distinct(a)
  {
    DistinctCounts(a);
    DistinctCounts(b);
  }

  // ---------------------------------------------------------------------------
  // Filtering and deduplication

  /** `a` is `b` with some elements left out, the rest in their order. */
  predicate Subseq(a: seq<int>, b: seq<int>)
    decreases |b|
  {
    if b == [] then a == []
    else Subseq(a, b[1..]) || (a != [] && a[0] == b[0] && Subseq(a[1..], b[1..]))
  }

  lemma {:induction false} SubseqRefl(a: seq<int>)
    ensures Subseq(a, a)
  {
    if a != [] {
      SubseqRefl(a[1..]);
    }
  }

  lemma {:induction false} SubseqEmpty(b: seq<int>)
    ensures Subseq([], b)
  {
    if b != [] {
      SubseqEmpty(b[1..]);
    }
  }

  /** Subsequences of two lists concatenate to a subsequence of their concatenation. */
  lemma {:induction false} SubseqAppend(a: seq<int>, b: seq<int>, c: seq<int>, d: seq<int>)
    requires Subseq(a, b) && Subseq(c, d)
    ensures Subseq(a + c, b + d)
    decreases |b|
  {
    if b == [] {
      assert a + c == c && b + d == d;
    } else {
      assert (b + d)[1..] == b[1..] + d;
      if Subseq(a, b[1..]) {
        SubseqAppend(a, b[1..], c, d);
      } else {
        SubseqAppend(a[1..], b[1..], c, d);
        assert (a + c)[1..] == a[1..] + c;
      }
    }
  }

  /** The elements of `e` not in `drop`, in order (`Array.prototype.filter`). */
  function RemoveAll(e: seq<int>, drop: seq<int>): (r: seq<int>)
    ensures forall x :: x in r <==> x in e && x !in drop
    ensures Subseq(r, e)
  {
    if e == [] then []
    else if e[0] in drop then RemoveAll(e[1..], drop)
    else [e[0]] + RemoveAll(e[1..], drop)
  }

  lemma {:induction false} RemoveAllNoneDropped(e: seq<int>, drop: seq<int>)
    requires forall i :: 0 <= i < |e| ==> e[i] !in drop
    ensures RemoveAll(e, drop) == e
  {
    if e != [] {
      assert forall i :: 0 <= i < |e[1..]| ==> e[1..][i] == e[i + 1];
      RemoveAllNoneDropped(e[1..], drop);
      assert e == [e[0]] + e[1..];
    }
  }

  lemma {:induction false} RemoveAllAppend(a: seq<int>, b: seq<int>, drop: seq<int>)
    ensures RemoveAll(a + b, drop) == RemoveAll(a, drop) + RemoveAll(b, drop)
  {
    if a == [] {
      assert a + b == b;
    } else {
      assert (a + b)[1..] == a[1..] + b;
      RemoveAllAppend(a[1..], b, drop);
    }
  }

  lemma {:induction false} RemoveAllDistinct(e: seq<int>, drop: seq<int>)
    requires Distinct(e)
    ensures Distinct(RemoveAll(e, drop))
  {
    if e != [] {
      assert Distinct(e[1..]) by {
        assert forall i :: 0 <= i < |e[1..]| ==> e[1..][i] == e[i + 1];
      }
      RemoveAllDistinct(e[1..], drop);
      assert e[0] !in e[1..] by {
        assert forall j :: 0 <= j < |e[1..]| ==> e[1..][j] == e[j + 1];
      }
    }
  }

  /** Collapsing twice is collapsing once. */
  /** Removing one value drops every occurrence of it and keeps every other value as often. */
  lemma {:induction false} RemoveOneCounts(e: seq<int>, x: int)
    ensures multiset(RemoveAll(e, [x])) == multiset(e)[x := 0]
  {
    if e != [] {
      RemoveOneCounts(e[1..], x);
      assert e == [e[0]] + e[1..];
    }
  }

  lemma RemoveAllIdempotent(e: seq<int>, drop: seq<int>)
    ensures RemoveAll(RemoveAll(e, drop), drop) == RemoveAll(e, drop)
  {
    RemoveAllNoneDropped(RemoveAll(e, drop), drop);
  }

  /** `Array.from(new Set(s))`: each element once, at its first occurrence. */
  function Dedup(s: seq<int>): (r: seq<int>)
    ensures Distinct(r)
    ensures forall x :: x in r <==> x in s
  {
    if s == [] then []
    else
      var n := |s| - 1;
      var r := Dedup(s[..n]);
      if s[n] in s[..n] then r
      else DistinctSnoc(r, s[n]); r + [s[n]]
  }

  /** A list without duplicates passes through unchanged. */
  lemma {:induction false} DedupDistinct(s: seq<int>)
    requires Distinct(s)
    ensures Dedup(s) == s
  {
    if s != [] {
      var n := |s| - 1;
      assert Distinct(s[..n]) by {
        assert forall i :: 0 <= i < n ==> s[..n][i] == s[i];
      }
      DedupDistinct(s[..n]);
      assert s[n] !in s[..n] by {
        assert forall i :: 0 <= i < n ==> s[..n][i] == s[i];
      }
      assert s == s[..n] + [s[n]];
    }
  }

  /** Appending more elements never disturbs the deduplicated front. */
  lemma {:induction false} DedupPrefix(a: seq<int>, b: seq<int>)
    ensures |Dedup(a)| <= |Dedup(a + b)| && Dedup(a + b)[..|Dedup(a)|] == Dedup(a)
    decreases |b|
  {
    if b == [] {
      assert a + b == a;
    } else {
      var n := |b| - 1;
      assert (a + b)[..|a + b| - 1] == a + b[..n];
      DedupPrefix(a, b[..n]);
    }
  }
}
