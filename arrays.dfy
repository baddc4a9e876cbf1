/** The two array combinators the note/tag bookkeeping is built from,
    `Array.prototype.map` and `Array.prototype.filter`, on sequences, together
    with an order-aware description of what a filter returns. */
module Arrays {

  /** `s.map(f)`: one result per element, in the same order. */
  function Map<T, U>(s: seq<T>, f: T -> U): (r: seq<U>)
    ensures |r| == |s|
    ensures forall i :: 0 <= i < |s| ==> r[i] == f(s[i])
  {
    if s == [] then [] else [f(s[0])] + Map(s[1..], f)
  }

  /** `r` can be obtained from `s` by leaving elements out, without reordering. */
  ghost predicate IsSubsequence<T>(r: seq<T>, s: seq<T>)
    decreases |s|
  {
    r == [] || (s != [] && (IsSubsequence(r, s[1..]) || (r[0] == s[0] && IsSubsequence(r[1..], s[1..]))))
  }

  /** `r` is a subsequence of `s` that keeps either all or none of the
      occurrences of each value: the shape of every result of a filter. */
  ghost predicate Selects<T>(r: seq<T>, s: seq<T>) {
    && IsSubsequence(r, s)
    && forall x :: x in r ==> multiset(r)[x] == multiset(s)[x]
  }

  /** No value occurs twice. */
  ghost predicate Distinct<T>(s: seq<T>) {
    forall i, j :: 0 <= i < j < |s| ==> s[i] != s[j]
  }

  /** `s.filter(keep)`: exactly the elements of `s` that satisfy `keep`, in
      their original order; when every element passes, `s` itself. */
  function Filter<T(!new)>(s: seq<T>, keep: T -> bool): (r: seq<T>)
    ensures forall x :: x in r <==> x in s && keep(x)
    ensures Selects(r, s)
    ensures (forall x :: x in s ==> keep(x)) ==> r == s
  {
    if s == [] then [] else
    var rest := Filter(s[1..], keep);
    assert s == [s[0]] + s[1..];
    if keep(s[0]) then
      assert ([s[0]] + rest)[1..] == rest;
      [s[0]] + rest
    else
      assert rest == [] || IsSubsequence(rest, s);
      rest
  }

  lemma {:induction false} SubsequenceMultiset<T>(r: seq<T>, s: seq<T>)
    requires IsSubsequence(r, s)
    ensures multiset(r) <= multiset(s)
    decreases |s|
  {
    if r != [] {
      assert s == [s[0]] + s[1..];
      if IsSubsequence(r, s[1..]) {
        SubsequenceMultiset(r, s[1..]);
      } else {
        assert r == [r[0]] + r[1..];
        SubsequenceMultiset(r[1..], s[1..]);
      }
    }
  }

  lemma {:induction false} SubsequenceTransitive<T>(a: seq<T>, b: seq<T>, c: seq<T>)
    requires IsSubsequence(a, b) && IsSubsequence(b, c)
    ensures IsSubsequence(a, c)
    decreases |c|
  {
    if a != [] {
      if IsSubsequence(b, c[1..]) {
        SubsequenceTransitive(a, b, c[1..]);
      } else if IsSubsequence(a, b[1..]) {
        SubsequenceTransitive(a, b[1..], c[1..]);
      } else {
        SubsequenceTransitive(a[1..], b[1..], c[1..]);
      }
    }
  }

  /** Selecting from a selection is a selection from the original. */
  lemma SelectsTransitive<T>(a: seq<T>, b: seq<T>, c: seq<T>)
    requires Selects(a, b) && Selects(b, c)
    ensures Selects(a, c)
  {
    SubsequenceTransitive(a, b, c);
  }

  /** A selection from `s` is determined by which values it contains. */
  lemma {:induction false} SelectsUnique<T>(r1: seq<T>, r2: seq<T>, s: seq<T>)
    requires Selects(r1, s) && Selects(r2, s)
    requires forall x :: x in r1 <==> x in r2
    ensures r1 == r2
    decreases |s|
  {
    if s != [] {
      var x := s[0];
      assert s == [x] + s[1..];
      if x in r1 {
        SelectsHead(r1, s);
        SelectsHead(r2, s);
        assert r1 == [x] + r1[1..] && r2 == [x] + r2[1..];
        forall y | y in r1[1..] ensures y in r2[1..] {
          assert y in r1 && y in r2;
          if y == x {
            assert multiset(r1[1..])[x] == multiset(r1)[x] - 1 == multiset(r2[1..])[x];
          }
        }
        forall y | y in r2[1..] ensures y in r1[1..] {
          assert y in r2 && y in r1;
          if y == x {
            assert multiset(r2[1..])[x] == multiset(r2)[x] - 1 == multiset(r1[1..])[x];
          }
        }
        SelectsUnique(r1[1..], r2[1..], s[1..]);
      } else {
        SelectsSkip(r1, s);
        SelectsSkip(r2, s);
        SelectsUnique(r1, r2, s[1..]);
      }
    }
  }

  /** A selection that contains the first element of `s` starts with it, and
      its tail is a selection from the tail of `s`. */
  lemma SelectsHead<T>(r: seq<T>, s: seq<T>)
    requires Selects(r, s) && s != [] && s[0] in r
    ensures r[0] == s[0] && Selects(r[1..], s[1..])
  {
    assert s == [s[0]] + s[1..];
    if IsSubsequence(r, s[1..]) {
      SubsequenceMultiset(r, s[1..]);
      assert false;
    }
    assert r == [r[0]] + r[1..];
    forall y | y in r[1..] ensures multiset(r[1..])[y] == multiset(s[1..])[y] {
      assert y in r;
    }
  }

  /** A selection that leaves out the first element of `s` is a selection
      from the tail of `s`. */
  lemma SelectsSkip<T>(r: seq<T>, s: seq<T>)
    requires Selects(r, s) && s != [] && s[0] !in r
    ensures Selects(r, s[1..])
  {
    assert s == [s[0]] + s[1..];
    assert r == [] || r[0] != s[0];
  }

  /** Filtering by "key differs from `k`" removes as many elements as there are
      occurrences of `k` among the keys. */
  lemma {:induction false} FilterKeyLength<T(!new), K>(s: seq<T>, keep: T -> bool, key: T -> K, k: K)
    requires forall x :: keep(x) == (key(x) != k)
    ensures |Filter(s, keep)| == |s| - multiset(Map(s, key))[k]
  {
    if s != [] {
      FilterKeyLength(s[1..], keep, key, k);
      assert Map(s, key) == [key(s[0])] + Map(s[1..], key);
    }
  }

  /** A value occurs exactly once in a sequence without repetitions. */
  lemma {:induction false} DistinctOccursOnce<T>(s: seq<T>, x: T)
    requires Distinct(s) && x in s
    ensures multiset(s)[x] == 1
  {
    assert s == [s[0]] + s[1..];
    assert Distinct(s[1..]) by {
      forall i, j | 0 <= i < j < |s[1..]| ensures s[1..][i] != s[1..][j] {
        assert s[1..][i] == s[i + 1] && s[1..][j] == s[j + 1];
      }
    }
    if s[0] == x {
      assert x !in s[1..] by {
        forall j | 0 <= j < |s[1..]| ensures s[1..][j] != x {
          assert s[1..][j] == s[j + 1];
        }
      }
    } else {
      DistinctOccursOnce(s[1..], x);
    }
  }

  /** Leaving elements out keeps a sequence free of repetitions. */
  lemma {:induction false} DistinctSubsequence<T>(r: seq<T>, s: seq<T>)
    requires IsSubsequence(r, s) && Distinct(s)
    ensures Distinct(r)
    decreases |s|
  {
    if r != [] {
      assert Distinct(s[1..]) by {
        forall i, j | 0 <= i < j < |s[1..]| ensures s[1..][i] != s[1..][j] {
          assert s[1..][i] == s[i + 1] && s[1..][j] == s[j + 1];
        }
      }
      if IsSubsequence(r, s[1..]) {
        DistinctSubsequence(r, s[1..]);
      } else {
        DistinctSubsequence(r[1..], s[1..]);
        SubsequenceMultiset(r[1..], s[1..]);
        assert s[0] !in s[1..] by {
          forall j | 0 <= j < |s[1..]| ensures s[1..][j] != s[0] {
            assert s[1..][j] == s[j + 1];
          }
        }
        assert s[0] !in multiset(s[1..]);
        assert r[0] !in multiset(r[1..]);
        forall i, j | 0 <= i < j < |r| ensures r[i] != r[j] {
          if i == 0 {
            assert r[j] == r[1..][j - 1];
          } else {
            assert r[i] == r[1..][i - 1] && r[j] == r[1..][j - 1];
          }
        }
      }
    }
  }

  /** Mapping preserves the subsequence relation. */
  lemma {:induction false} MapSubsequence<T, U>(r: seq<T>, s: seq<T>, f: T -> U)
    requires IsSubsequence(r, s)
    ensures IsSubsequence(Map(r, f), Map(s, f))
    decreases |s|
  {
    if r != [] {
      assert Map(s, f) == [f(s[0])] + Map(s[1..], f);
      assert Map(r, f) == [f(r[0])] + Map(r[1..], f);
      if IsSubsequence(r, s[1..]) {
        MapSubsequence(r, s[1..], f);
      } else {
        MapSubsequence(r[1..], s[1..], f);
      }
    }
  }
}
