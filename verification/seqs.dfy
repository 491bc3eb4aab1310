/** Sequence vocabulary shared by the catalog queries and the page filters:
    order-preserving filtering (JavaScript's `Array.prototype.filter`), the
    subsequence relation that characterises it, prefixes (`slice(0, k)`) and
    duplicate-freedom. */
module Seqs {

  /** `a` can be obtained from `b` by deleting elements, keeping the order. */
  predicate Subseq<T(==)>(a: seq<T>, b: seq<T>)
    decreases |b|
  {
    |a| == 0 || (|b| > 0 && ((a[0] == b[0] && Subseq(a[1..], b[1..])) || Subseq(a, b[1..])))
  }

  /** No element occurs twice. */
  predicate NoDuplicates<T(==)>(s: seq<T>) {
    forall i, j | 0 <= i < j < |s| :: s[i] != s[j]
  }

  /** Every element of `s` satisfies `keep`. */
  predicate All<T>(s: seq<T>, keep: T -> bool) {
    forall i | 0 <= i < |s| :: keep(s[i])
  }

  /** The elements of `s` that satisfy `keep`, in their original order. */
  function Filter<T(==)>(s: seq<T>, keep: T -> bool): (r: seq<T>)
    ensures |r| <= |s|
    ensures Subseq(r, s)
    ensures All(r, keep)
    ensures forall x | x in s && keep(x) :: x in r
    ensures forall x | x in r :: x in s
  {
    if |s| == 0 then []
    else if keep(s[0]) then [s[0]] + Filter(s[1..], keep)
    else Filter(s[1..], keep)
  }

  /** The first `k` elements of `s`, or all of them when there are fewer
      (JavaScript's `slice(0, k)`). */
  function Take<T>(s: seq<T>, k: nat): (r: seq<T>)
    ensures |r| == if |s| < k then |s| else k
    ensures r <= s
  {
    if |s| <= k then s else s[..k]
  }

  /** Every element of `s` except those equal to `x`, in order. */
  function RemoveAll<T(==)>(s: seq<T>, x: T): (r: seq<T>)
    ensures x !in r
    ensures forall y | y in s && y != x :: y in r
    ensures forall y | y in r :: y in s
    ensures Subseq(r, s)
    ensures x !in s ==> r == s
    ensures multiset(r) == multiset(s)[x := 0]
  {
    if |s| == 0 then []
    else
      assert s == [s[0]] + s[1..];
      if s[0] == x then RemoveAll(s[1..], x)
      else [s[0]] + RemoveAll(s[1..], x)
  }

  lemma {:induction false} SubseqLength<T>(a: seq<T>, b: seq<T>)
    requires Subseq(a, b)
    ensures |a| <= |b|
    decreases |b|
  {
    if |a| > 0 {
      if a[0] == b[0] && Subseq(a[1..], b[1..]) {
        SubseqLength(a[1..], b[1..]);
      } else {
        SubseqLength(a, b[1..]);
      }
    }
  }

  /** Elements of a subsequence come from the original. */
  lemma {:induction false} SubseqMembers<T>(a: seq<T>, b: seq<T>)
    requires Subseq(a, b)
    ensures forall x | x in a :: x in b
    decreases |b|
  {
    if |a| > 0 {
      if a[0] == b[0] && Subseq(a[1..], b[1..]) {
        SubseqMembers(a[1..], b[1..]);
        forall x | x in a ensures x in b {
          if x != a[0] {
            assert x in a[1..];
          }
        }
      } else {
        SubseqMembers(a, b[1..]);
      }
    }
  }

  /** Dropping the head of `b` keeps `a` a subsequence once its own head is matched. */
  lemma SubseqCons<T>(x: T, a: seq<T>, b: seq<T>)
    requires Subseq(a, b)
    ensures Subseq(a, [x] + b)
  {
  }

  /** Filtering keeps the most it can: every subsequence of `s` whose elements
      all satisfy `keep` is a subsequence of `Filter(s, keep)`. */
  lemma {:induction false} FilterIsGreatest<T>(s: seq<T>, keep: T -> bool, t: seq<T>)
    requires Subseq(t, s) && All(t, keep)
    ensures Subseq(t, Filter(s, keep))
    decreases |s|
  {
    if |t| > 0 {
      var f := Filter(s[1..], keep);
      if t[0] == s[0] && Subseq(t[1..], s[1..]) {
        assert All(t[1..], keep);
        FilterIsGreatest(s[1..], keep, t[1..]);
        assert keep(s[0]);
        assert Filter(s, keep) == [s[0]] + f;
        assert ([s[0]] + f)[1..] == f;
      } else {
        FilterIsGreatest(s[1..], keep, t);
        if keep(s[0]) {
          SubseqCons(s[0], t, f);
        }
      }
    }
  }

  /** The conjunction of two tests. */
  function Both<T>(f: T -> bool, g: T -> bool): T -> bool {
    x => f(x) && g(x)
  }

  /** Filtering twice is filtering once by both tests. */
  lemma {:induction false} FilterTwice<T>(s: seq<T>, f: T -> bool, g: T -> bool)
    ensures Filter(Filter(s, f), g) == Filter(s, Both(f, g))
    decreases |s|
  {
    if |s| > 0 {
      FilterTwice(s[1..], f, g);
      if f(s[0]) {
        assert Filter(s, f)[0] == s[0];
        assert Filter(s, f)[1..] == Filter(s[1..], f);
      }
    }
  }

  /** Filtering with a predicate every element already satisfies changes nothing. */
  lemma {:induction false} FilterAllKept<T>(s: seq<T>, keep: T -> bool)
    requires All(s, keep)
    ensures Filter(s, keep) == s
    decreases |s|
  {
    if |s| > 0 {
      assert All(s[1..], keep);
      FilterAllKept(s[1..], keep);
      assert s == [s[0]] + s[1..];
    }
  }

  /** Filtering depends only on the values of the predicate. */
  lemma {:induction false} FilterCongruent<T>(s: seq<T>, f: T -> bool, g: T -> bool)
    requires forall x | x in s :: f(x) == g(x)
    ensures Filter(s, f) == Filter(s, g)
    decreases |s|
  {
    if |s| > 0 {
      assert forall x | x in s[1..] :: x in s;
      FilterCongruent(s[1..], f, g);
    }
  }

  /** Subsequences compose. */
  lemma {:induction false} SubseqTransitive<T>(a: seq<T>, b: seq<T>, c: seq<T>)
    requires Subseq(a, b) && Subseq(b, c)
    ensures Subseq(a, c)
    decreases |c|
  {
    if |a| > 0 {
      assert |b| > 0;
      if b[0] == c[0] && Subseq(b[1..], c[1..]) {
        if a[0] == b[0] && Subseq(a[1..], b[1..]) {
          SubseqTransitive(a[1..], b[1..], c[1..]);
        } else {
          SubseqTransitive(a, b[1..], c[1..]);
        }
      } else {
        SubseqTransitive(a, b, c[1..]);
      }
    }
  }

  /** A prefix is a subsequence. */
  lemma {:induction false} PrefixIsSubseq<T>(a: seq<T>, b: seq<T>)
    requires a <= b
    ensures Subseq(a, b)
    decreases |b|
  {
    if |a| > 0 {
      assert a[1..] <= b[1..];
      PrefixIsSubseq(a[1..], b[1..]);
    }
  }

  /** Subsequences of a duplicate-free sequence are duplicate-free. */
  lemma {:induction false} SubseqNoDuplicates<T>(a: seq<T>, b: seq<T>)
    requires Subseq(a, b) && NoDuplicates(b)
    ensures NoDuplicates(a)
    decreases |b|
  {
    if |a| > 0 {
      assert NoDuplicates(b[1..]);
      if a[0] == b[0] && Subseq(a[1..], b[1..]) {
        SubseqNoDuplicates(a[1..], b[1..]);
        SubseqMembers(a[1..], b[1..]);
        forall i, j | 0 <= i < j < |a| ensures a[i] != a[j] {
          if i == 0 {
            assert a[j] in a[1..];
            assert a[j] in b[1..];
          } else {
            assert a[i] == a[1..][i - 1] && a[j] == a[1..][j - 1];
          }
        }
      } else {
        SubseqNoDuplicates(a, b[1..]);
      }
    }
  }
}
