/** Order-preserving filtering of sequences: what `Array.prototype.filter`
    does to the catalog and what a global `replace` that deletes every
    character outside a class does to a string. */
module Seqs {

  /** `a` is obtained from `b` by deleting elements and keeping the rest in
      their original order. */
  predicate IsSubsequence<T(==,!new)>(a: seq<T>, b: seq<T>)
    decreases |b|
  {
    if a == [] then true
    else if b == [] then false
    else if a[0] == b[0] then IsSubsequence(a[1..], b[1..])
    else IsSubsequence(a, b[1..])
  }

  /** The elements of `s` that satisfy `keep`, in their original order. The
      contract determines the result completely (see `FilterUnique`). */
  function Filter<T(==,!new)>(s: seq<T>, keep: T -> bool): (r: seq<T>)
    ensures forall i | 0 <= i < |r| :: keep(r[i])
    ensures forall x :: multiset(r)[x] == if keep(x) then multiset(s)[x] else 0
    ensures IsSubsequence(r, s)
  {
    if s == [] then []
    else
      assert s == [s[0]] + s[1..];
      if keep(s[0]) then [s[0]] + Filter(s[1..], keep)
      else Filter(s[1..], keep)
  }

  /** Every element of a subsequence is counted at most as often as in the
      sequence it was taken from. */
  lemma {:induction false} SubsequenceMultiset<T(!new)>(a: seq<T>, b: seq<T>)
    requires IsSubsequence(a, b)
    ensures multiset(a) <= multiset(b)
    decreases |b|
  {
    if a == [] {
    } else {
      assert b == [b[0]] + b[1..];
      if a[0] == b[0] {
        assert a == [a[0]] + a[1..];
        SubsequenceMultiset(a[1..], b[1..]);
      } else {
        SubsequenceMultiset(a, b[1..]);
      }
    }
  }

  /** Any subsequence of `s` that keeps exactly the elements `keep` accepts,
      each as often as `s` holds it, is `Filter(s, keep)`. */
  lemma {:induction false} FilterUnique<T(!new)>(r: seq<T>, s: seq<T>, keep: T -> bool)
    requires IsSubsequence(r, s)
    requires forall i | 0 <= i < |r| :: keep(r[i])
    requires forall x :: multiset(r)[x] == if keep(x) then multiset(s)[x] else 0
    ensures r == Filter(s, keep)
    decreases |s|
  {
    if s == [] {
    } else {
      var h := s[0];
      assert s == [h] + s[1..];
      if r == [] {
        assert multiset(s)[h] > 0;
        assert !keep(h);
        assert forall x :: multiset(r)[x] == if keep(x) then multiset(s[1..])[x] else 0 by {
          forall x ensures multiset(r)[x] == if keep(x) then multiset(s[1..])[x] else 0 {
            if keep(x) {
              assert x != h;
            }
          }
        }
        FilterUnique(r, s[1..], keep);
      } else if r[0] == h {
        assert r == [h] + r[1..];
        assert keep(h);
        forall i | 0 <= i < |r[1..]| ensures keep(r[1..][i]) {
          assert r[1..][i] == r[i + 1];
        }
        FilterUnique(r[1..], s[1..], keep);
      } else {
        SubsequenceMultiset(r, s[1..]);
        assert multiset(s)[h] == multiset(s[1..])[h] + 1;
        assert !keep(h);
        assert forall x :: multiset(r)[x] == if keep(x) then multiset(s[1..])[x] else 0 by {
          forall x ensures multiset(r)[x] == if keep(x) then multiset(s[1..])[x] else 0 {
            if keep(x) {
              assert x != h;
            }
          }
        }
        FilterUnique(r, s[1..], keep);
      }
    }
  }

  /** Filtering a sequence all of whose elements are kept changes nothing. */
  lemma {:induction false} FilterKeepsAll<T(!new)>(s: seq<T>, keep: T -> bool)
    requires forall i | 0 <= i < |s| :: keep(s[i])
    ensures Filter(s, keep) == s
  {
    if s != [] {
      FilterKeepsAll(s[1..], keep);
    }
  }

  /** Filtering twice with the same test is filtering once. */
  lemma FilterIdempotent<T(!new)>(s: seq<T>, keep: T -> bool)
    ensures Filter(Filter(s, keep), keep) == Filter(s, keep)
  {
    FilterKeepsAll(Filter(s, keep), keep);
  }

  /** The filter is empty exactly when no element is kept. */
  lemma FilterEmpty<T(!new)>(s: seq<T>, keep: T -> bool)
    ensures Filter(s, keep) == [] <==> forall i | 0 <= i < |s| :: !keep(s[i])
  {
  }
}
