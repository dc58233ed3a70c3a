/** Order-preserving filtering, the shape of every `stream().filter(..)` and
    `WHERE` query in the program. */
module Seqs {

  /** `a` is obtained from `b` by deleting elements, keeping the order of the
      rest (greedy matching is complete for this). */
  predicate IsSubseq<T(==)>(a: seq<T>, b: seq<T>)
    decreases |b|
  {
    if a == [] then true
    else if b == [] then false
    else if a[0] == b[0] then IsSubseq(a[1..], b[1..])
    else IsSubseq(a, b[1..])
  }

  function Filter<T(==)>(s: seq<T>, p: T -> bool): (r: seq<T>)
    ensures |r| <= |s|
    ensures forall i :: 0 <= i < |r| ==> r[i] in s && p(r[i])
    ensures forall i :: 0 <= i < |s| && p(s[i]) ==> s[i] in r
    ensures IsSubseq(r, s)
  {
    if s == [] then []
    else
      var rest := Filter(s[1..], p);
      if p(s[0]) then
        assert ([s[0]] + rest)[1..] == rest;
        [s[0]] + rest
      else
        assert s == [s[0]] + s[1..];
        rest
  }

  function Not<T>(p: T -> bool): T -> bool {
    x => !p(x)
  }

  /** Filtering by `p` and by its negation splits `s` into two parts that
      together hold every element exactly as often as `s` does. */
  lemma {:induction false} FilterPartition<T>(s: seq<T>, p: T -> bool)
    ensures multiset(Filter(s, p)) + multiset(Filter(s, Not(p))) == multiset(s)
    ensures |Filter(s, p)| + |Filter(s, Not(p))| == |s|
  {
    if s != [] {
      FilterPartition(s[1..], p);
      assert s == [s[0]] + s[1..];
    }
  }

  /** A filter on a predicate that all elements satisfy keeps everything. */
  lemma {:induction false} FilterAll<T>(s: seq<T>, p: T -> bool)
    requires forall i :: 0 <= i < |s| ==> p(s[i])
    ensures Filter(s, p) == s
  {
    if s != [] {
      FilterAll(s[1..], p);
    }
  }

  /** Filtering distributes over concatenation. */
  lemma {:induction false} FilterAppend<T>(a: seq<T>, b: seq<T>, p: T -> bool)
    ensures Filter(a + b, p) == Filter(a, p) + Filter(b, p)
  {
    if a == [] {
      assert a + b == b;
    } else {
      assert (a + b)[1..] == a[1..] + b;
      FilterAppend(a[1..], b, p);
    }
  }

  /** Every element of a subsequence occurs in the whole. */
  lemma {:induction false} SubseqElem<T>(a: seq<T>, b: seq<T>, i: nat)
    requires IsSubseq(a, b) && i < |a|
    ensures exists j :: 0 <= j < |b| && b[j] == a[i]
  {
    if a[0] == b[0] {
      if i > 0 {
        SubseqElem(a[1..], b[1..], i - 1);
        var j :| 0 <= j < |b[1..]| && b[1..][j] == a[1..][i - 1];
        assert b[j + 1] == a[i];
      }
    } else {
      SubseqElem(a, b[1..], i);
      var j :| 0 <= j < |b[1..]| && b[1..][j] == a[i];
      assert b[j + 1] == a[i];
    }
  }

  /** Two ordered positions of a subsequence come from two ordered positions
      of the whole. */
  lemma {:induction false} SubseqPair<T>(a: seq<T>, b: seq<T>, i: nat, j: nat)
    requires IsSubseq(a, b) && i < j < |a|
    ensures exists i', j' :: 0 <= i' < j' < |b| && b[i'] == a[i] && b[j'] == a[j]
  {
    if a[0] == b[0] {
      if i == 0 {
        SubseqElem(a[1..], b[1..], j - 1);
        var j' :| 0 <= j' < |b[1..]| && b[1..][j'] == a[1..][j - 1];
        assert b[0] == a[i] && b[j' + 1] == a[j];
      } else {
        SubseqPair(a[1..], b[1..], i - 1, j - 1);
        var i', j' :| 0 <= i' < j' < |b[1..]| && b[1..][i'] == a[1..][i - 1] && b[1..][j'] == a[1..][j - 1];
        assert b[i' + 1] == a[i] && b[j' + 1] == a[j];
      }
    } else {
      SubseqPair(a, b[1..], i, j);
      var i', j' :| 0 <= i' < j' < |b[1..]| && b[1..][i'] == a[i] && b[1..][j'] == a[j];
      assert b[i' + 1] == a[i] && b[j' + 1] == a[j];
    }
  }

  /** The first element a filter keeps is the first element of `s` that
      satisfies `p`. */
  lemma {:induction false} FilterHead<T>(s: seq<T>, p: T -> bool)
    requires Filter(s, p) != []
    ensures exists i ::
      0 <= i < |s| && s[i] == Filter(s, p)[0] && p(s[i]) && forall j :: 0 <= j < i ==> !p(s[j])
  {
    if !p(s[0]) {
      FilterHead(s[1..], p);
      var i :| 0 <= i < |s[1..]| && s[1..][i] == Filter(s[1..], p)[0] && p(s[1..][i])
        && forall j :: 0 <= j < i ==> !p(s[1..][j]);
      assert s[i + 1] == Filter(s, p)[0];
      forall j | 0 <= j < i + 1 ensures !p(s[j]) {
        if j > 0 {
          assert s[j] == s[1..][j - 1];
        }
      }
    }
  }
}
