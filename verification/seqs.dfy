/**
 * Sequence operations shared by the listing pipelines: JavaScript's
 * `Array.prototype.filter`, order-preserving sub-selection, concatenation of
 * batches, and the lemmas the pipelines are proved with.
 */
module Seqs {

  /** `s.filter(p)`: the elements satisfying `p`, in their original order. */
  function Filter<T>(p: T -> bool, s: seq<T>): seq<T> {
    if s == [] then [] else (if p(s[0]) then [s[0]] else []) + Filter(p, s[1..])
  }

  /** The filtered sequence holds exactly the elements of `s` that satisfy `p`. */
  lemma {:induction false} FilterSpec<T>(p: T -> bool, s: seq<T>)
    ensures |Filter(p, s)| <= |s|
    ensures forall i :: 0 <= i < |Filter(p, s)| ==> Filter(p, s)[i] in s && p(Filter(p, s)[i])
    ensures forall i :: 0 <= i < |s| && p(s[i]) ==> s[i] in Filter(p, s)
  {
    if s != [] {
      FilterSpec(p, s[1..]);
      var head := if p(s[0]) then [s[0]] else [];
      assert Filter(p, s) == head + Filter(p, s[1..]);
      forall i | 0 <= i < |s| && p(s[i]) ensures s[i] in Filter(p, s) {
        if i > 0 {
          assert s[i] == s[1..][i - 1];
        }
      }
    }
  }

  /** Membership in the filtered sequence: exactly the members of `s` that satisfy `p`. */
  lemma FilterMembers<T>(p: T -> bool, s: seq<T>)
    ensures forall x :: x in Filter(p, s) <==> x in s && p(x)
  {
    FilterSpec(p, s);
    forall x | x in Filter(p, s) ensures x in s && p(x) {
      var i :| 0 <= i < |Filter(p, s)| && Filter(p, s)[i] == x;
    }
    forall x | x in s && p(x) ensures x in Filter(p, s) {
      var i :| 0 <= i < |s| && s[i] == x;
    }
  }

  lemma {:induction false} FilterAppend<T>(p: T -> bool, a: seq<T>, b: seq<T>)
    ensures Filter(p, a + b) == Filter(p, a) + Filter(p, b)
  {
    if a == [] {
      assert a + b == b;
    } else {
      var head := if p(a[0]) then [a[0]] else [];
      FilterAppend(p, a[1..], b);
      assert (a + b)[0] == a[0] && (a + b)[1..] == a[1..] + b;
      calc {
        Filter(p, a + b);
        head + Filter(p, a[1..] + b);
        head + (Filter(p, a[1..]) + Filter(p, b));
        (head + Filter(p, a[1..])) + Filter(p, b);
        Filter(p, a) + Filter(p, b);
      }
    }
  }

  /** Filtering with a predicate that holds everywhere changes nothing. */
  lemma {:induction false} FilterAll<T>(p: T -> bool, s: seq<T>)
    requires forall x :: x in s ==> p(x)
    ensures Filter(p, s) == s
  {
    if s != [] {
      FilterAll(p, s[1..]);
    }
  }

  /** Filtering by `p` and by its negation splits the sequence. */
  lemma {:induction false} FilterComplementLength<T>(p: T -> bool, q: T -> bool, s: seq<T>)
    requires forall x :: q(x) == !p(x)
    ensures |Filter(p, s)| + |Filter(q, s)| == |s|
  {
    if s != [] {
      FilterComplementLength(p, q, s[1..]);
    }
  }

  /** No element occurs twice. */
  ghost predicate NoDuplicates<T>(s: seq<T>) {
    forall a, b :: 0 <= a < b < |s| ==> s[a] != s[b]
  }

  /** `a` is `b` with some elements left out and the rest in the same order. */
  ghost predicate SubsequenceOf<T>(a: seq<T>, b: seq<T>)
    decreases |b|
  {
    if a == [] then true
    else if b == [] then false
    else (a[0] == b[0] && SubsequenceOf(a[1..], b[1..])) || SubsequenceOf(a, b[1..])
  }

  lemma {:induction false} SubsequenceRefl<T>(s: seq<T>)
    ensures SubsequenceOf(s, s)
  {
    if s != [] {
      SubsequenceRefl(s[1..]);
    }
  }

  lemma {:induction false} SubsequenceTrans<T>(a: seq<T>, b: seq<T>, c: seq<T>)
    requires SubsequenceOf(a, b) && SubsequenceOf(b, c)
    ensures SubsequenceOf(a, c)
    decreases |c|
  {
    if a != [] {
      if b[0] == c[0] && SubsequenceOf(b[1..], c[1..]) {
        if a[0] == b[0] && SubsequenceOf(a[1..], b[1..]) {
          SubsequenceTrans(a[1..], b[1..], c[1..]);
        } else {
          SubsequenceTrans(a, b[1..], c[1..]);
        }
      } else {
        SubsequenceTrans(a, b, c[1..]);
      }
    }
  }

  /** A subsequence has no more elements than the whole and only elements of it. */
  lemma {:induction false} SubsequenceMembers<T>(a: seq<T>, b: seq<T>)
    requires SubsequenceOf(a, b)
    ensures |a| <= |b|
    ensures forall x :: x in a ==> x in b
    decreases |b|
  {
    if a != [] {
      if a[0] == b[0] && SubsequenceOf(a[1..], b[1..]) {
        SubsequenceMembers(a[1..], b[1..]);
        assert a == [a[0]] + a[1..];
      } else {
        SubsequenceMembers(a, b[1..]);
      }
    }
  }

  /** Subsequences of two parts make a subsequence of the two wholes laid end to end. */
  lemma {:induction false} SubsequenceAppend<T>(a: seq<T>, b: seq<T>, c: seq<T>, d: seq<T>)
    requires SubsequenceOf(a, b) && SubsequenceOf(c, d)
    ensures SubsequenceOf(a + c, b + d)
    decreases |b|
  {
    if a == [] {
      SubsequenceExtendLeft(c, d, b);
      assert a + c == c;
    } else if a[0] == b[0] && SubsequenceOf(a[1..], b[1..]) {
      SubsequenceAppend(a[1..], b[1..], c, d);
      assert (a + c)[1..] == a[1..] + c;
      assert (b + d)[1..] == b[1..] + d;
    } else {
      SubsequenceAppend(a, b[1..], c, d);
      assert (b + d)[1..] == b[1..] + d;
    }
  }

  lemma {:induction false} SubsequenceExtendLeft<T>(c: seq<T>, d: seq<T>, p: seq<T>)
    requires SubsequenceOf(c, d)
    ensures SubsequenceOf(c, p + d)
    decreases |p|
  {
    if p == [] {
      assert p + d == d;
    } else {
      SubsequenceExtendLeft(c, d, p[1..]);
      assert (p + d)[1..] == p[1..] + d;
    }
  }

  /** `filter` never reorders: its result is a subsequence of its input. */
  lemma {:induction false} FilterIsSubsequence<T>(p: T -> bool, s: seq<T>)
    ensures SubsequenceOf(Filter(p, s), s)
  {
    if s != [] {
      FilterIsSubsequence(p, s[1..]);
      if p(s[0]) {
        assert Filter(p, s)[1..] == Filter(p, s[1..]);
      } else {
        assert Filter(p, s) == [] + Filter(p, s[1..]) == Filter(p, s[1..]);
      }
    }
  }

  /** `s.slice(0, k)` keeps a prefix, which is a subsequence. */
  lemma {:induction false} PrefixIsSubsequence<T>(s: seq<T>, k: nat)
    requires k <= |s|
    ensures SubsequenceOf(s[..k], s)
  {
    if k > 0 {
      PrefixIsSubsequence(s[1..], k - 1);
      assert s[..k][1..] == s[1..][..k - 1];
    }
  }

  /** All batches laid end to end. */
  function Flatten<T>(ss: seq<seq<T>>): seq<T> {
    if ss == [] then [] else Flatten(ss[..|ss| - 1]) + ss[|ss| - 1]
  }

  lemma FlattenAppendOne<T>(ss: seq<seq<T>>, s: seq<T>)
    ensures Flatten(ss + [s]) == Flatten(ss) + s
  {
    assert (ss + [s])[..|ss|] == ss;
  }

  /** Number of elements of `s` satisfying `p`. */
  function Count<T>(p: T -> bool, s: seq<T>): nat {
    |Filter(p, s)|
  }
}
