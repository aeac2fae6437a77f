/** In-order subsequences. */
module Subsequence {
  /** `a` is obtained from `b` by deleting elements. */
  predicate Subseq<T(==)>(a: seq<T>, b: seq<T>)
    decreases |b|
  {
    || a == []
    || (&& b != []
        && (|| Subseq(a, b[..|b| - 1])
            || (a[|a| - 1] == b[|b| - 1] && Subseq(a[..|a| - 1], b[..|b| - 1]))))
  }

  lemma SubseqSkip<T>(a: seq<T>, b: seq<T>, x: T)
    requires Subseq(a, b)
    ensures Subseq(a, b + [x])
  {
  }

  lemma SubseqKeep<T>(a: seq<T>, b: seq<T>, x: T)
    requires Subseq(a, b)
    ensures Subseq(a + [x], b + [x])
  {
  }

  lemma {:induction false} SubseqTransitive<T>(a: seq<T>, b: seq<T>, c: seq<T>)
    requires Subseq(a, b) && Subseq(b, c)
    ensures Subseq(a, c)
    decreases |b| + |c|
  {
    if a != [] && b != [] {
      var c', b', a' := c[..|c| - 1], b[..|b| - 1], a[..|a| - 1];
      if Subseq(b, c') {
        SubseqTransitive(a, b, c');
      } else if Subseq(a, b') {
        SubseqTransitive(a, b', c');
      } else {
        SubseqTransitive(a', b', c');
      }
    }
  }

  lemma {:induction false} SubseqOfPrefix<T>(a: seq<T>, b: seq<T>, c: seq<T>)
    requires Subseq(a, b) && b <= c
    ensures Subseq(a, c)
    decreases |c|
  {
    if |b| < |c| {
      SubseqOfPrefix(a, b, c[..|c| - 1]);
    } else {
      assert b == c;
    }
  }

  lemma {:induction false} SubseqAppend<T>(a: seq<T>, b: seq<T>, c: seq<T>, d: seq<T>)
    requires Subseq(a, b) && Subseq(c, d)
    ensures Subseq(a + c, b + d)
    decreases |d|
  {
    if c == [] {
      assert a + c == a;
      SubseqOfPrefix(a, b, b + d);
    } else {
      var d', z := d[..|d| - 1], d[|d| - 1];
      assert b + d == b + d' + [z];
      if Subseq(c, d') {
        SubseqAppend(a, b, c, d');
        SubseqSkip(a + c, b + d', z);
      } else {
        SubseqAppend(a, b, c[..|c| - 1], d');
        SubseqKeep(a + c[..|c| - 1], b + d', z);
        assert a + c == a + c[..|c| - 1] + [z];
      }
    }
  }

  lemma {:induction false} SubseqMember<T>(a: seq<T>, b: seq<T>, x: T)
    requires Subseq(a, b) && x in a
    ensures x in b
    decreases |b|
  {
    if b != [] {
      var b' := b[..|b| - 1];
      if Subseq(a, b') {
        SubseqMember(a, b', x);
      } else {
        assert a == a[..|a| - 1] + [a[|a| - 1]];
        if x in a[..|a| - 1] {
          SubseqMember(a[..|a| - 1], b', x);
        }
      }
    }
  }

  /** What goes with the elements of a subsequence, when `c` goes with `b`; `at` says where they stand. */
  lemma {:induction false} Pick<T, U>(a: seq<T>, b: seq<T>, c: seq<U>) returns (got: seq<U>, at: seq<nat>)
    requires Subseq(a, b) && |c| == |b|
    ensures Subseq(got, c) && |got| == |at| == |a|
    ensures forall i | 0 <= i < |a| :: at[i] < |b| && a[i] == b[at[i]] && got[i] == c[at[i]]
    decreases |b|
  {
    if a == [] {
      got, at := [], [];
    } else {
      var n := |b| - 1;
      assert c == c[..n] + [c[n]];
      if Subseq(a, b[..n]) {
        got, at := Pick(a, b[..n], c[..n]);
        SubseqSkip(got, c[..n], c[n]);
      } else {
        var init, before := Pick(a[..|a| - 1], b[..n], c[..n]);
        got, at := init + [c[n]], before + [n];
        SubseqKeep(init, c[..n], c[n]);
      }
    }
  }
}
