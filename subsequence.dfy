/** Subsequences: what is left of a text once some of its characters are deleted. The extraction
    passes only ever delete matched stretches from the text they scan, and this is the relation
    that survives all of them. */
module Subsequence {

  /** `a` is what remains of `b` after deleting some of its elements. */
  predicate Subseq<T(==)>(a: seq<T>, b: seq<T>)
    decreases |b|
  {
    if a == [] then true
    else if b == [] then false
    else (a[0] == b[0] && Subseq(a[1..], b[1..])) || Subseq(a, b[1..])
  }

  lemma {:induction false} SubseqRefl<T>(a: seq<T>)
    ensures Subseq(a, a)
    decreases |a|
  {
    if a != [] {
      SubseqRefl(a[1..]);
    }
  }

  lemma {:induction false} SubseqEmpty<T>(b: seq<T>)
    ensures Subseq([], b)
  {
  }

  lemma {:induction false} SubseqLength<T>(a: seq<T>, b: seq<T>)
    requires Subseq(a, b)
    ensures |a| <= |b|
    decreases |b|
  {
    if a != [] {
      if a[0] == b[0] && Subseq(a[1..], b[1..]) {
        SubseqLength(a[1..], b[1..]);
      } else {
        SubseqLength(a, b[1..]);
      }
    }
  }

  /** Deleting from what was already deleted from is deleting. */
  lemma {:induction false} SubseqTrans<T>(a: seq<T>, b: seq<T>, c: seq<T>)
    requires Subseq(a, b) && Subseq(b, c)
    ensures Subseq(a, c)
    decreases |c|
  {
    if a != [] {
      assert b != [] && c != [];
      if b[0] == c[0] && Subseq(b[1..], c[1..]) {
        if a[0] == b[0] && Subseq(a[1..], b[1..]) {
          SubseqTrans(a[1..], b[1..], c[1..]);
        } else {
          SubseqTrans(a, b[1..], c[1..]);
        }
      } else {
        SubseqTrans(a, b, c[1..]);
      }
    }
  }

  /** Dropping more of `b` on the front keeps `a` a subsequence of `b` with a prefix added. */
  lemma {:induction false} SubseqPrefix<T>(a: seq<T>, p: seq<T>, b: seq<T>)
    requires Subseq(a, b)
    ensures Subseq(a, p + b)
    decreases |p|
  {
    if p == [] {
      assert p + b == b;
    } else {
      SubseqPrefix(a, p[1..], b);
      assert (p + b)[1..] == p[1..] + b;
      if a != [] {
        assert p + b != [];
        assert Subseq(a, (p + b)[1..]);
      }
    }
  }

  /** Deletions in two texts make a deletion in their concatenation. */
  lemma {:induction false} SubseqAppend<T>(a: seq<T>, b: seq<T>, c: seq<T>, d: seq<T>)
    requires Subseq(a, b) && Subseq(c, d)
    ensures Subseq(a + c, b + d)
    decreases |b|
  {
    if a == [] {
      assert a + c == c;
      SubseqPrefix(c, b, d);
    } else {
      assert b != [];
      assert (b + d)[1..] == b[1..] + d;
      assert (a + c)[0] == a[0] && (b + d)[0] == b[0];
      if a[0] == b[0] && Subseq(a[1..], b[1..]) {
        SubseqAppend(a[1..], b[1..], c, d);
        assert (a + c)[1..] == a[1..] + c;
      } else {
        SubseqAppend(a, b[1..], c, d);
      }
    }
  }

  /** Any stretch of a text is a subsequence of it. */
  lemma SubseqSlice<T>(b: seq<T>, i: nat, j: nat)
    requires i <= j <= |b|
    ensures Subseq(b[i..j], b)
  {
    var head, mid, tail := b[..i], b[i..j], b[j..];
    SubseqSuffix(mid, tail);
    SubseqPrefix(mid, head, mid + tail);
    assert head + (mid + tail) == b;
  }

  /** Anything added at the back can be deleted again. */
  lemma {:induction false} SubseqSuffix<T>(a: seq<T>, t: seq<T>)
    ensures Subseq(a, a + t)
    decreases |a|
  {
    if a != [] {
      SubseqSuffix(a[1..], t);
      assert (a + t)[1..] == a[1..] + t;
    }
  }
}
