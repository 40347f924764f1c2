/** Generic facts about sequences used across the model: Python prefix slicing,
    order-preserving subsequences and distinctness. */
module Seqs {
  import opened Wrappers

  /** Python's `s[:n]`, including the negative `n` that counts from the end. */
  function PyPrefix<T>(s: seq<T>, n: int): (r: seq<T>)
    ensures 0 <= n ==> |r| == Min(n, |s|)
    ensures n < 0 ==> |r| == Max(0, |s| + n)
    ensures r == s[..|r|]
  {
    if 0 <= n then (if n <= |s| then s[..n] else s)
    else if 0 <= |s| + n then s[..|s| + n]
    else []
  }

  /** `a` is obtained from `b` by deleting elements, keeping the order of the rest. */
  predicate IsSubseq<T(==)>(a: seq<T>, b: seq<T>)
    decreases |b|
  {
    if a == [] then true
    else if b == [] then false
    else if a[0] == b[0] then IsSubseq(a[1..], b[1..])
    else IsSubseq(a, b[1..])
  }

  /** No element occurs twice. */
  predicate Distinct<T(==)>(s: seq<T>) {
    forall i, j :: 0 <= i < j < |s| ==> s[i] != s[j]
  }

  lemma {:induction false} SubseqMembers<T>(a: seq<T>, b: seq<T>)
    requires IsSubseq(a, b)
    ensures |a| <= |b|
    ensures forall x :: x in a ==> x in b
    decreases |b|
  {
    if a != [] {
      if a[0] == b[0] {
        SubseqMembers(a[1..], b[1..]);
        forall x | x in a ensures x in b {
          if x != a[0] { assert x in a[1..]; }
        }
      } else {
        SubseqMembers(a, b[1..]);
      }
    }
  }

  lemma {:induction false} SubseqRefl<T>(a: seq<T>)
    ensures IsSubseq(a, a)
    decreases |a|
  {
    if a != [] { SubseqRefl(a[1..]); }
  }

  /** Skipping one leading element of `b` keeps the relation. */
  lemma {:induction false} SubseqSkip<T>(x: T, a: seq<T>, b: seq<T>)
    requires IsSubseq(a, b)
    ensures IsSubseq(a, [x] + b)
    decreases |b|, 1
  {
    if a != [] && a[0] == x {
      SubseqMembers(a, b);
      assert ([x] + b)[1..] == b;
      SubseqDropHead(a, b);
    } else if a != [] {
      assert ([x] + b)[1..] == b;
    }
  }

  /** If `a` embeds into `b`, so does `a` without its first element. */
  lemma {:induction false} SubseqDropHead<T>(a: seq<T>, b: seq<T>)
    requires a != [] && IsSubseq(a, b)
    ensures IsSubseq(a[1..], b)
    decreases |b|, 0
  {
    if a[0] == b[0] {
      if a[1..] != [] {
        SubseqSkip(b[0], a[1..], b[1..]);
        assert [b[0]] + b[1..] == b;
      }
    } else {
      SubseqDropHead(a, b[1..]);
      if a[1..] != [] {
        SubseqSkip(b[0], a[1..], b[1..]);
        assert [b[0]] + b[1..] == b;
      }
    }
  }

  /** A prefix is a subsequence. */
  lemma {:induction false} PrefixIsSubseq<T>(s: seq<T>, n: nat)
    requires n <= |s|
    ensures IsSubseq(s[..n], s)
    decreases n
  {
    if n > 0 {
      PrefixIsSubseq(s[1..], n - 1);
      assert s[..n][1..] == s[1..][..n - 1];
    }
  }

  lemma {:induction false} SubseqTrans<T>(a: seq<T>, b: seq<T>, c: seq<T>)
    requires IsSubseq(a, b) && IsSubseq(b, c)
    ensures IsSubseq(a, c)
    decreases |c|
  {
    if a != [] {
      SubseqMembers(a, b);
      SubseqMembers(b, c);
      if b[0] == c[0] {
        if a[0] == b[0] {
          SubseqTrans(a[1..], b[1..], c[1..]);
        } else {
          SubseqTrans(a, b[1..], c[1..]);
        }
      } else {
        SubseqTrans(a, b, c[1..]);
        if a[0] == c[0] { SubseqDropHead(a, c[1..]); }
      }
    }
  }

  /** A subsequence of a sequence without repetitions has none either. */
  lemma {:induction false} SubseqDistinct<T>(a: seq<T>, b: seq<T>)
    requires IsSubseq(a, b) && Distinct(b)
    ensures Distinct(a)
    decreases |b|
  {
    if a != [] {
      if a[0] == b[0] {
        assert Distinct(b[1..]) by {
          forall i, j | 0 <= i < j < |b| - 1 ensures b[1..][i] != b[1..][j] {
            assert b[1..][i] == b[i + 1] && b[1..][j] == b[j + 1];
          }
        }
        SubseqDistinct(a[1..], b[1..]);
        SubseqMembers(a[1..], b[1..]);
        forall i, j | 0 <= i < j < |a| ensures a[i] != a[j] {
          if i == 0 {
            assert a[j] == a[1..][j - 1];
            assert a[j] in b[1..];
            var k :| 0 <= k < |b[1..]| && b[1..][k] == a[j];
            assert b[k + 1] == a[j];
          } else {
            assert a[i] == a[1..][i - 1] && a[j] == a[1..][j - 1];
          }
        }
      } else {
        assert Distinct(b[1..]) by {
          forall i, j | 0 <= i < j < |b| - 1 ensures b[1..][i] != b[1..][j] {
            assert b[1..][i] == b[i + 1] && b[1..][j] == b[j + 1];
          }
        }
        SubseqDistinct(a, b[1..]);
      }
    }
  }

  /** Appending one element to `b` keeps `a` a subsequence, and lets `a` grow by the same element. */
  lemma {:induction false} SubseqSnoc<T>(a: seq<T>, b: seq<T>, x: T)
    requires IsSubseq(a, b)
    ensures IsSubseq(a, b + [x])
    ensures IsSubseq(a + [x], b + [x])
    decreases |b|
  {
    if b == [] {
      assert a == [];
      assert a + [x] == [x] == b + [x];
      SubseqRefl([x]);
    } else {
      assert (b + [x])[0] == b[0];
      assert (b + [x])[1..] == b[1..] + [x];
      if a == [] {
        if b[0] != x {
          SubseqSnoc(a, b[1..], x);
        }
        assert a + [x] == [x];
      } else {
        assert (a + [x])[0] == a[0];
        assert (a + [x])[1..] == a[1..] + [x];
        if a[0] == b[0] {
          SubseqSnoc(a[1..], b[1..], x);
        } else {
          SubseqSnoc(a, b[1..], x);
        }
      }
    }
  }

  /** Every pair of elements, taken in order, is related by `R`. */
  ghost predicate Pairwise<T>(s: seq<T>, R: (T, T) -> bool) {
    forall i, j :: 0 <= i < j < |s| ==> R(s[i], s[j])
  }

  /** A relation that holds between all ordered pairs of `b` holds between those of a subsequence. */
  lemma {:induction false} SubseqPairwise<T>(a: seq<T>, b: seq<T>, R: (T, T) -> bool)
    requires IsSubseq(a, b) && Pairwise(b, R)
    ensures Pairwise(a, R)
    decreases |b|
  {
    if a != [] {
      assert Pairwise(b[1..], R) by {
        forall i, j | 0 <= i < j < |b| - 1 ensures R(b[1..][i], b[1..][j]) {
          assert b[1..][i] == b[i + 1] && b[1..][j] == b[j + 1];
        }
      }
      if a[0] == b[0] {
        SubseqPairwise(a[1..], b[1..], R);
        SubseqMembers(a[1..], b[1..]);
        forall i, j | 0 <= i < j < |a| ensures R(a[i], a[j]) {
          if i == 0 {
            assert a[j] == a[1..][j - 1];
            assert a[j] in b[1..];
            var k :| 0 <= k < |b[1..]| && b[1..][k] == a[j];
            assert b[k + 1] == a[j];
          } else {
            assert a[i] == a[1..][i - 1] && a[j] == a[1..][j - 1];
          }
        }
      } else {
        SubseqPairwise(a, b[1..], R);
      }
    }
  }

  /** Two sequences without repetitions and without common elements concatenate
      to one without repetitions. */
  lemma DistinctConcat<T>(a: seq<T>, b: seq<T>)
    requires Distinct(a) && Distinct(b)
    requires forall x :: x in a ==> x !in b
    ensures Distinct(a + b)
  {
    var s := a + b;
    forall i, j | 0 <= i < j < |s| ensures s[i] != s[j] {
      if j < |a| {
        assert s[i] == a[i] && s[j] == a[j];
      } else if i >= |a| {
        assert s[i] == b[i - |a|] && s[j] == b[j - |a|];
      } else {
        assert s[i] == a[i] && s[j] == b[j - |a|];
        assert a[i] in a;
      }
    }
  }

  lemma DistinctPrefix<T>(s: seq<T>, n: nat)
    requires Distinct(s) && n <= |s|
    ensures Distinct(s[..n])
  {
    forall i, j | 0 <= i < j < n ensures s[..n][i] != s[..n][j] {
      assert s[..n][i] == s[i] && s[..n][j] == s[j];
    }
  }
}
