/** Generic facts about sequences: the "obtained by deleting elements"
    (subsequence) relation, and strictly increasing sequences of naturals. */
module Seqs {

  /** `a` can be obtained from `b` by deleting elements (greedy matching). */
  predicate IsSubseq<T(==)>(a: seq<T>, b: seq<T>)
    decreases |b|
  {
    if |a| == 0 then true
    else if |b| == 0 then false
    else if a[0] == b[0] then IsSubseq(a[1..], b[1..])
    else IsSubseq(a, b[1..])
  }

  /** A subsequence is no longer than the sequence and has no new elements. */
  lemma {:induction false} SubseqBounds<T>(a: seq<T>, b: seq<T>)
    requires IsSubseq(a, b)
    ensures |a| <= |b|
    ensures forall x :: x in a ==> x in b
    decreases |b|
  {
    if |a| == 0 {
    } else if a[0] == b[0] {
      SubseqBounds(a[1..], b[1..]);
      assert forall x :: x in a ==> x == a[0] || x in a[1..];
    } else {
      SubseqBounds(a, b[1..]);
    }
  }

  /** A non-empty sequence is its front followed by its last element. */
  lemma FrontLast<T>(s: seq<T>)
    requires |s| > 0
    ensures s == s[..|s| - 1] + [s[|s| - 1]]
  {
  }

  /** Every sequence is a subsequence of itself. */
  lemma {:induction false} SubseqRefl<T>(a: seq<T>)
    ensures IsSubseq(a, a)
    decreases |a|
  {
    if |a| > 0 {
      SubseqRefl(a[1..]);
    }
  }

  /** Putting an element in front of the larger sequence keeps the relation. */
  lemma {:induction false} SubseqCons<T>(x: T, a: seq<T>, b: seq<T>)
    requires IsSubseq(a, b)
    ensures IsSubseq(a, [x] + b)
    decreases |b|, 1
  {
    var c := [x] + b;
    assert c[1..] == b;
    if |a| > 0 && a[0] == x {
      SubseqTail(a, b);
    }
  }

  /** Dropping the first element of the smaller sequence keeps the relation. */
  lemma {:induction false} SubseqTail<T>(a: seq<T>, b: seq<T>)
    requires |a| > 0 && IsSubseq(a, b)
    ensures IsSubseq(a[1..], b)
    decreases |b|, 0
  {
    if a[0] == b[0] {
      SubseqCons(b[0], a[1..], b[1..]);
    } else {
      SubseqTail(a, b[1..]);
      SubseqCons(b[0], a[1..], b[1..]);
    }
    assert [b[0]] + b[1..] == b;
  }

  /** The relation is transitive. */
  lemma {:induction false} SubseqTrans<T>(a: seq<T>, b: seq<T>, c: seq<T>)
    requires IsSubseq(a, b) && IsSubseq(b, c)
    ensures IsSubseq(a, c)
    decreases |c|
  {
    if |a| == 0 {
    } else if b[0] == c[0] {
      if a[0] == b[0] {
        SubseqTrans(a[1..], b[1..], c[1..]);
      } else {
        SubseqTrans(a, b[1..], c[1..]);
        SubseqCons(c[0], a, c[1..]);
        assert [c[0]] + c[1..] == c;
      }
    } else {
      SubseqTrans(a, b, c[1..]);
      SubseqCons(c[0], a, c[1..]);
      assert [c[0]] + c[1..] == c;
    }
  }

  /** A subsequence of a suffix is a subsequence of the whole. */
  lemma {:induction false} SubseqOfSuffix<T>(a: seq<T>, b: seq<T>, k: nat)
    requires k <= |b| && IsSubseq(a, b[k..])
    ensures IsSubseq(a, b)
    decreases k
  {
    if k > 0 {
      SubseqCons(b[k-1], a, b[k..]);
      assert [b[k-1]] + b[k..] == b[k-1..];
      SubseqOfSuffix(a, b, k - 1);
    }
  }

  /** Equal heads extend the relation. */
  lemma SubseqBothCons<T>(x: T, a: seq<T>, b: seq<T>)
    requires IsSubseq(a, b)
    ensures IsSubseq([x] + a, [x] + b)
  {
    assert ([x] + a)[1..] == a;
    assert ([x] + b)[1..] == b;
  }

  /** A prefix is a subsequence. */
  lemma {:induction false} SubseqPrefix<T>(s: seq<T>, j: nat)
    requires j <= |s|
    ensures IsSubseq(s[..j], s)
    decreases |s|
  {
    if j > 0 {
      SubseqPrefix(s[1..], j - 1);
      assert s[..j][1..] == s[1..][..j-1];
    }
  }

  /** A contiguous slice is a subsequence. */
  lemma SubseqSlice<T>(s: seq<T>, i: nat, j: nat)
    requires i <= j <= |s|
    ensures IsSubseq(s[i..j], s)
  {
    SubseqPrefix(s[i..], j - i);
    assert s[i..][..j-i] == s[i..j];
    SubseqOfSuffix(s[i..j], s, i);
  }

  /** The elements of `s` are strictly increasing. */
  predicate StrictlyIncreasing(s: seq<nat>) {
    forall i, j :: 0 <= i < j < |s| ==> s[i] < s[j]
  }

  /** Putting an element smaller than all others in front keeps the order. */
  lemma IncreasingCons(x: nat, s: seq<nat>)
    requires StrictlyIncreasing(s) && forall i :: i in s ==> x < i
    ensures StrictlyIncreasing([x] + s)
  {
    var t := [x] + s;
    forall i, j | 0 <= i < j < |t| ensures t[i] < t[j] {
      assert t[j] == s[j - 1] && s[j - 1] in s;
      if i > 0 {
        assert t[i] == s[i - 1];
      }
    }
  }

  /** The tail of a strictly increasing sequence is strictly increasing and
      above the head. */
  lemma IncreasingTail(s: seq<nat>)
    requires StrictlyIncreasing(s) && |s| > 0
    ensures StrictlyIncreasing(s[1..])
    ensures forall i :: i in s[1..] ==> s[0] < i
  {
    forall i | i in s[1..] ensures s[0] < i {
      var k :| 0 <= k < |s[1..]| && s[1..][k] == i;
      assert s[k + 1] == i;
    }
  }

  /** The head of a strictly increasing sequence is its least element, and
      the tail holds exactly the other elements. */
  lemma IncreasingHead(a: seq<nat>)
    requires StrictlyIncreasing(a) && |a| > 0
    ensures forall x :: x in a ==> a[0] <= x
    ensures forall x :: x in a[1..] <==> x in a && x != a[0]
  {
    forall x | x in a ensures a[0] <= x {
      var i :| 0 <= i < |a| && a[i] == x;
    }
    forall x | x in a && x != a[0] ensures x in a[1..] {
      var i :| 0 <= i < |a| && a[i] == x;
      assert a[1..][i - 1] == x;
    }
  }

  /** A strictly increasing sequence is determined by its set of elements:
      this is why a sorted list of a set (`sorted(list(S))`) is described
      exactly by "strictly increasing with element set S". */
  lemma {:induction false} IncreasingUnique(a: seq<nat>, b: seq<nat>)
    requires StrictlyIncreasing(a) && StrictlyIncreasing(b)
    requires forall x :: x in a <==> x in b
    ensures a == b
    decreases |a| + |b|
  {
    if |a| > 0 || |b| > 0 {
      assert (a + b)[0] in a + b;
      var x :| x in a + b;
      assert |a| > 0 && |b| > 0 && a[0] == b[0] by {
        assert x in a && x in b;
        IncreasingHead(a);
        IncreasingHead(b);
        assert a[0] in b && b[0] in a;
      }
      assert forall y :: y in a[1..] <==> y in b[1..] by {
        IncreasingHead(a);
        IncreasingHead(b);
      }
      IncreasingTail(a);
      IncreasingTail(b);
      IncreasingUnique(a[1..], b[1..]);
      assert a == [a[0]] + a[1..];
      assert b == [b[0]] + b[1..];
    }
  }
}
