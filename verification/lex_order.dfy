/**
 * Lexicographic order on strings by code point: the order the ranker uses
 * to break score ties between repository names.
 */
module LexOrder {

  /** `a` sorts no later than `b`: it is a prefix of `b`, or it is smaller at
      the first position where the two differ. */
  predicate LexLe(a: string, b: string)
    decreases |a|
  {
    |a| == 0 || (|b| > 0 && (a[0] < b[0] || (a[0] == b[0] && LexLe(a[1..], b[1..]))))
  }

  predicate IsPrefix(a: string, b: string) {
    |a| <= |b| && a == b[..|a|]
  }

  /** Both strings run on past position `k`, agree before it, and `a` is smaller there. */
  predicate FirstDifferenceBelow(a: string, b: string, k: int) {
    0 <= k < |a| && k < |b| && a[..k] == b[..k] && a[k] < b[k]
  }

  /** The recursive definition agrees with the textbook one: prefix, or
      smaller at the first difference. */
  lemma {:induction false} LexLeMeaning(a: string, b: string)
    ensures LexLe(a, b) <==> IsPrefix(a, b) || exists k :: FirstDifferenceBelow(a, b, k)
    decreases |a|
  {
    if |a| == 0 {
      assert IsPrefix(a, b);
    } else if |b| == 0 {
      assert !IsPrefix(a, b);
      assert forall k :: !FirstDifferenceBelow(a, b, k);
    } else if a[0] < b[0] {
      assert FirstDifferenceBelow(a, b, 0);
    } else if a[0] > b[0] {
      assert !IsPrefix(a, b) by {
        assert |a| <= |b| ==> b[..|a|][0] == b[0];
      }
    } else {
      LexLeMeaning(a[1..], b[1..]);
      if IsPrefix(a[1..], b[1..]) {
        assert a == [a[0]] + a[1..];
        assert b[..|a|] == [b[0]] + b[1..][..|a[1..]|];
      }
      if IsPrefix(a, b) {
        assert a[1..] == b[..|a|][1..];
      }
      forall k | FirstDifferenceBelow(a[1..], b[1..], k)
        ensures FirstDifferenceBelow(a, b, k + 1)
      {
        assert a[..k + 1] == [a[0]] + a[1..][..k];
        assert b[..k + 1] == [b[0]] + b[1..][..k];
      }
      forall k | FirstDifferenceBelow(a, b, k)
        ensures FirstDifferenceBelow(a[1..], b[1..], k - 1)
      {
        assert k > 0;
        assert a[1..][..k - 1] == a[..k][1..];
        assert b[1..][..k - 1] == b[..k][1..];
      }
    }
  }

  lemma {:induction false} LexLeReflexive(a: string)
    ensures LexLe(a, a)
    decreases |a|
  {
    if |a| > 0 {
      LexLeReflexive(a[1..]);
    }
  }

  lemma {:induction false} LexLeTotal(a: string, b: string)
    ensures LexLe(a, b) || LexLe(b, a)
    decreases |a|
  {
    if |a| > 0 && |b| > 0 && a[0] == b[0] {
      LexLeTotal(a[1..], b[1..]);
    }
  }

  lemma {:induction false} LexLeAntisymmetric(a: string, b: string)
    requires LexLe(a, b) && LexLe(b, a)
    ensures a == b
    decreases |a|
  {
    if |a| > 0 {
      LexLeAntisymmetric(a[1..], b[1..]);
      assert a == [a[0]] + a[1..];
      assert b == [b[0]] + b[1..];
    }
  }

  lemma {:induction false} LexLeTransitive(a: string, b: string, c: string)
    requires LexLe(a, b) && LexLe(b, c)
    ensures LexLe(a, c)
    decreases |a|
  {
    if |a| > 0 && a[0] == b[0] && b[0] == c[0] {
      LexLeTransitive(a[1..], b[1..], c[1..]);
    }
  }
}
