/** Lexicographic order on strings by character code. On the ASCII dates the
    model stores, this is what `String.prototype.localeCompare` decides. */
module Lex {

  /** `a` sorts at or before `b`. */
  predicate LexLe(a: string, b: string)
    decreases |a|
  {
    |a| == 0 || (|b| > 0 && (a[0] < b[0] || (a[0] == b[0] && LexLe(a[1..], b[1..]))))
  }

  /** `a` sorts strictly before `b` (`a.localeCompare(b) < 0`). */
  predicate LexLess(a: string, b: string) {
    LexLe(a, b) && a != b
  }

  lemma {:induction false} LexLeReflexive(a: string)
    ensures LexLe(a, a)
    decreases |a|
  {
    if |a| > 0 {
      LexLeReflexive(a[1..]);
    }
  }

  lemma {:induction false} LexLeAntisymmetric(a: string, b: string)
    requires LexLe(a, b) && LexLe(b, a)
    ensures a == b
    decreases |a|
  {
    if |a| > 0 {
      LexLeAntisymmetric(a[1..], b[1..]);
      assert a == [a[0]] + a[1..];
      assert b == [b[0]] + b[1..];
    }
  }

  lemma {:induction false} LexLeTotal(a: string, b: string)
    ensures LexLe(a, b) || LexLe(b, a)
    decreases |a|
  {
    if |a| > 0 && |b| > 0 && a[0] == b[0] {
      LexLeTotal(a[1..], b[1..]);
    }
  }

  lemma {:induction false} LexLeTransitive(a: string, b: string, c: string)
    requires LexLe(a, b) && LexLe(b, c)
    ensures LexLe(a, c)
    decreases |a|
  {
    if |a| > 0 && a[0] == b[0] && b[0] == c[0] {
      LexLeTransitive(a[1..], b[1..], c[1..]);
    }
  }

  /** Comparing two strings that share a prefix length is decided by the
      prefixes first and by the rests only when the prefixes are equal. */
  lemma {:induction false} LexLeConcat(p: string, r: string, q: string, t: string)
    requires |p| == |q|
    ensures LexLe(p + r, q + t) <==> LexLess(p, q) || (p == q && LexLe(r, t))
    decreases |p|
  {
    if |p| == 0 {
      assert p + r == r && q + t == t;
      assert p == q;
    } else {
      assert (p + r)[0] == p[0] && (q + t)[0] == q[0];
      assert (p + r)[1..] == p[1..] + r;
      assert (q + t)[1..] == q[1..] + t;
      LexLeConcat(p[1..], r, q[1..], t);
      if p[0] == q[0] {
        assert p == [p[0]] + p[1..];
        assert q == [q[0]] + q[1..];
        assert p == q <==> p[1..] == q[1..];
      } else {
        assert p != q;
        assert LexLe(p, q) <==> p[0] < q[0];
      }
    }
  }
}
