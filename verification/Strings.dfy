// The order of std::string.
module Strings {
  predicate Less(a: string, b: string) {
    b != "" && (a == "" || a[0] < b[0] || (a[0] == b[0] && Less(a[1..], b[1..])))
  }

  // a and b agree in front of k, and there a is smaller.
  predicate Differ(a: string, b: string, k: nat) {
    k < |a| && k < |b| && a[k] < b[k] && forall i | 0 <= i < k :: a[i] == b[i]
  }

  // That is: a is a proper front part of b, or smaller where they first differ.
  lemma {:induction false} LessIs(a: string, b: string)
    ensures Less(a, b) <==> a < b || exists k: nat :: Differ(a, b, k)
  {
    if a != "" && b != "" && a[0] == b[0] {
      var a', b' := a[1..], b[1..];
      LessIs(a', b');
      assert a == [a[0]] + a' && b == [b[0]] + b';
      if k: nat :| Differ(a', b', k) {
        assert Differ(a, b, k + 1);
      }
      if k: nat :| Differ(a, b, k) {
        assert Differ(a', b', k - 1);
      }
    } else if a != "" && b != "" && a[0] < b[0] {
      assert Differ(a, b, 0);
    }
  }

  lemma {:induction false} LessIrreflexive(a: string)
    ensures !Less(a, a)
  {
    if a != "" {
      LessIrreflexive(a[1..]);
    }
  }

  lemma {:induction false} LessTransitive(a: string, b: string, c: string)
    requires Less(a, b) && Less(b, c)
    ensures Less(a, c)
  {
    if a != "" && a[0] == b[0] == c[0] {
      LessTransitive(a[1..], b[1..], c[1..]);
    }
  }

  lemma {:induction false} LessTotal(a: string, b: string)
    ensures Less(a, b) || a == b || Less(b, a)
  {
    if a != "" && b != "" && a[0] == b[0] {
      LessTotal(a[1..], b[1..]);
      assert a == [a[0]] + a[1..] && b == [b[0]] + b[1..];
    }
  }

  lemma {:induction false} LessAsymmetric(a: string, b: string)
    requires Less(a, b)
    ensures !Less(b, a) && a != b
  {
    LessIrreflexive(a);
    if Less(b, a) {
      LessTransitive(a, b, a);
    }
  }

  // With a common front only the rest counts.
  lemma {:induction false} LessBehind(p: string, a: string, b: string)
    ensures Less(p + a, p + b) <==> Less(a, b)
  {
    if p == "" {
      assert p + a == a && p + b == b;
    } else {
      assert (p + a)[1..] == p[1..] + a && (p + b)[1..] == p[1..] + b;
      LessBehind(p[1..], a, b);
    }
  }

  // Everything between p and an extension of p extends p.
  lemma {:induction false} Between(p: string, y: string, z: string)
    requires Less(p, y) && Less(y, p + z)
    ensures p < y
  {
    if p != "" {
      assert (p + z)[1..] == p[1..] + z;
      Between(p[1..], y[1..], z);
      assert p == [p[0]] + p[1..] && y == [y[0]] + y[1..];
    }
  }

  lemma {:induction false} PrefixLess(p: string, y: string)
    requires p < y
    ensures Less(p, y)
  {
    assert y == p + y[|p|..] && p == p + "";
    LessBehind(p, "", y[|p|..]);
  }
}
