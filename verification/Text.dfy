/** Byte-wise string comparison as Go's `<` on strings performs it, and the other string
    helpers the service relies on. Strings are sequences of Unicode scalar values, on which
    the code-point order and the order of the UTF-8 bytes coincide. */
module Text {

  /** Strict lexicographic order (Dafny's own `<` on sequences means "proper prefix"). */
  predicate Less(a: string, b: string)
  {
    |b| > 0 && (|a| == 0 || a[0] < b[0] || (a[0] == b[0] && Less(a[1..], b[1..])))
  }

  predicate HasPrefix(s: string, prefix: string)
  {
    prefix <= s
  }

  lemma {:induction false} LessIrreflexive(a: string)
    ensures !Less(a, a)
  {
    if |a| > 0 {
      LessIrreflexive(a[1..]);
    }
  }

  lemma {:induction false} LessTransitive(a: string, b: string, c: string)
    requires Less(a, b) && Less(b, c)
    ensures Less(a, c)
  {
    if |a| > 0 && a[0] == b[0] && b[0] == c[0] {
      LessTransitive(a[1..], b[1..], c[1..]);
    }
  }

  lemma {:induction false} LessTotal(a: string, b: string)
    ensures Less(a, b) || a == b || Less(b, a)
  {
    if |a| > 0 && |b| > 0 && a[0] == b[0] {
      LessTotal(a[1..], b[1..]);
      assert a == [a[0]] + a[1..] && b == [b[0]] + b[1..];
    }
  }

  /** The empty string is the unique least string. */
  lemma EmptyIsLeast(a: string)
    ensures Less("", a) <==> a != ""
    ensures !Less(a, "")
  {
  }

  lemma LessAsymmetric(a: string, b: string)
    requires Less(a, b)
    ensures !Less(b, a)
  {
    if Less(b, a) {
      LessTransitive(a, b, a);
      LessIrreflexive(a);
    }
  }

  /** The strings agree up to k, and there a ends or has the smaller rune. */
  ghost predicate PartsAt(a: string, b: string, k: nat)
  {
    k <= |a| && k < |b| && a[..k] == b[..k] && (k == |a| || a[k] < b[k])
  }

  /** The order is lexicographic. */
  lemma {:induction false} LessIff(a: string, b: string)
    ensures Less(a, b) <==> exists k: nat :: PartsAt(a, b, k)
  {
    if |a| > 0 && |b| > 0 && a[0] == b[0] {
      LessIff(a[1..], b[1..]);
      if k: nat :| PartsAt(a[1..], b[1..], k) {
        PartsBehindFirst(a, b, k);
      }
      if k: nat :| PartsAt(a, b, k) {
        PartsBehindFirst(a, b, k);
      }
    } else if Less(a, b) {
      assert PartsAt(a, b, 0);
    }
  }

  lemma PartsBehindFirst(a: string, b: string, k: nat)
    requires |a| > 0 && |b| > 0 && a[0] == b[0]
    ensures PartsAt(a[1..], b[1..], k) ==> PartsAt(a, b, k + 1)
    ensures k > 0 && PartsAt(a, b, k) ==> PartsAt(a[1..], b[1..], k - 1)
  {
    if PartsAt(a[1..], b[1..], k) {
      assert a[..k + 1] == [a[0]] + a[1..][..k] && b[..k + 1] == [b[0]] + b[1..][..k];
    }
    if k > 0 && PartsAt(a, b, k) {
      assert a[1..][..k - 1] == a[..k][1..] && b[1..][..k - 1] == b[..k][1..];
    }
  }
}
