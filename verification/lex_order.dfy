/**
 * JavaScript's relational `<` applied to two strings: lexicographic order
 * on the characters, where a proper prefix comes before any longer string.
 * This is the order in which the posts listing compares its `date` values.
 */
module LexOrder {

  /** `a < b` for two JavaScript strings: a proper prefix is before, and nothing is before its own prefix. */
  predicate Less(a: string, b: string)
    ensures a < b ==> Less(a, b)
    ensures b <= a ==> !Less(a, b)
  {
    if |a| == 0 then |b| > 0
    else if |b| == 0 then false
    else if a[0] != b[0] then a[0] < b[0]
    else Less(a[1..], b[1..])
  }

  /** No string comes before itself. */
  lemma LessIrreflexive(a: string)
    ensures !Less(a, a)
  {
  }

  /** Irreflexivity for every string at once, for use inside definitions. */
  lemma LessIrreflexiveAll()
    ensures forall a :: !Less(a, a)
  {
    forall a: string ensures !Less(a, a) {
      LessIrreflexive(a);
    }
  }

  /** At most one of `a < b` and `b < a` holds. */
  lemma {:induction false} LessAsymmetric(a: string, b: string)
    requires Less(a, b)
    ensures !Less(b, a)
  {
    if |a| > 0 && |b| > 0 && a[0] == b[0] {
      LessAsymmetric(a[1..], b[1..]);
    }
  }

  lemma {:induction false} LessTransitive(a: string, b: string, c: string)
    requires Less(a, b) && Less(b, c)
    ensures Less(a, c)
  {
    if |a| > 0 && |b| > 0 && |c| > 0 && a[0] == b[0] == c[0] {
      LessTransitive(a[1..], b[1..], c[1..]);
    }
  }

  /** Two different strings are always ordered one way or the other. */
  lemma {:induction false} LessTotal(a: string, b: string)
    requires a != b
    ensures Less(a, b) || Less(b, a)
  {
    if |a| > 0 && |b| > 0 && a[0] == b[0] {
      assert a == [a[0]] + a[1..] && b == [b[0]] + b[1..];
      LessTotal(a[1..], b[1..]);
    }
  }

  /** "Not before" is transitive too: it is the order `>=`. */
  lemma NotLessTransitive(a: string, b: string, c: string)
    requires !Less(a, b) && !Less(b, c)
    ensures !Less(a, c)
  {
  }
}
