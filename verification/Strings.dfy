/** Strings in the order of their first difference. */
module Strings {

  /** The order of strings by their first difference. */
  predicate Less(a: string, b: string) {
    if b == "" then false
    else if a == "" then true
    else a[0] < b[0] || (a[0] == b[0] && Less(a[1..], b[1..]))
  }

  lemma {:induction false} LessTransitive(a: string, b: string, c: string)
    requires Less(a, b) && Less(b, c)
    ensures Less(a, c)
  {
    if a != "" && a[0] == b[0] && b[0] == c[0] {
      LessTransitive(a[1..], b[1..], c[1..]);
    }
  }

  lemma {:induction false} LessIsTotal(a: string, b: string)
    ensures a == b || Less(a, b) || Less(b, a)
  {
    if a != "" && b != "" && a[0] == b[0] {
      LessIsTotal(a[1..], b[1..]);
      assert a == [a[0]] + a[1..] && b == [b[0]] + b[1..];
    }
  }

  lemma {:induction false} NotLessItself(a: string)
    ensures !Less(a, a)
  {
    if a != "" {
      NotLessItself(a[1..]);
    }
  }

  /** The texts are alike up to position k, and there the first ends or has the smaller character. */
  ghost predicate DiffersFirstAt(a: string, b: string, k: nat) {
    k <= |a| && k < |b| && a[..k] == b[..k] && (k == |a| || a[k] < b[k])
  }

  /** A string is less than another exactly if it is a proper beginning of it or smaller at the first difference. */
  lemma {:induction false} LessMeans(a: string, b: string)
    ensures Less(a, b) <==> exists k: nat :: DiffersFirstAt(a, b, k)
    decreases |a|
  {
    if b == "" || a == "" || a[0] != b[0] {
      assert b != "" ==> a[..0] == b[..0];
      assert Less(a, b) <==> DiffersFirstAt(a, b, 0);
      assert forall k: nat :: k > 0 && k <= |a| && k < |b| ==> a[..k][0] == a[0] && b[..k][0] == b[0];
    } else {
      LessMeans(a[1..], b[1..]);
      assert !DiffersFirstAt(a, b, 0);
      if Less(a, b) {
        var k: nat :| DiffersFirstAt(a[1..], b[1..], k);
        LaterDifference(a, b, k);
        assert DiffersFirstAt(a, b, k + 1);
      }
      if k: nat :| DiffersFirstAt(a, b, k) {
        LaterDifference(a, b, k - 1);
      }
    }
  }

  lemma LaterDifference(a: string, b: string, k: nat)
    requires a != "" && b != "" && a[0] == b[0]
    ensures DiffersFirstAt(a, b, k + 1) <==> DiffersFirstAt(a[1..], b[1..], k)
  {
    if k + 1 <= |a| && k + 1 < |b| {
      assert a[..k + 1] == [a[0]] + a[1..][..k] && b[..k + 1] == [b[0]] + b[1..][..k];
      assert a[1..][..k] == a[..k + 1][1..] && b[1..][..k] == b[..k + 1][1..];
    }
  }
}
