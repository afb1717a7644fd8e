/** The order of byte strings, which is also Rust's order on String. */
module Lexicographic {

  /** A string as its bytes. */
  type Name = seq<nat>

  predicate Less(a: Name, b: Name) {
    b != [] && (a == [] || a[0] < b[0] || (a[0] == b[0] && Less(a[1..], b[1..])))
  }

  lemma {:induction false} LessTotal(a: Name, b: Name)
    ensures a == b || Less(a, b) || Less(b, a)
    ensures !(Less(a, b) && Less(b, a))
    ensures !Less(a, a)
  {
    if a != [] && b != [] {
      LessTotal(a[1..], b[1..]);
      assert a == [a[0]] + a[1..] && b == [b[0]] + b[1..];
    }
    if a != [] {
      LessTotal(a[1..], a[1..]);
    }
  }

  lemma {:induction false} LessTransitive(a: Name, b: Name, c: Name)
    requires Less(a, b) && Less(b, c)
    ensures Less(a, c)
  {
    if a != [] && a[0] == b[0] == c[0] {
      LessTransitive(a[1..], b[1..], c[1..]);
    }
  }

  /** The first difference is at i, where `a` ends or has the smaller byte. */
  predicate SmallerAt(a: Name, b: Name, i: nat) {
    i <= |a| && i < |b| && a[..i] == b[..i] && (i == |a| || a[i] < b[i])
  }

  /** The byte order of strings. */
  ghost predicate ComesBefore(a: Name, b: Name) { exists i: nat :: SmallerAt(a, b, i) }

  lemma SmallerInTail(a: Name, b: Name, i: nat)
    requires a != [] && b != [] && a[0] == b[0]
    ensures SmallerAt(a, b, i + 1) <==> SmallerAt(a[1..], b[1..], i)
  {
    if i < |a| && i < |b| {
      assert a[..i + 1] == [a[0]] + a[1..][..i] && b[..i + 1] == [b[0]] + b[1..][..i];
      assert a[..i + 1][1..] == a[1..][..i] && b[..i + 1][1..] == b[1..][..i];
    }
  }

  lemma SmallerAtHead(a: Name, b: Name, i: nat)
    requires a != [] && b != [] && a[0] != b[0]
    ensures SmallerAt(a, b, i) <==> i == 0 && a[0] < b[0]
  {
    if 0 < i <= |a| && i <= |b| { assert a[..i][0] == a[0] && b[..i][0] == b[0]; }
  }

  lemma {:induction false} LessIsByteOrder(a: Name, b: Name)
    ensures Less(a, b) <==> ComesBefore(a, b)
  {
    if a == [] {
      assert b != [] ==> SmallerAt(a, b, 0);
    } else if b != [] {
      if a[0] == b[0] {
        LessIsByteOrder(a[1..], b[1..]);
        if i: nat :| SmallerAt(a[1..], b[1..], i) { SmallerInTail(a, b, i); }
        if i: nat :| SmallerAt(a, b, i) { SmallerInTail(a, b, i - 1); }
      } else {
        SmallerAtHead(a, b, 0);
        if i: nat :| SmallerAt(a, b, i) { SmallerAtHead(a, b, i); }
      }
    }
  }
}
