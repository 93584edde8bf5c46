/** NUL-terminated byte strings and the order that strcmp puts on them. */
module CString {

  /** A character of a C string: an unsigned char other than the terminator. */
  type CChar = c: int | 0 < c < 256 witness 1

  type CStr = seq<CChar>

  /** What strcmp returns, as a sign: the first differing character decides, and
      the terminator is below every character. */
  function Strcmp(a: CStr, b: CStr): int {
    if a == [] then (if b == [] then 0 else -b[0])
    else if b == [] then a[0]
    else if a[0] != b[0] then a[0] - b[0]
    else Strcmp(a[1..], b[1..])
  }

  predicate Less(a: CStr, b: CStr) {
    Strcmp(a, b) < 0
  }

  lemma {:induction false} StrcmpZero(a: CStr, b: CStr)
    ensures Strcmp(a, b) == 0 <==> a == b
  {
    if a != [] && b != [] && a[0] == b[0] {
      StrcmpZero(a[1..], b[1..]);
      assert a == [a[0]] + a[1..] && b == [b[0]] + b[1..];
    }
  }

  lemma {:induction false} StrcmpAntisymmetric(a: CStr, b: CStr)
    ensures Strcmp(a, b) == -Strcmp(b, a)
  {
    if a != [] && b != [] && a[0] == b[0] {
      StrcmpAntisymmetric(a[1..], b[1..]);
    }
  }

  lemma {:induction false} LessTransitive(a: CStr, b: CStr, c: CStr)
    requires Less(a, b) && Less(b, c)
    ensures Less(a, c)
  {
    if a != [] && a[0] == b[0] && b[0] == c[0] {
      LessTransitive(a[1..], b[1..], c[1..]);
    }
  }

  /** Up to place i the strings are the same, and there a ends or has the smaller character. */
  predicate SmallerAt(a: CStr, b: CStr, i: nat) {
    i <= |a| && i < |b| && a[..i] == b[..i] && (i == |a| || a[i] < b[i])
  }

  lemma SameStart(a: CStr, b: CStr, i: nat)
    requires SmallerAt(a, b, i) && i > 0
    ensures a != [] && b != [] && a[0] == b[0] && SmallerAt(a[1..], b[1..], i - 1)
  {
    assert a[0] == a[..i][0] && b[0] == b[..i][0];
    assert a[1..][..i - 1] == a[..i][1..] && b[1..][..i - 1] == b[..i][1..];
  }

  lemma OneMore(a: CStr, b: CStr, i: nat)
    requires a != [] && b != [] && a[0] == b[0] && SmallerAt(a[1..], b[1..], i)
    ensures SmallerAt(a, b, i + 1)
  {
    assert a[..i + 1] == [a[0]] + a[1..][..i] && b[..i + 1] == [b[0]] + b[1..][..i];
  }

  lemma {:induction false} LessExactly(a: CStr, b: CStr)
    ensures Less(a, b) <==> exists i :: SmallerAt(a, b, i)
  {
    hide SmallerAt;
    if i :| SmallerAt(a, b, i) {
      if i > 0 { SameStart(a, b, i); } else { FirstSmaller(a, b); }
    }
    if a == [] || b == [] || a[0] != b[0] {
      FirstSmaller(a, b);
    } else {
      LessExactly(a[1..], b[1..]);
      if i :| SmallerAt(a[1..], b[1..], i) { OneMore(a, b, i); }
    }
  }

  lemma FirstSmaller(a: CStr, b: CStr)
    ensures SmallerAt(a, b, 0) <==> b != [] && (a == [] || a[0] < b[0])
  {
  }

  /** Less is a strict total order. */
  lemma LessIsTotalOrder()
    ensures forall a, b :: Less(a, b) || Less(b, a) || a == b
    ensures forall a, b :: Less(a, b) ==> a != b && !Less(b, a)
    ensures forall a, b, c :: Less(a, b) && Less(b, c) ==> Less(a, c)
  {
    forall a, b
      ensures Less(a, b) || Less(b, a) || a == b
      ensures Less(a, b) ==> a != b && !Less(b, a)
    {
      StrcmpZero(a, b);
      StrcmpAntisymmetric(a, b);
    }
    forall a, b, c | Less(a, b) && Less(b, c)
      ensures Less(a, c)
    {
      LessTransitive(a, b, c);
    }
  }
}
