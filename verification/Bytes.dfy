/** Byte strings and the order the library sorts ciphertexts by. */
module Bytes {
  import opened Sorting

  type byte = b: int | 0 <= b < 256

  // A serialized group element, or any other byte string.
  type Element = seq<byte>

  function Concat(parts: seq<seq<byte>>): seq<byte> {
    if parts == [] then [] else parts[0] + Concat(parts[1..])
  }

  // std::string's operator<: unsigned bytes, a proper prefix first.
  predicate Precedes(a: Element, b: Element) {
    && b != []
    && (a == [] || a[0] < b[0] || (a[0] == b[0] && Precedes(a[1..], b[1..])))
  }

  lemma {:induction false} PrecedesIrreflexive(a: Element)
    ensures !Precedes(a, a)
  {
    if a != [] {
      PrecedesIrreflexive(a[1..]);
    }
  }

  lemma {:induction false} PrecedesTransitive(a: Element, b: Element, c: Element)
    requires Precedes(a, b) && Precedes(b, c)
    ensures Precedes(a, c)
  {
    if a != [] && a[0] == b[0] && b[0] == c[0] {
      PrecedesTransitive(a[1..], b[1..], c[1..]);
    }
  }

  lemma {:induction false} PrecedesTotal(a: Element, b: Element)
    ensures a == b || Precedes(a, b) || Precedes(b, a)
  {
    if a != [] && b != [] && a[0] == b[0] {
      PrecedesTotal(a[1..], b[1..]);
      assert a == [a[0]] + a[1..];
      assert b == [b[0]] + b[1..];
    }
  }

  /** The byte order is a strict total order: exactly one of a = b, a < b and b < a holds. */
  lemma PrecedesIsStrictTotalOrder()
    ensures forall a: Element :: !Precedes(a, a)
    ensures forall a: Element, b: Element :: Precedes(a, b) ==> !Precedes(b, a)
    ensures forall a: Element, b: Element, c: Element :: Precedes(a, b) && Precedes(b, c) ==> Precedes(a, c)
    ensures forall a: Element, b: Element :: a == b || Precedes(a, b) || Precedes(b, a)
  {
    forall a: Element
      ensures !Precedes(a, a)
    {
      PrecedesIrreflexive(a);
    }
    forall a: Element, b: Element, c: Element | Precedes(a, b) && Precedes(b, c)
      ensures Precedes(a, c)
    {
      PrecedesTransitive(a, b, c);
    }
    forall a: Element, b: Element
      ensures a == b || Precedes(a, b) || Precedes(b, a)
    {
      PrecedesTotal(a, b);
    }
  }

  // "Does not come after" is transitive.
  lemma NotAfterTransitive(a: Element, b: Element, c: Element)
    requires !Precedes(b, a) && !Precedes(c, b)
    ensures !Precedes(c, a)
  {
    PrecedesTotal(a, b);
    PrecedesTotal(b, c);
    if Precedes(a, b) && Precedes(b, c) {
      PrecedesTransitive(a, b, c);
    }
    if Precedes(c, a) {
      PrecedesTransitive(a, c, a);
      PrecedesIrreflexive(a);
    }
  }

  // The first position below n where a and b differ, or n.
  function Mismatch(a: Element, b: Element, n: nat): (k: nat)
    requires n <= |a| && n <= |b|
    ensures k <= n && a[..k] == b[..k]
    ensures k < n ==> a[k] != b[k]
  {
    if n == 0 then 0
    else
      var k := Mismatch(a, b, n - 1);
      if k < n - 1 || a[k] != b[k] then k else n
  }

  // The C library's memcmp on n bytes: the sign of the first difference.
  function Memcmp(a: Element, b: Element, n: nat): int
    requires n <= |a| && n <= |b|
  {
    var k := Mismatch(a, b, n);
    if k < n then a[k] as int - b[k] as int else 0
  }

  function CompareElements(a: Element, b: Element): int {
    var common := if |a| < |b| then |a| else |b|;
    var prefix := Memcmp(a, b, common);
    if prefix != 0 then prefix
    else if |a| == |b| then 0
    else if |a| < |b| then -1 else 1
  }

  lemma {:induction false} PrecedesAtMismatch(a: Element, b: Element, k: nat)
    requires k <= |a| && k <= |b| && a[..k] == b[..k]
    ensures Precedes(a, b) == Precedes(a[k..], b[k..])
  {
    if k == 0 {
      assert a[0..] == a && b[0..] == b;
    } else {
      assert a[0] == a[..k][0] == b[..k][0] == b[0];
      assert a[1..][..k-1] == a[..k][1..] == b[..k][1..] == b[1..][..k-1];
      PrecedesAtMismatch(a[1..], b[1..], k - 1);
      assert a[1..][k-1..] == a[k..] && b[1..][k-1..] == b[k..];
    }
  }

  // The number that a byte string spells in base 256, its first byte the highest digit.
  function Spelled(a: Element): nat {
    if a == [] then 0 else 256 * Spelled(a[..|a|-1]) + a[|a|-1]
  }

  function Power256(n: nat): nat {
    if n == 0 then 1 else 256 * Power256(n - 1)
  }

  lemma {:induction false} SpelledCons(b: byte, a: Element)
    ensures Spelled([b] + a) == b * Power256(|a|) + Spelled(a)
    decreases |a|
  {
    if a == [] {
      assert ([b] + a)[..0] == [];
    } else {
      assert ([b] + a)[..|a|] == [b] + a[..|a|-1];
      SpelledCons(b, a[..|a|-1]);
    }
  }

  lemma {:induction false} SpelledIsLess(a: Element)
    ensures Spelled(a) < Power256(|a|)
    decreases |a|
  {
    if a != [] {
      SpelledIsLess(a[..|a|-1]);
    }
  }

  // A smaller first digit decides, whatever follows.
  lemma FirstDigitDecides(b: byte, a: Element, b': byte, a': Element)
    requires |a| == |a'|
    ensures b < b' ==> Spelled([b] + a) < Spelled([b'] + a')
    ensures b == b' ==> (Spelled([b] + a) < Spelled([b'] + a') <==> Spelled(a) < Spelled(a'))
  {
    SpelledCons(b, a);
    SpelledCons(b', a');
    SpelledIsLess(a);
    SpelledIsLess(a');
    if b < b' {
      DigitOutweighs(b, b', Power256(|a|));
    }
  }

  lemma {:induction false} DigitOutweighs(b: int, b': int, p: nat)
    requires b < b'
    ensures b * p + p <= b' * p
    decreases p
  {
    if p > 0 {
      DigitOutweighs(b, b', p - 1);
    }
  }

  /** Among strings of one length the order is that of the numbers they spell. */
  lemma {:induction false} PrecedesIsNumeric(a: Element, b: Element)
    requires |a| == |b|
    ensures Precedes(a, b) <==> Spelled(a) < Spelled(b)
    decreases |a|
  {
    if a != [] {
      assert a == [a[0]] + a[1..] && b == [b[0]] + b[1..];
      PrecedesIsNumeric(a[1..], b[1..]);
      FirstDigitDecides(a[0], a[1..], b[0], b[1..]);
      FirstDigitDecides(b[0], b[1..], a[0], a[1..]);
    }
  }

  /** Of two strings the first that has a smaller byte where they first differ, or that ends there, precedes. */
  lemma {:induction false} PrecedesWhereTheyDiffer(a: Element, b: Element)
    ensures Precedes(a, b) <==>
              || a < b
              || exists k :: 0 <= k < |a| && k < |b| && a[..k] == b[..k] && a[k] as int < b[k] as int
  {
    var n := if |a| < |b| then |a| else |b|;
    var k := Mismatch(a, b, n);
    PrecedesAtMismatch(a, b, k);
    forall j | 0 <= j < |a| && j < |b| && a[..j] == b[..j] && a[j] < b[j]
      ensures Precedes(a, b)
    {
      PrecedesAtMismatch(a, b, j);
    }
    if a < b {
      PrecedesAtMismatch(a, b, |a|);
    }
  }

  /** The three-way comparison of the streaming matcher decides exactly std::string's order. */
  lemma {:induction false} CompareElementsIsByteOrder(a: Element, b: Element)
    ensures CompareElements(a, b) < 0 <==> Precedes(a, b)
    ensures CompareElements(a, b) == 0 <==> a == b
    ensures CompareElements(a, b) > 0 <==> Precedes(b, a)
    ensures |a| == |b| ==> (CompareElements(a, b) < 0 <==> Spelled(a) < Spelled(b))
    ensures a < b ==> CompareElements(a, b) < 0
  {
    if |a| == |b| {
      PrecedesIsNumeric(a, b);
    }
    PrecedesWhereTheyDiffer(a, b);
    var common := if |a| < |b| then |a| else |b|;
    var k := Mismatch(a, b, common);
    PrecedesAtMismatch(a, b, k);
    PrecedesAtMismatch(b, a, k);
    if k == common && |a| == |b| {
      assert a == a[..k] == b[..k] == b;
      PrecedesIrreflexive(a);
    }
  }

  ghost predicate Ascending(s: seq<Element>) {
    forall i, j :: 0 <= i < j < |s| ==> !Precedes(s[j], s[i])
  }

  ghost predicate StrictlyAscending(s: seq<Element>) {
    forall i, j :: 0 <= i < j < |s| ==> Precedes(s[i], s[j])
  }

  lemma AscendingIsNumeric(s: seq<Element>)
    requires Ascending(s)
    ensures forall i, j :: 0 <= i < j < |s| && |s[i]| == |s[j]| ==> Spelled(s[i]) <= Spelled(s[j])
  {
    forall i, j | 0 <= i < j < |s| && |s[i]| == |s[j]|
      ensures Spelled(s[i]) <= Spelled(s[j])
    {
      PrecedesIsNumeric(s[j], s[i]);
    }
  }

  /** An ascending list is strictly ascending exactly when no element repeats. */
  lemma StrictlyAscendingIffDistinct(s: seq<Element>)
    requires Ascending(s)
    ensures StrictlyAscending(s) <==> AllDistinct(s)
  {
    PrecedesIsStrictTotalOrder();
  }

  lemma StrictlyAscendingIsAscending(s: seq<Element>)
    requires StrictlyAscending(s)
    ensures Ascending(s) && AllDistinct(s)
  {
    PrecedesIsStrictTotalOrder();
  }

  // Appending one element keeps the order if and only if it follows the last one.
  lemma StrictlyAscendingSnoc(s: seq<Element>, e: Element)
    ensures StrictlyAscending(s + [e]) <==> StrictlyAscending(s) && (s == [] || Precedes(s[|s|-1], e))
  {
    var t := s + [e];
    if StrictlyAscending(t) {
      assert forall i, j :: 0 <= i < j < |s| ==> s[i] == t[i] && s[j] == t[j];
      if s != [] {
        assert Precedes(t[|s|-1], t[|s|]);
      }
    }
    if StrictlyAscending(s) && (s == [] || Precedes(s[|s|-1], e)) {
      forall i, j | 0 <= i < j < |t|
        ensures Precedes(t[i], t[j])
      {
        if j == |s| && i < |s| - 1 {
          PrecedesTransitive(s[i], s[|s|-1], e);
        }
      }
    }
  }
}
