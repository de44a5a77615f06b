/** Fixed-width decimal numerals in ASCII, as the timestamp printer writes them
    and the timestamp parser reads them. */
module Decimal {
  import opened Sequences

  type Byte = b: int | 0 <= b < 256

  predicate IsDigit(b: Byte) {
    48 <= b <= 57
  }

  predicate AllDigits(s: seq<Byte>) {
    forall i :: 0 <= i < |s| ==> IsDigit(s[i])
  }

  function Pow10(n: nat): (p: nat)
    ensures p >= 1
  {
    if n == 0 then 1 else 10 * Pow10(n - 1)
  }

  /** `n` in decimal, padded on the left with zeros to at least `width`. */
  function Padded(n: nat, width: nat): seq<Byte>
    decreases n + width
  {
    if n < 10 && width <= 1 then [48 + n]
    else Padded(n / 10, if width > 0 then width - 1 else 0) + [48 + n % 10]
  }

  function DecimalValue(s: seq<Byte>): nat
    requires AllDigits(s)
  {
    if s == [] then 0 else 10 * DecimalValue(s[..|s| - 1]) + (s[|s| - 1] - 48)
  }

  // ----- Numerals and their values -----------------------------------------

  /** Printing then reading a number that fits its width gives it back. */
  lemma {:induction false} PaddedRoundTrip(n: nat, width: nat)
    requires width >= 1 && n < Pow10(width)
    ensures |Padded(n, width)| == width && AllDigits(Padded(n, width))
    ensures DecimalValue(Padded(n, width)) == n
  {
    var s := Padded(n, width);
    if n < 10 && width <= 1 {
    } else {
      assert Pow10(1) == 10 * Pow10(0);
      var front := Padded(n / 10, width - 1);
      PaddedRoundTrip(n / 10, width - 1);
      assert s[..|s| - 1] == front;
    }
  }

  /** Reading then printing a run of digits gives it back. */
  lemma {:induction false} ValueRoundTrip(s: seq<Byte>)
    requires AllDigits(s) && s != []
    ensures DecimalValue(s) < Pow10(|s|)
    ensures Padded(DecimalValue(s), |s|) == s
  {
    var front, last := s[..|s| - 1], s[|s| - 1];
    assert s == front + [last];
    if front == [] {
      assert Pow10(1) == 10 * Pow10(0);
    } else {
      ValueRoundTrip(front);
      assert DecimalValue(s) / 10 == DecimalValue(front);
      assert DecimalValue(s) % 10 == last - 48;
    }
  }

  // ----- Order -------------------------------------------------------------

  /** Numerals of one width are ordered as their values. */
  lemma {:induction false} DigitsOrder(a: seq<Byte>, b: seq<Byte>)
    requires AllDigits(a) && AllDigits(b) && |a| == |b|
    ensures LexLess(a, b) <==> DecimalValue(a) < DecimalValue(b)
    ensures a == b <==> DecimalValue(a) == DecimalValue(b)
  {
    if a != [] {
      var n := |a| - 1;
      assert a == a[..n] + [a[n]] && b == b[..n] + [b[n]];
      DigitsOrder(a[..n], b[..n]);
      LexLessAppend(a[..n], b[..n], [a[n]], [b[n]]);
    }
  }

  lemma PaddedOrder(m: nat, n: nat, width: nat)
    requires width >= 1 && m < Pow10(width) && n < Pow10(width)
    ensures LexLess(Padded(m, width), Padded(n, width)) <==> m < n
    ensures Padded(m, width) == Padded(n, width) <==> m == n
  {
    PaddedRoundTrip(m, width);
    PaddedRoundTrip(n, width);
    DigitsOrder(Padded(m, width), Padded(n, width));
  }
}
