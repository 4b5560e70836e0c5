/**
  Powers of two and the number whose binary digits are the bits of a bitmap.
 */
module Powers {
  import opened Words
  import opened Bitops

  function Pow2(n: nat): (r: nat)
    ensures r > 0
  {
    if n == 0 then 1 else 2 * Pow2(n - 1)
  }

  lemma {:induction false} Pow2Sum(m: nat, n: nat)
    ensures Pow2(m + n) == Pow2(m) * Pow2(n)
  {
    if m == 0 {
    } else {
      Pow2Sum(m - 1, n);
      assert Pow2(m + n) == 2 * (Pow2(m - 1) * Pow2(n)) == (2 * Pow2(m - 1)) * Pow2(n);
    }
  }

  lemma {:induction false} Pow2Monotone(m: nat, n: nat)
    requires m <= n
    ensures Pow2(m) <= Pow2(n)
  {
    if m >= n {
    } else {
      Pow2Monotone(m, n - 1);
    }
  }

  // The number with the binary digits lo, lo + 1, ... of the bitmap s
  ghost function Digits(s: seq<Word>, lo: nat, len: nat): nat {
    if len == 0 then 0
    else Digits(s, lo, len - 1) + (if At(s, lo + len - 1) then Pow2(len - 1) else 0)
  }

  // The number held by a bitmap of n bits
  ghost function Value(s: seq<Word>, n: nat): nat {
    Digits(s, 0, n)
  }

  lemma {:induction false} DigitsBound(s: seq<Word>, lo: nat, len: nat)
    ensures Digits(s, lo, len) < Pow2(len)
  {
    if len == 0 {
    } else {
      DigitsBound(s, lo, len - 1);
    }
  }

  lemma {:induction false} DigitsSplit(s: seq<Word>, lo: nat, m: nat, n: nat)
    ensures Digits(s, lo, m + n) == Digits(s, lo, m) + Pow2(m) * Digits(s, lo + m, n)
  {
    hide At;
    if n == 0 {
    } else {
      DigitsSplit(s, lo, m, n - 1);
      Pow2Sum(m, n - 1);
      var top := if At(s, lo + m + n - 1) then Pow2(n - 1) else 0;
      assert Pow2(m) * (Digits(s, lo + m, n - 1) + top) == Pow2(m) * Digits(s, lo + m, n - 1) + Pow2(m) * top;
    }
  }

  lemma {:induction false} DigitsAgree(s: seq<Word>, lo: nat, t: seq<Word>, hi: nat, len: nat)
    requires forall i: nat | lo <= i < lo + len :: At(s, i) == At(t, i - lo + hi)
    ensures Digits(s, lo, len) == Digits(t, hi, len)
  {
    hide At;
    if len == 0 {
    } else {
      DigitsAgree(s, lo, t, hi, len - 1);
      assert At(s, lo + len - 1) == At(t, hi + len - 1);
    }
  }

  lemma {:induction false} DigitsZero(s: seq<Word>, lo: nat, len: nat)
    requires forall i: nat | lo <= i < lo + len :: !At(s, i)
    ensures Digits(s, lo, len) == 0
  {
    hide At;
    if len == 0 {
    } else {
      DigitsZero(s, lo, len - 1);
    }
  }

  // Equal numbers have equal digits
  lemma {:induction false} DigitsInjective(s: seq<Word>, t: seq<Word>, n: nat)
    ensures Value(s, n) == Value(t, n) <==> Bits(s, n) == Bits(t, n)
  {
    hide At;
    if n == 0 {
    } else {
      DigitsInjective(s, t, n - 1);
      DigitsBound(s, 0, n - 1);
      DigitsBound(t, 0, n - 1);
      BitsSplit(s, n);
      BitsSplit(t, n);
    }
  }

  lemma BitsSplit(s: seq<Word>, n: nat)
    requires n > 0
    ensures Bits(s, n) == Bits(s, n - 1) + if At(s, n - 1) then {n - 1} else {}
    ensures n - 1 !in Bits(s, n - 1)
  {
    hide At;
  }

  lemma QuotientAndRemainder(a: nat, d: nat, q: nat, r: nat)
    requires d > 0 && a == d * q + r && r < d
    ensures a / d == q && a % d == r
  {
    var k := a / d;
    assert a == d * k + a % d;
    if k < q {
      MulMonotone(d, k + 1, q);
    } else if k > q {
      MulMonotone(d, q + 1, k);
    }
  }

  lemma MulMonotone(d: nat, x: nat, y: nat)
    requires x <= y
    ensures d * x <= d * y
  {
    assert d * y == d * x + d * (y - x);
  }
}
