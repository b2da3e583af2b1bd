/** Neighbourhood codes: the window of cells read left to right becomes a number in
    base `numStates` whose least-significant digit is the leftmost neighbour. */
module Encoding {
  import opened Power

  /** Python's built-in `sum` over a list of integers. */
  function Sum(xs: seq<int>): int
  {
    if xs == [] then 0 else xs[0] + Sum(xs[1..])
  }

  /** The list of weighted digits, `slice[i] * base ** i` for every position `i`:
      one per cell of the window. */
  function Digits(slice: seq<int>, base: nat): (d: seq<int>)
    ensures |d| == |slice|
  {
    seq(|slice|, i requires 0 <= i < |slice| => slice[i] * Pow(base, i))
  }

  /** The code of a neighbourhood window: the sum of its weighted digits. Its Horner
      form, range and inverse are the lemmas below. */
  function Encode(slice: seq<int>, base: nat): int
  {
    Sum(Digits(slice, base))
  }

  /** The base-`base` digits of `code`, least significant first, `len` of them. */
  function Decode(code: int, base: nat, len: nat): (digits: seq<int>)
    requires base >= 1
    ensures |digits| == len
    ensures forall i :: 0 <= i < len ==> 0 <= digits[i] < base
    decreases len
  {
    if len == 0 then [] else [code % base] + Decode(code / base, base, len - 1)
  }

  predicate AllDigits(slice: seq<int>, base: nat)
  {
    forall i :: 0 <= i < |slice| ==> 0 <= slice[i] < base
  }

  lemma {:induction false} SumScaled(xs: seq<int>, ys: seq<int>, factor: int)
    requires |xs| == |ys|
    requires forall j :: 0 <= j < |xs| ==> xs[j] == factor * ys[j]
    ensures Sum(xs) == factor * Sum(ys)
  {
    if xs != [] {
      SumScaled(xs[1..], ys[1..], factor);
    }
  }

  /** The sum of weighted digits is the Horner form: leftmost cell plus `base`
      times the code of the rest of the window. */
  lemma EncodeCons(slice: seq<int>, base: nat)
    requires |slice| > 0
    ensures Encode(slice, base) == slice[0] + base * Encode(slice[1..], base)
  {
    var d := Digits(slice, base);
    var rest := Digits(slice[1..], base);
    assert d[0] == slice[0];
    forall j | 0 <= j < |rest|
      ensures d[1..][j] == base * rest[j]
    {
      calc {
        d[1..][j];
        slice[j + 1] * Pow(base, j + 1);
        slice[j + 1] * (base * Pow(base, j));
        base * (slice[1..][j] * Pow(base, j));
      }
    }
    SumScaled(d[1..], rest, base);
  }

  lemma MulMonotone(factor: nat, lo: int, hi: int)
    requires lo <= hi
    ensures factor * lo <= factor * hi
  {
  }

  lemma QuotientBelow(code: int, base: nat, bound: int)
    requires base >= 1
    requires 0 <= code < base * bound
    ensures code / base < bound
  {
    var q := code / base;
    assert base * q <= code;
    assert base * (bound - q) > 0;
  }

  /** A multiple of `base` strictly between `-base` and `base` is zero. */
  lemma SmallMultipleIsZero(base: nat, k: int)
    requires base >= 1
    requires -(base as int) < base * k < base
    ensures k == 0
  {
    if k > 0 {
      MulMonotone(base, 1, k);
      assert false;
    } else if k < 0 {
      MulMonotone(base, k, -1);
      assert false;
    }
  }

  /** Euclidean division recovers the digit and the quotient of `digit + base * quotient`. */
  lemma DivModDigit(digit: int, quotient: int, base: nat)
    requires 0 <= digit < base
    ensures (digit + base * quotient) % base == digit
    ensures (digit + base * quotient) / base == quotient
  {
    var x := digit + base * quotient;
    var q, r := x / base, x % base;
    assert x == base * q + r && 0 <= r < base;
    assert base * (quotient - q) == r - digit;
    SmallMultipleIsZero(base, quotient - q);
  }

  /** A window of valid states encodes to a code within the table: `[0, base ** |slice|)`. */
  lemma {:induction false} EncodeRange(slice: seq<int>, base: nat)
    requires base >= 1
    requires AllDigits(slice, base)
    ensures 0 <= Encode(slice, base) < Pow(base, |slice|)
  {
    if slice != [] {
      EncodeCons(slice, base);
      EncodeRange(slice[1..], base);
      var e := Encode(slice[1..], base);
      var p := Pow(base, |slice| - 1);
      assert Pow(base, |slice|) == base * p;
      assert 0 <= slice[0] <= base - 1;
      MulMonotone(base, e, p - 1);
      assert Encode(slice, base) <= base - 1 + base * (p - 1);
    }
  }

  /** Decoding a code reproduces the window it came from, left to right. */
  lemma {:induction false} DecodeEncode(slice: seq<int>, base: nat)
    requires base >= 1
    requires AllDigits(slice, base)
    ensures Decode(Encode(slice, base), base, |slice|) == slice
  {
    if slice != [] {
      EncodeCons(slice, base);
      DivModDigit(slice[0], Encode(slice[1..], base), base);
      DecodeEncode(slice[1..], base);
    }
  }

  /** Every code below `base ** len` is the code of the window its digits spell. */
  lemma {:induction false} EncodeDecode(code: int, base: nat, len: nat)
    requires base >= 1
    requires 0 <= code < Pow(base, len)
    ensures Encode(Decode(code, base, len), base) == code
    decreases len
  {
    if len > 0 {
      var digits := Decode(code, base, len);
      assert digits[1..] == Decode(code / base, base, len - 1);
      QuotientBelow(code, base, Pow(base, len - 1));
      EncodeDecode(code / base, base, len - 1);
      EncodeCons(digits, base);
    }
  }

  /** A window whose rightmost cell holds `base` or more, and no negative cell,
      encodes to a code at least `base ** |slice|`: past the end of the table. */
  lemma {:induction false} EncodeOverflowsFromRightmost(slice: seq<int>, base: nat)
    requires |slice| > 0
    requires forall i :: 0 <= i < |slice| ==> slice[i] >= 0
    requires slice[|slice| - 1] >= base
    ensures Encode(slice, base) >= Pow(base, |slice|)
  {
    EncodeCons(slice, base);
    if |slice| == 1 {
      assert Encode(slice[1..], base) == 0;
    } else {
      EncodeOverflowsFromRightmost(slice[1..], base);
      var e := Encode(slice[1..], base);
      assert base * e >= base * Pow(base, |slice| - 1);
    }
  }
}
