/** int64_t arithmetic as the worker performs it: wrapping add, sub and mul,
    and C's truncating division. */
module Arith {
  import opened Bytes
  import opened Wrappers

  /** Reduce modulo 2^64 into the int64_t range: the two's-complement result of an
      add, sub or mul whose exact value does not fit. */
  function Wrap64(x: int): (r: Int64)
    ensures (r - x) % TWO_64 == 0
    ensures INT64_MIN <= x <= INT64_MAX ==> r == x
  {
    var y := x + 0x8000_0000_0000_0000;
    assert y == TWO_64 * (y / TWO_64) + y % TWO_64;
    assert (y % TWO_64 - y) == TWO_64 * -(y / TWO_64);
    y % TWO_64 - 0x8000_0000_0000_0000
  }

  function Abs(x: int): nat
  {
    if x < 0 then -x else x
  }

  /** C's integer `/`: the quotient truncated toward zero (section 6.5.5 of ISO C11),
      unlike Dafny's Euclidean `/`. Its magnitude is the largest multiple count of |b|
      in |a| and its sign is the product of the operands' signs. */
  function TruncDiv(a: int, b: int): (q: int)
    requires b != 0
    ensures Abs(q) * Abs(b) <= Abs(a) < (Abs(q) + 1) * Abs(b)
    ensures q != 0 ==> ((q > 0) <==> ((a > 0) == (b > 0)))
  {
    var m: int := Quotient(Abs(a), Abs(b));
    if (a < 0) == (b < 0) then m else -m
  }

  /** Division of naturals, with the bounds that pin it down. */
  function Quotient(x: nat, y: nat): (m: nat)
    requires y > 0
    ensures m * y <= x < (m + 1) * y
    ensures m > 0 ==> x >= y
  {
    var m, e := x / y, x % y;
    assert x == m * y + e;
    assert (m + 1) * y == m * y + y;
    assert m > 0 ==> m * y == (m - 1) * y + y && (m - 1) * y >= 0;
    m
  }

  /** C's `%` is what `/` leaves over: `(a / b) * b + a % b == a`. The remainder is
      smaller than the divisor and never has the opposite sign of the dividend. */
  lemma TruncDivRemainder(a: int, b: int)
    requires b != 0
    ensures var r := a - TruncDiv(a, b) * b;
      Abs(r) < Abs(b) && (r == 0 || ((r > 0) <==> (a > 0)))
  {
    var q := TruncDiv(a, b);
    var m := Abs(q);
    var e := Abs(a) - m * Abs(b);
    assert 0 <= e < Abs(b) by {
      assert (m + 1) * Abs(b) == m * Abs(b) + Abs(b);
    }
    if (a < 0) == (b < 0) {
      assert q == m;
      if a < 0 {
        assert q * b == -(m * Abs(b));
        assert a - q * b == -e;
      } else {
        assert q * b == m * Abs(b);
        assert a - q * b == e;
      }
    } else {
      assert q == -m || m == 0;
      if a < 0 {
        assert q * b == -(m * Abs(b));
        assert a - q * b == -e;
      } else {
        assert q * b == m * Abs(b);
        assert a - q * b == e;
      }
    }
  }

  /** int64_t `a / b` as written in the source: None where C leaves the quotient
      undefined because it does not fit, which on x86-64 is the divide-error trap
      (SIGFPE) of the idiv instruction. */
  function DivAsWritten(a: Int64, b: Int64): Option<Int64>
    requires b != 0
  {
    var q := TruncDiv(a, b);
    if INT64_MIN <= q <= INT64_MAX then Some(q) else None
  }

  /** The one input on which the source's division faults. */
  lemma DivAsWrittenTraps()
    ensures DivAsWritten(INT64_MIN, -1) == None
  {
    assert TruncDiv(INT64_MIN, -1) == 0x8000_0000_0000_0000;
  }

  lemma DivAsWrittenUndefinedExactly(a: Int64, b: Int64)
    requires b != 0
    ensures DivAsWritten(a, b) == None <==> a == INT64_MIN && b == -1
  {
    if Abs(b) == 1 {
      QuotientByOne(Abs(a));
    } else {
      QuotientHalves(Abs(a), Abs(b));
    }
  }

  lemma QuotientByOne(x: nat)
    ensures Quotient(x, 1) == x
  {
  }

  /** Dividing by at least 2 at least halves. */
  lemma QuotientHalves(x: nat, y: nat)
    requires y >= 2
    ensures 2 * Quotient(x, y) <= x
  {
    TimesAtLeastTwo(Quotient(x, y), y);
  }

  lemma {:induction false} TimesAtLeastTwo(m: nat, y: nat)
    requires y >= 2
    ensures 2 * m <= m * y
    decreases m
  {
    if m > 0 {
      TimesAtLeastTwo(m - 1, y);
      assert m * y == (m - 1) * y + y;
    }
  }

  /** The division the service evidently intends: C's truncating quotient, wrapped like
      the other operations where it does not fit. It agrees with the source wherever
      the source's division is defined and is total. */
  function Div64(a: Int64, b: Int64): (r: Int64)
    requires b != 0
    ensures DivAsWritten(a, b) == Some(r) || (a == INT64_MIN && b == -1 && r == INT64_MIN)
  {
    DivAsWrittenUndefinedExactly(a, b);
    assert a == INT64_MIN && b == -1 ==> TruncDiv(a, b) == 0x8000_0000_0000_0000;
    Wrap64(TruncDiv(a, b))
  }
}
