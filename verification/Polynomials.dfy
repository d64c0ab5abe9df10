/** Polynomials over GF(2) as lists of coefficients, highest degree first, and their long division by
    the generator of the 32-bit frame check sequence: section 8.1.1.6.2 of ITU-T V.42. */
module Polynomials {

  const O := false
  const I := true

  /** The generator without its leading x^32: the coefficients of x^31 down to x^0. */
  const GENERATOR: seq<bool> :=
    [O, O, O, O, O, I, O, O,
     I, I, O, O, O, O, O, I,
     O, O, O, I, I, I, O, I,
     I, O, I, I, O, I, I, I]

  function Zeros(n: nat): (r: seq<bool>)
    ensures |r| == n
  {
    seq(n, i => false)
  }

  /** The sum of two polynomials. */
  function Xor(x: seq<bool>, y: seq<bool>): (r: seq<bool>)
    requires |x| == |y|
    ensures |r| == |x|
  {
    seq(|x|, i requires 0 <= i < |x| => x[i] != y[i])
  }

  /** Long division: while the degree is at least 32, subtract the multiple of the generator
      that cancels the leading coefficient. What is left is the remainder. */
  function Remainder(dividend: seq<bool>): (r: seq<bool>)
    requires |dividend| >= 32
    ensures |r| == 32
    decreases |dividend|
  {
    if |dividend| == 32 then dividend else Remainder(Reduce(dividend))
  }

  function Reduce(dividend: seq<bool>): (r: seq<bool>)
    requires |dividend| > 32
    ensures |r| == |dividend| - 1
  {
    if dividend[0] then Xor(dividend[1..33], GENERATOR) + dividend[33..] else dividend[1..]
  }

  lemma ReduceLinear(x: seq<bool>, y: seq<bool>)
    requires |x| == |y| > 32
    ensures Reduce(Xor(x, y)) == Xor(Reduce(x), Reduce(y))
  {
    forall i | 0 <= i < |x| - 1
      ensures Reduce(Xor(x, y))[i] == Xor(Reduce(x), Reduce(y))[i]
    {
      ReduceAt(x, i);
      ReduceAt(y, i);
      ReduceAt(Xor(x, y), i);
    }
  }

  lemma ReduceAt(d: seq<bool>, i: nat)
    requires i + 1 < |d| && |d| > 32
    ensures Reduce(d)[i] == (d[i + 1] != (i < 32 && d[0] && GENERATOR[i]))
  {
  }

  lemma {:induction false} RemainderLinear(x: seq<bool>, y: seq<bool>)
    requires |x| == |y| >= 32
    ensures Remainder(Xor(x, y)) == Xor(Remainder(x), Remainder(y))
    decreases |x|
  {
    if |x| > 32 {
      ReduceLinear(x, y);
      hide Reduce, Xor;
      RemainderLinear(Reduce(x), Reduce(y));
    }
  }

  lemma {:induction false} RemainderSkipsZeros(k: nat, d: seq<bool>)
    requires |d| >= 32
    ensures Remainder(Zeros(k) + d) == Remainder(d)
  {
    if k == 0 {
      assert Zeros(0) + d == d;
    } else {
      assert Reduce(Zeros(k) + d) == Zeros(k - 1) + d;
      RemainderSkipsZeros(k - 1, d);
    }
  }

  /** The generator has constant term 1, so it divides no multiple x^m of a nonzero polynomial
      of degree below 32. */
  lemma {:induction false} RemainderNonzero(b: seq<bool>, m: nat)
    requires |b| == 32 && true in b
    ensures true in Remainder(b + Zeros(m))
    decreases m
  {
    var d := b + Zeros(m);
    if m == 0 {
      assert d == b;
    } else {
      var b' := if b[0] then Xor(b[1..] + [false], GENERATOR) else b[1..] + [false];
      assert Reduce(d) == b' + Zeros(m - 1) by {
        assert d[1..33] == b[1..] + [false];
        assert d[33..] == Zeros(m - 1);
      }
      assert true in b' by {
        if b[0] {
          assert b'[31];
        } else {
          var i :| 0 <= i < 32 && b[i];
          assert b'[i - 1];
        }
      }
      RemainderNonzero(b', m - 1);
    }
  }

  lemma WindowOnly(d: seq<bool>, start: nat)
    requires start + 32 <= |d|
    requires forall j | 0 <= j < |d| && !(start <= j < start + 32) :: !d[j]
    ensures d == Zeros(start) + (d[start..start + 32] + Zeros(|d| - start - 32))
  {
    assert d[..start] == Zeros(start);
    assert d[start + 32..] == Zeros(|d| - start - 32);
    assert d == d[..start] + (d[start..start + 32] + d[start + 32..]);
  }

  lemma DifferenceNonzero(x: seq<bool>, y: seq<bool>)
    requires |x| == |y|
    ensures x != y <==> true in Xor(x, y)
  {
    if x != y {
      var k :| 0 <= k < |x| && x[k] != y[k];
      assert Xor(x, y)[k];
    }
  }

  lemma WindowRemainder(d: seq<bool>, start: nat)
    requires start + 32 <= |d| && true in d
    requires forall j | 0 <= j < |d| && !(start <= j < start + 32) :: !d[j]
    ensures true in Remainder(d)
  {
    hide *;
    var b, m := d[start..start + 32], |d| - start - 32;
    var k :| 0 <= k < |d| && d[k];
    assert true in b by {
      assert b[k - start];
    }
    WindowOnly(d, start);
    RemainderSkipsZeros(start, b + Zeros(m));
    RemainderNonzero(b, m);
  }

  /** Two dividends that differ, but only within 32 consecutive coefficients,
      leave different remainders. */
  lemma BurstChangesRemainder(x: seq<bool>, y: seq<bool>, start: nat)
    requires |x| == |y| && start + 32 <= |x| && x != y
    requires forall j | 0 <= j < |x| && !(start <= j < start + 32) :: x[j] == y[j]
    ensures Remainder(x) != Remainder(y)
  {
    assert forall j | 0 <= j < |x| && !(start <= j < start + 32) :: !Xor(x, y)[j];
    hide *;
    DifferenceNonzero(x, y);
    WindowRemainder(Xor(x, y), start);
    RemainderLinear(x, y);
    DifferenceNonzero(Remainder(x), Remainder(y));
  }
}
