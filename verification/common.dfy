/**
 Machine integer widths, the Option type used for output slots, and the
 division facts that the field extractors rely on.

 A right shift by k followed by a mask of n ones is, on an unsigned value,
 the same as `(w / 2^k) % 2^n`; the model writes field extraction that way
 so that it stays in integer arithmetic.
 */
module Common {

  const TWO_4: int := 0x10
  const TWO_8: int := 0x100
  const TWO_24: int := 0x100_0000
  const TWO_31: int := 0x8000_0000
  const TWO_32: int := 0x1_0000_0000
  const TWO_63: int := 0x8000_0000_0000_0000
  const TWO_64: int := 0x1_0000_0000_0000_0000

  type uint8 = x: int | 0 <= x < TWO_8
  type uint32 = x: int | 0 <= x < TWO_32
  type uint64 = x: int | 0 <= x < TWO_64
  type int64 = x: int | -TWO_63 <= x < TWO_63

  /** A slot of an output array: `None` is a slot that was never written. */
  datatype Option<+T> = None | Some(value: T)

  lemma {:induction false} MulAtLeast(b: int, k: int)
    requires b > 0 && k >= 1
    ensures b * k >= b
  {
    if k > 1 {
      MulAtLeast(b, k - 1);
      assert b * k == b * (k - 1) + b;
    }
  }

  /** Quotient and remainder are unique: `b * q + r` with `0 <= r < b` splits back into `q` and `r`. */
  lemma DivMod(x: int, b: int, q: int, r: int)
    requires b > 0 && 0 <= r < b && x == b * q + r
    ensures x / b == q && x % b == r
  {
    var q', r' := x / b, x % b;
    assert b * q' + r' == b * q + r;
    if q > q' {
      MulAtLeast(b, q - q');
    } else if q < q' {
      MulAtLeast(b, q' - q);
    }
  }

  /** Multiplying non-negative bounds: `a < A` and `b <= B` give `a * b <= (A - 1) * B`. */
  lemma {:induction false} MulBound(a: nat, b: nat, A: nat, B: nat)
    requires a < A && b <= B
    ensures a * b <= (A - 1) * B
  {
    if a + 1 < A {
      MulBound(a, b, A - 1, B);
      assert (A - 1) * B == (A - 2) * B + B;
    } else {
      assert a * b <= a * B by { MulMonotone(a, b, B); }
    }
  }

  lemma {:induction false} MulMonotone(a: nat, b: nat, B: nat)
    requires b <= B
    ensures a * b <= a * B
  {
    if a > 0 {
      MulMonotone(a - 1, b, B);
      assert a * b == (a - 1) * b + b;
      assert a * B == (a - 1) * B + B;
    }
  }
}
