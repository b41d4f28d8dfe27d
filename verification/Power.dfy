/** Square-and-multiply exponentiation on U256 (cambrian-core/src/lib.rs). */
module Power {
  import opened Wrappers
  import opened Words
  import opened U256Words
  import opened U256Div

  const TWO := U256(0, 2)

  function Exp(b: nat, e: nat): nat {
    if e == 0 then 1 else b * Exp(b, e - 1)
  }

  lemma {:induction false} ExpPositive(b: nat, e: nat)
    requires b > 0
    ensures Exp(b, e) > 0
  {
    if e > 0 {
      ExpPositive(b, e - 1);
      MulMonotone(1, 1, b, Exp(b, e - 1));
    }
  }

  lemma {:induction false} ExpSquare(b: nat, k: nat)
    ensures Exp(b * b, k) == Exp(b, 2 * k)
  {
    if k > 0 {
      ExpSquare(b, k - 1);
      var t := Exp(b, 2 * k - 2);
      assert Exp(b, 2 * k) == b * (b * t);
      assert b * (b * t) == (b * b) * t;
    }
  }

  /** `result * b^e` is the answer, and `result` has not vanished unless `b` has. */
  ghost predicate PowInv(answer: nat, result: nat, b: nat, e: nat) {
    answer == result * Exp(b, e) && (b > 0 ==> result > 0)
  }

  lemma OddStep(answer: nat, result: nat, b: nat, e: nat)
    requires PowInv(answer, result, b, e) && e > 0
    ensures PowInv(answer, result * b, b, e - 1)
    ensures result * b <= answer
  {
    var t := Exp(b, e - 1);
    assert result * (b * t) == (result * b) * t;
    if b > 0 {
      ExpPositive(b, e - 1);
      MulMonotone(result * b, 1, result * b, t);
      MulMonotone(1, 1, result, b);
    } else {
      assert result * b == 0;
    }
  }

  lemma EvenStep(answer: nat, result: nat, b: nat, e: nat)
    requires PowInv(answer, result, b, 2 * e)
    ensures PowInv(answer, result, b * b, e)
    ensures e > 0 ==> b * b <= answer
  {
    ExpSquare(b, e);
    if b > 0 {
      MulMonotone(1, 1, b, b);
      if e > 0 {
        ExpPositive(b * b, e - 1);
        MulMonotone(b * b, 1, b * b, Exp(b * b, e - 1));
        MulMonotone(1, Exp(b * b, e), result, Exp(b * b, e));
      }
    }
  }

  /** Fails exactly when the power does not fit: no intermediate square overflows first. */
  method Pow(base: U256, exp: U256) returns (r: Option<U256>)
    ensures r.Some? <==> Exp(Val(base), Val(exp)) < B128 * B128
    ensures r.Some? ==> Val(r.value) == Exp(Val(base), Val(exp))
  {
    ghost var answer := Exp(Val(base), Val(exp));
    var result, b, e := ONE, base, exp;
    while e != ZERO
      invariant PowInv(answer, Val(result), Val(b), Val(e))
      decreases Val(e)
    {
      var half, odd := Halve(e);
      if odd {
        OddStep(answer, Val(result), Val(b), Val(e));
        var next := Mul(result, b);
        if next.None? {
          return None;
        }
        result := next.value;
      }
      e := half;
      EvenStep(answer, Val(result), Val(b), Val(e));
      if e != ZERO {
        var square := Mul(b, b);
        if square.None? {
          return None;
        }
        b := square.value;
      }
    }
    return Some(result);
  }

  method Halve(e: U256) returns (half: U256, odd: bool)
    ensures Val(e) == 2 * Val(half) + (if odd then 1 else 0)
  {
    var qr := DivRem(e, TWO);
    half := qr.value.0;
    odd := qr.value.1 != ZERO;
  }
}
