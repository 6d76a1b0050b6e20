/** Integer power (`nv_pow`, src/backend/runtime/nir_bridge.c), the branch for an integer base
    and a non-negative integer exponent. */
module Power {
  import opened MachineInt

  function Pow(base: int, e: nat): int {
    if e == 0 then 1 else base * Pow(base, e - 1)
  }

  lemma {:induction false} PowAdds(base: int, a: nat, b: nat)
    ensures Pow(base, a + b) == Pow(base, a) * Pow(base, b)
  {
    if a == 0 {
    } else {
      PowAdds(base, a - 1, b);
      assert base * (Pow(base, a - 1) * Pow(base, b)) == (base * Pow(base, a - 1)) * Pow(base, b);
    }
  }

  function Abs(x: int): nat { if x < 0 then -x else x }

  lemma {:induction false} SmallBase(base: int, e: nat)
    requires Abs(base) <= 1
    ensures Abs(Pow(base, e)) <= 1
  {
    if e == 0 {
    } else {
      SmallBase(base, e - 1);
      assert base == 0 || base == 1 || base == -1;
    }
  }

  lemma {:induction false} BigBase(base: int, j: nat, e: nat)
    requires Abs(base) >= 2 && j <= e
    ensures 1 <= Abs(Pow(base, j)) && (j < e ==> 2 * Abs(Pow(base, j)) <= Abs(Pow(base, e)))
    decreases e
  {
    if j < e {
      BigBase(base, j, e - 1);
      AbsTimes(base, Pow(base, e - 1));
    } else if e > 0 {
      BigBase(base, e - 1, e - 1);
      AbsTimes(base, Pow(base, e - 1));
    }
  }

  lemma AbsTimes(a: int, b: int)
    requires Abs(a) >= 2
    ensures Abs(a * b) >= 2 * Abs(b)
  {
    if a >= 0 && b >= 0 { assert a * b >= 2 * b; }
    else if a >= 0 { assert a * -b >= 2 * -b; assert a * b == -(a * -b); }
    else if b >= 0 { assert -a * b >= 2 * b; assert a * b == -(-a * b); }
    else { assert -a * -b >= 2 * -b; assert a * b == -a * -b; }
  }

  /** Where a power fits in 64 bits, so does every lower power of the same base. */
  lemma LowerPowersFit(base: int, j: nat, e: nat)
    requires j <= e && Fits(Pow(base, e))
    ensures Fits(Pow(base, j))
  {
    if Abs(base) <= 1 {
      SmallBase(base, j);
    } else {
      BigBase(base, j, e);
    }
  }

  /** If the power fits, the loop computes it, and neither `result` nor `factor` ever leaves the
      64-bit range. */
  method IntegerPower(base: int64, exponent: int64) returns (result: int64)
    requires exponent >= 0
    requires Fits(Pow(base as int, exponent as int))
    ensures result as int == Pow(base as int, exponent as int)
  {
    result := 1;
    var factor, exp := base, exponent;
    ghost var b, e := base as int, exponent as int;
    ghost var r: nat, m: nat := 0, 1;          // result and factor are these powers of the base
    assert factor as int == Pow(b, 1) by { assert Pow(b, 1) == b * Pow(b, 0); }
    while exp > 0
      invariant exp >= 0 && m >= 1 && r + m * exp as int == e
      invariant result as int == Pow(b, r)
      invariant exp > 0 ==> factor as int == Pow(b, m)
      decreases exp
    {
      var bit, half := exp % 2, exp / 2;
      Halve(m, exp as int);
      if bit == 1 {
        PowAdds(b, r, m);
        LowerPowersFit(b, r + m, e);
        result := result * factor;
        r := r + m;
      }
      exp := half;
      if exp != 0 {
        PowAdds(b, m, m);
        LowerPowersFit(b, 2 * m, e);
        factor := factor * factor;
      }
      m := 2 * m;
    }
    assert m * 0 == 0;
  }

  lemma Halve(m: nat, exp: nat)
    requires exp > 0
    ensures m * exp == m * (exp % 2) + 2 * m * (exp / 2)
    ensures exp % 2 == 1 ==> m <= m * exp
    ensures exp / 2 > 0 ==> 2 * m <= 2 * m * (exp / 2)
  {
    assert exp == exp % 2 + 2 * (exp / 2);
    assert m * exp == m * (exp % 2) + m * (2 * (exp / 2));
  }

  /** Without the guard around the last squaring a power that fits would overflow on the way. */
  lemma LastSquareMayNotFit(base: int)
    requires 0x1_0000_0000 <= base && Fits(base)
    ensures Fits(Pow(base, 1)) && !Fits(Pow(base, 2))
  {
    assert Pow(base, 2) == base * Pow(base, 1) && Pow(base, 1) == base * Pow(base, 0);
    assert base * base >= 0x1_0000_0000 * base;
  }

  lemma PowSquared(base: int, e: nat, p: int)
    requires Pow(base, e) == p
    ensures Pow(base, 2 * e) == p * p
  {
    PowAdds(base, e, e);
  }

  /** Where 64 bits end: 2 to the 62, and -2 to the 63. */
  lemma PowersOfTwoFit(e: nat)
    ensures Fits(Pow(2, e)) <==> e <= 62
    ensures Fits(Pow(-2, e)) <==> e <= 63
  {
    TwoTo64(2);
    TwoTo64(-2);
    if e <= 62 {
      LowerPowersFit(2, e, 62);
    } else if Fits(Pow(2, e)) {
      LowerPowersFit(2, 63, e);
    }
    if e <= 63 {
      LowerPowersFit(-2, e, 63);
    } else if Fits(Pow(-2, e)) {
      LowerPowersFit(-2, 64, e);
    }
  }

  lemma TwoTo64(base: int)
    requires base == 2 || base == -2
    ensures Pow(base, 62) == 0x4000_0000_0000_0000
    ensures Pow(base, 63) == base * 0x4000_0000_0000_0000 && Pow(base, 64) == 0x1_0000_0000_0000_0000
  {
    assert Pow(base, 1) == base * Pow(base, 0);
    PowSquared(base, 1, base);
    PowSquared(base, 2, 4);
    PowSquared(base, 4, 16);
    PowSquared(base, 8, 256);
    PowSquared(base, 16, 0x1_0000);
    PowSquared(base, 32, 0x1_0000_0000);
    assert Pow(base, 64) == base * Pow(base, 63) && Pow(base, 63) == base * Pow(base, 62);
  }
}
