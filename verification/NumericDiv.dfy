/** Restoring division, and the "/", "rem" and "mod" of UNSIGNED and SIGNED that are built on it. */
module NumericDiv {
  import opened Vectors
  import opened NumericAdd
  import opened NumericConvert

  datatype DivOp = Div | RemOp | ModOp

  // ---- Integer division as section 9.2.7 of IEEE 1076-2008 defines it ----

  function Abs(a: int): nat {
    if a < 0 then -a else a
  }

  /** "/" on integers: truncation toward zero. */
  function Quo(a: int, b: int): int
    requires b != 0
  {
    if (a < 0) == (b < 0) then Abs(a) / Abs(b) else -(Abs(a) / Abs(b))
  }

  function Rem(a: int, b: int): int
    requires b != 0
  {
    if a < 0 then -(Abs(a) % Abs(b)) else Abs(a) % Abs(b)
  }

  function Mod(a: int, b: int): int
    requires b != 0
  {
    if Rem(a, b) == 0 || (a < 0) == (b < 0) then Rem(a, b) else b + Rem(a, b)
  }

  function Meaning(func: DivOp, a: int, b: int): int
    requires b != 0
  {
    match func
    case Div => Quo(a, b)
    case RemOp => Rem(a, b)
    case ModOp => Mod(a, b)
  }

  lemma MulNeg(a: int, b: int)
    ensures (-a) * b == -(a * b) == a * (-b)
  {
  }

  /** a = (a/b)*b + (a rem b); rem has the sign of a and mod the sign of b; both are smaller
      than b; mod differs from a by a multiple of b. */
  lemma DivisionLaws(a: int, b: int) returns (n: int)
    requires b != 0
    ensures a == Quo(a, b) * b + Rem(a, b)
    ensures Abs(Rem(a, b)) < Abs(b) && (Rem(a, b) == 0 || (Rem(a, b) < 0) == (a < 0))
    ensures a == n * b + Mod(a, b)
    ensures Abs(Mod(a, b)) < Abs(b) && (Mod(a, b) == 0 || (Mod(a, b) < 0) == (b < 0))
  {
    var q, t := Abs(a) / Abs(b), Abs(a) % Abs(b);
    assert Abs(a) == q * Abs(b) + t;
    MulNeg(q, b);
    n := if Rem(a, b) == 0 || (a < 0) == (b < 0) then Quo(a, b) else Quo(a, b) - 1;
    MulPred(Quo(a, b), b);
  }

  // ---- divmod -----------------------------------------------------------

  /** sub := reg - dem, on the bits they share. */
  method SubtractDem(reg: array<bool>, dem: Bits, sub: array<bool>) returns (carry: bool)
    requires reg.Length == |dem| + 1 && sub.Length == |dem| && reg != sub
    modifies sub
    ensures UVal(sub[..]) + Weight(carry, Pow2(|dem|)) == UVal(reg[..|dem|]) + Pow2(|dem|) - UVal(dem)
  {
    hide Rippled, UVal, Pow2;
    carry := true;
    ghost var x := reg[..|dem|];
    RippleStart(x, Not(dem), true);
    for j := 0 to |dem|
      invariant reg[..|dem|] == x && Rippled(sub[..j], carry, x, Not(dem), true)
    {
      var d := !dem[j];
      assert x[j] == reg[j];
      RippleStep(sub[..j], carry, x, Not(dem), true, j);
      SetBit(sub, j, SumBit(carry, reg[j], d));
      carry := CarryBit(carry, reg[j], d);
    }
    assert sub[..|dem|] == sub[..];
    RippleDone(sub[..], carry, x, Not(dem), true);
    UValNot(dem);
  }

  lemma TopBit(v: Bits)
    requires v != []
    ensures UVal(v) == UVal(v[..|v| - 1]) + Weight(v[|v| - 1], Pow2(|v| - 1))
  {
  }

  /** The test of the extra bit decides REG >= DEM, and then SUB is the difference. */
  lemma CompareByCarry(reg: Bits, dem: Bits, sub: Bits, carry: bool)
    requires |reg| == |dem| + 1 && |sub| == |dem|
    requires UVal(sub) + Weight(carry, Pow2(|dem|)) == UVal(reg[..|dem|]) + Pow2(|dem|) - UVal(dem)
    ensures CarryBit(carry, reg[|dem|], true) <==> UVal(reg) >= UVal(dem)
    ensures UVal(reg) >= UVal(dem) ==> UVal(sub) == (UVal(reg) - UVal(dem)) % Pow2(|dem|)
  {
    hide Pow2, UVal;
    TopBit(reg);
    if UVal(reg) >= UVal(dem) {
      ModNear(UVal(sub), UVal(reg) - UVal(dem), Pow2(|dem|));
    }
  }

  /** The state after the bits of index i and above: what is divided so far, its quotient
      and its remainder. */
  ghost predicate Divided(num: Bits, dem: Bits, quot: Bits, reg: nat) {
    && |num| == |quot|
    && (UVal(dem) != 0 ==> UVal(num) == UVal(quot) * UVal(dem) + reg && reg < UVal(dem))
    && (UVal(dem) == 0 ==> quot == Fill(true, |quot|) && reg == UVal(num) % Pow2(|dem|))
  }

  lemma DividedStep(num: Bits, dem: Bits, quot: Bits, reg: nat, reg': nat, b: bool, q: bool)
    requires dem != [] && Divided(num, dem, quot, reg)
    requires q <==> 2 * reg + Weight(b, 1) >= UVal(dem)
    requires reg' == if q then (2 * reg + Weight(b, 1) - UVal(dem)) % Pow2(|dem|) else 2 * reg + Weight(b, 1)
    ensures Divided([b] + num, dem, [q] + quot, reg')
  {
    hide UVal, Pow2;
    UValLow([b] + num);
    UValLow([q] + quot);
    var x := 2 * reg + Weight(b, 1);
    var d, n, k, m := UVal(dem), UVal(num), UVal(quot), Pow2(|dem|);
    if d != 0 {
      if q { DivModUnique(x - d, 0, x - d, m); }
      ScaleQuotient(k, d, q);
    } else {
      assert [q] + quot == Fill(true, |quot| + 1);
      assert x % m == (2 * n + Weight(b, 1)) % m by { DoubleMod(n, Weight(b, 1), m); }
    }
  }

  lemma ScaleQuotient(k: int, d: int, q: bool)
    ensures (2 * k + Weight(q, 1)) * d == 2 * (k * d) + Weight(q, d)
  {
  }

  lemma DoubleMod(n: int, b: int, m: int)
    requires m > 0
    ensures (2 * (n % m) + b) % m == (2 * n + b) % m
  {
    ModLeft(n, n % m + b, m);
    ModLeft(n, n + b, m);
  }

  /** One bit of the quotient: shift `bit` into REG, and subtract DEM if it fits. */
  method Restore(reg: array<bool>, dem: Bits, sub: array<bool>, bit: bool) returns (q: bool)
    requires reg.Length == |dem| + 1 && sub.Length == |dem| && reg != sub && !reg[|dem|]
    modifies reg, sub
    ensures !reg[|dem|]
    ensures q <==> 2 * old(UVal(reg[..|dem|])) + Weight(bit, 1) >= UVal(dem)
    ensures UVal(reg[..|dem|]) == var x := 2 * old(UVal(reg[..|dem|])) + Weight(bit, 1);
                                  if q then (x - UVal(dem)) % Pow2(|dem|) else x
  {
    hide UVal, Pow2;
    var m := |dem|;
    ghost var low := reg[..m];
    forall k | 1 <= k <= m { reg[k] := reg[k - 1]; }
    reg[0] := bit;
    ghost var shifted := reg[..];
    assert shifted == [bit] + low && shifted[1..] == low;
    UValLow(shifted);
    TopBit(shifted);
    var carry := SubtractDem(reg, dem, sub);
    ghost var diff := sub[..];
    CompareByCarry(shifted, dem, diff, carry);
    carry := CarryBit(carry, reg[m], true);
    if !carry {
      q := false;
      assert reg[..m] == shifted[..m];
    } else {
      q := true;
      reg[m] := false;
      forall k | 0 <= k < m { reg[k] := sub[k]; }
      assert reg[..m] == diff;
    }
  }

  /** Restoring division.  With DEM = 0 every subtraction succeeds: QUOT is all ones and REMAIN
      is what is left of NUM in the width of DEM. */
  method DivMod(num: Bits, dem: Bits) returns (quot: Bits, remain: Bits)
    requires dem != []
    ensures |quot| == |num| && |remain| == |dem|
    ensures UVal(dem) != 0 ==> UVal(num) == UVal(quot) * UVal(dem) + UVal(remain) && UVal(remain) < UVal(dem)
    ensures UVal(dem) == 0 ==> quot == Fill(true, |num|) && UVal(remain) == UVal(num) % Pow2(|dem|)
  {
    hide UVal, Pow2, Divided;
    var m := |dem|;
    var reg := new bool[m + 1](_ => false);
    var sub := new bool[m];
    var q := new bool[|num|];
    DividedStart(dem, reg[..m], num[|num|..], q[|num|..]);
    for i := |num| downto 0
      invariant !reg[m]
      invariant Divided(num[i..], dem, q[i..], UVal(reg[..m]))
    {
      ghost var low, qs := UVal(reg[..m]), q[i + 1..];
      q[i] := Restore(reg, dem, sub, num[i]);
      DividedStep(num[i + 1..], dem, qs, low, UVal(reg[..m]), num[i], q[i]);
      assert num[i..] == [num[i]] + num[i + 1..];
      assert q[i..] == [q[i]] + qs;
    }
    quot, remain := q[..], reg[..m];
    assert num[0..] == num && q[0..] == quot;
    DividedDone(num, dem, quot, remain);
  }

  lemma DividedStart(dem: Bits, reg: Bits, num: Bits, quot: Bits)
    requires dem != [] && num == quot == [] && |reg| == |dem| && forall k :: 0 <= k < |reg| ==> !reg[k]
    ensures Divided(num, dem, quot, UVal(reg))
  {
    assert reg == [] + Fill(false, |reg|);
    UValPad([], false, |reg|);
    DivModUnique(0, 0, 0, Pow2(|dem|));
  }

  lemma DividedDone(num: Bits, dem: Bits, quot: Bits, remain: Bits)
    requires Divided(num, dem, quot, UVal(remain))
    ensures UVal(dem) != 0 ==> UVal(num) == UVal(quot) * UVal(dem) + UVal(remain) && UVal(remain) < UVal(dem)
    ensures UVal(dem) == 0 ==> quot == Fill(true, |num|) && UVal(remain) == UVal(num) % Pow2(|dem|)
  {
  }
}
