/** The operators built on divmod and negation: "/", "rem" and "mod" of UNSIGNED and SIGNED
    vectors, unary "-" and "abs", and the forms with an integer on one side. */
module NumericSigned {
  import opened Vectors
  import opened NumericAdd
  import opened NumericConvert
  import opened NumericDiv

  // ---- Negation ---------------------------------------------------------

  /** -v, except that the most negative value has no opposite and stays. */
  function Opposite(v: int, n: nat): int
    requires n > 0
  {
    if v == -Pow2(n - 1) then v else -v
  }

  /** Unary "-": complement and add one. */
  method Neg(arg: Bits) returns (res: Bits)
    ensures |res| == |arg|
    ensures UVal(res) == -SVal(arg) % Pow2(|arg|)
    ensures arg != [] ==> SVal(res) == Opposite(SVal(arg), |arg|)
  {
    hide UVal, SVal, Pow2, Rippled;
    if |arg| == 0 {
      NegEmpty(arg);
      return [];
    }
    var a := new bool[|arg|];
    var carry := true;
    ghost var zero, flipped := Fill(false, |arg|), Not(arg);
    RippleStart(zero, flipped, true);
    for i := 0 to |arg|
      invariant Rippled(a[..i], carry, zero, flipped, true)
    {
      var b := !arg[i];
      RippleStep(a[..i], carry, zero, flipped, true, i);
      SetBit(a, i, carry != b);
      carry := carry && b;
    }
    res := a[..];
    assert a[..|arg|] == res;
    NegValue(arg, res, carry);
  }

  lemma NegEmpty(arg: Bits)
    requires arg == []
    ensures UVal(arg) == -SVal(arg) % Pow2(0)
  {
  }

  lemma NegValue(arg: Bits, res: Bits, carry: bool)
    requires arg != [] && |res| == |arg| && Rippled(res, carry, Fill(false, |arg|), Not(arg), true)
    ensures UVal(res) == -SVal(arg) % Pow2(|arg|)
    ensures SVal(res) == Opposite(SVal(arg), |arg|)
  {
    hide UVal, Pow2, Rippled;
    RippleDone(res, carry, Fill(false, |arg|), Not(arg), true);
    UValNot(arg);
    ZeroFill(|arg|);
    ModNear(UVal(res), -SVal(arg), Pow2(|arg|));
    SValRange(arg);
    NegRange(arg, res);
  }

  lemma ZeroFill(n: nat)
    ensures UVal(Fill(false, n)) == 0
  {
    UValPad([], false, n);
    assert [] + Fill(false, n) == Fill(false, n);
  }

  lemma NegRange(arg: Bits, res: Bits)
    requires arg != [] && |res| == |arg| && UVal(res) == -SVal(arg) % Pow2(|arg|)
    requires -Pow2(|arg| - 1) <= SVal(arg) < Pow2(|arg| - 1)
    ensures SVal(res) == Opposite(SVal(arg), |arg|)
  {
    var n := |arg|;
    hide UVal, SVal;
    if SVal(arg) == -Pow2(n - 1) {
      assert SVal(arg) % Pow2(n) == UVal(res) by { ModShift(SVal(arg), 1, Pow2(n)); }
      SValFromMod(res, SVal(arg));
    } else {
      SValFromMod(res, -SVal(arg));
    }
  }

  /** "abs" keeps the most negative value as it is. */
  method AbsVec(arg: Bits) returns (res: Bits)
    ensures |res| == |arg|
    ensures arg != [] ==> SVal(res) == if SVal(arg) < 0 then Opposite(SVal(arg), |arg|) else SVal(arg)
  {
    if |arg| == 0 {
      return [];
    }
    SValRange(arg);
    if !arg[|arg| - 1] {
      return arg;
    }
    res := Neg(arg);
  }

  /** Or of all bits. */
  method Has0x(a: Bits) returns (res: bool)
    ensures res <==> UVal(a) != 0
  {
    res := false;
    for i := |a| downto 0
      invariant res <==> exists k :: i <= k < |a| && a[k]
    {
      res := res || a[i];
    }
    ZeroBits(a);
  }

  lemma {:induction false} ZeroBits(a: Bits)
    ensures UVal(a) != 0 <==> exists k :: 0 <= k < |a| && a[k]
  {
    if a != [] {
      var b := a[..|a| - 1];
      ZeroBits(b);
      assert forall k :: 0 <= k < |b| ==> b[k] == a[k];
    }
  }

  // ---- UNSIGNED ---------------------------------------------------------

  method UDiv(func: DivOp, l: Bits, r: Bits) returns (res: Bits, divByZero: bool)
    ensures l == [] || r == [] ==> res == [] && !divByZero
    ensures l != [] && r != [] ==>
              && |res| == |if func.Div? then l else r|
              && (divByZero <==> UVal(r) == 0)
              && (!divByZero ==> UVal(res) == if func.Div? then UVal(l) / UVal(r) else UVal(l) % UVal(r))
              && (divByZero ==> if func.Div? then res == Fill(true, |l|) else UVal(res) == UVal(l) % Pow2(|r|))
  {
    hide UVal, Pow2;
    var r0 := Has0x(r);
    if |l| == 0 || |r| == 0 {
      return [], false;
    }
    divByZero := !r0;
    var quot, rema := DivMod(l, r);
    if !divByZero {
      DivModUnique(UVal(l), UVal(quot), UVal(rema), UVal(r));
    }
    res := if func.Div? then quot else rema;
  }

  // ---- SIGNED -----------------------------------------------------------

  /** The UNSIGNED vector of |v|; it exists even for the most negative value. */
  method Magnitude(v: Bits) returns (u: Bits)
    requires v != []
    ensures |u| == |v| && UVal(u) == Abs(SVal(v))
    ensures UVal(u) <= Pow2(|v| - 1)
  {
    SValRange(v);
    if v[|v| - 1] {
      u := Neg(v);
      DivModUnique(-SVal(v), 0, -SVal(v), Pow2(|v|));
    } else {
      u := v;
    }
  }

  /** What SIGNED operators return: the mathematical result, except that most-negative / -1
      wraps to the most negative value. */
  function SignedMeaning(func: DivOp, a: int, b: int, n: nat): int
    requires b != 0 && n > 0
  {
    if func.Div? && a == -Pow2(n - 1) && b == -1 then a else Meaning(func, a, b)
  }

  method SDiv(func: DivOp, l: Bits, r: Bits) returns (res: Bits, divByZero: bool)
    ensures l == [] || r == [] ==> res == [] && !divByZero
    ensures l != [] && r != [] ==>
              && |res| == |if func.Div? then l else r|
              && (divByZero <==> SVal(r) == 0)
              && (!divByZero && func.Div? ==>
                    SVal(res) == if SVal(l) == -Pow2(|l| - 1) && SVal(r) == -1 then SVal(l) else Quo(SVal(l), SVal(r)))
              && (!divByZero && func.RemOp? ==> SVal(res) == Rem(SVal(l), SVal(r)))
              && (!divByZero && func.ModOp? ==> SVal(res) == Mod(SVal(l), SVal(r)))
              && (divByZero ==> if func.Div? then SVal(res) == (if SVal(l) < 0 then Opposite(-1, |l|) else -1)
                                else UVal(res) == SVal(l) % Pow2(|r|))
  {
    hide UVal, SVal, Pow2, Quo, Rem, Mod;
    var r0 := Has0x(r);
    if |l| == 0 || |r| == 0 {
      return [], false;
    }
    divByZero := !r0;
    var ln, rn := l[|l| - 1], r[|r| - 1];
    SValRange(l);
    SValRange(r);
    ZeroSigned(r);
    var lu := Magnitude(l);
    var ru := Magnitude(r);
    var quot, rema := DivMod(lu, ru);
    if !divByZero {
      DivModUnique(Abs(SVal(l)), UVal(quot), UVal(rema), Abs(SVal(r)));
    }
    match func {
      case Div =>
        if rn != ln {
          res := Neg(quot);
        } else {
          res := quot;
        }
        if !divByZero {
          QuotientSign(l, r, quot, res);
        } else {
          AllOnes(quot);
        }
      case RemOp =>
        if ln {
          res := Neg(rema);
        } else {
          res := rema;
        }
        if !divByZero {
          RemainderSign(l, r, rema, res);
        } else {
          ZeroDivisor(SVal(l), rema, res, ln);
        }
      case ModOp =>
        if rema == Fill(false, |r|) {
          res := rema;
        } else if rn {
          if ln {
            res := Neg(rema);
          } else {
            res := VecVecBinary(Add, Signed, r, rema);
          }
        } else {
          if ln {
            res := VecVecBinary(Sub, Signed, r, rema);
          } else {
            res := rema;
          }
        }
        if !divByZero {
          ModulusValue(l, r, rema, res);
        } else {
          FillZero(rema);
          ZeroDivisor(SVal(l), rema, res, ln && UVal(rema) != 0);
        }
    }
  }

  lemma ZeroSigned(v: Bits)
    ensures UVal(v) == 0 <==> SVal(v) == 0
  {
  }

  lemma AllOnes(v: Bits)
    requires v != [] && v == Fill(true, |v|)
    ensures SVal(v) == -1
  {
    assert UVal([]) == 0 && Pow2(0) == 1;
    hide UVal, Pow2;
    UValPad([], true, |v|);
    assert [] + Fill(true, |v|) == v;
  }

  /** Division by 0 leaves the dividend, cut to the divisor's width. */
  lemma ZeroDivisor(a: int, rema: Bits, res: Bits, negated: bool)
    requires |res| == |rema| && UVal(rema) == Abs(a) % Pow2(|rema|)
    requires if negated then a < 0 && UVal(res) == -SVal(rema) % Pow2(|rema|)
             else res == rema && (a >= 0 || UVal(rema) == 0)
    ensures UVal(res) == a % Pow2(|rema|)
  {
    hide UVal, SVal, Pow2;
    var m := Pow2(|rema|);
    if a < 0 {
      if !negated {
        DivModUnique(0, 0, 0, m);
        NegMod(-a, 0, m);
      } else {
        ValMod(Signed, rema);
        NegMod(SVal(rema), -a, m);
      }
    }
  }

  /** The sign of the quotient, and the one quotient that does not fit. */
  lemma QuotientSign(l: Bits, r: Bits, quot: Bits, res: Bits)
    requires l != [] && r != [] && |quot| == |res| == |l| && SVal(r) != 0
    requires UVal(quot) == Abs(SVal(l)) / Abs(SVal(r))
    requires if (SVal(l) < 0) != (SVal(r) < 0) then UVal(res) == -SVal(quot) % Pow2(|l|) else res == quot
    ensures SVal(res) == SignedMeaning(Div, SVal(l), SVal(r), |l|)
  {
    hide UVal, SVal;
    var a, b, k, m := SVal(l), SVal(r), UVal(quot), Pow2(|l|);
    SValRange(l);
    QuotientBound(Abs(a), Abs(b));
    ValMod(Signed, quot);
    DivModUnique(k, 0, k, m);
    if (a < 0) != (b < 0) {
      NegMod(SVal(quot), k, m);
      SValFromMod(res, -k);
    } else if k == Pow2(|l| - 1) {
      ModShift(-k, 1, m);
      SValFromMod(res, -k);
    } else {
      SValFromMod(res, k);
    }
  }

  lemma NegMod(x: int, y: int, m: int)
    requires m > 0 && x % m == y % m
    ensures -x % m == -y % m
  {
    ModRight(0, x, m);
    ModRight(0, y, m);
  }

  lemma QuotientBound(a: nat, b: nat)
    requires b > 0
    ensures a / b <= a && (a / b == a && a > 0 ==> b == 1)
  {
    var q := a / b;
    assert a == q * b + a % b;
    if b >= 2 {
      assert q * b >= q * 2 by { MulLeft(q, b); }
    }
  }

  lemma MulLeft(q: nat, b: nat)
    requires b >= 2
    ensures q * b >= q * 2
  {
  }

  /** A remainder is small enough to be read as a SIGNED vector of the divisor's width. */
  lemma RemainderValue(r: Bits, rema: Bits)
    requires r != [] && |rema| == |r| && UVal(rema) < Abs(SVal(r))
    ensures SVal(rema) == UVal(rema) && SVal(rema) != -Pow2(|r| - 1)
  {
    SValRange(r);
    SValRange(rema);
  }

  lemma RemainderSign(l: Bits, r: Bits, rema: Bits, res: Bits)
    requires l != [] && r != [] && |res| == |rema| == |r| && SVal(r) != 0
    requires UVal(rema) == Abs(SVal(l)) % Abs(SVal(r))
    requires if SVal(l) < 0 then SVal(res) == Opposite(SVal(rema), |r|) else res == rema
    ensures SVal(res) == SignedMeaning(RemOp, SVal(l), SVal(r), |l|)
  {
    hide UVal, SVal;
    RemainderValue(r, rema);
  }

  lemma ModCases(a: int, b: int, t: int)
    requires b != 0 && t == Abs(a) % Abs(b)
    ensures Mod(a, b) == if t == 0 then 0
                         else if b < 0 then (if a < 0 then -t else b + t)
                         else (if a < 0 then b - t else t)
  {
  }

  lemma ModulusValue(l: Bits, r: Bits, rema: Bits, res: Bits)
    requires l != [] && r != [] && |res| == |rema| == |r| && SVal(r) != 0
    requires UVal(rema) == Abs(SVal(l)) % Abs(SVal(r))
    requires
      if rema == Fill(false, |r|) then res == rema
      else if SVal(r) < 0 then
        if SVal(l) < 0 then SVal(res) == Opposite(SVal(rema), |r|)
        else UVal(res) == (SVal(r) + SVal(rema)) % Pow2(|r|)
      else
        if SVal(l) < 0 then UVal(res) == (SVal(r) - SVal(rema)) % Pow2(|r|)
        else res == rema
    ensures SVal(res) == SignedMeaning(ModOp, SVal(l), SVal(r), |l|)
  {
    hide UVal, SVal, Mod, Fill;
    var a, b, t := SVal(l), SVal(r), UVal(rema);
    RemainderValue(r, rema);
    FillZero(rema);
    SValRange(r);
    ModCases(a, b, t);
    if t != 0 && (a < 0) != (b < 0) {
      SValFromMod(res, if b < 0 then b + t else b - t);
    }
  }

  lemma FillZero(v: Bits)
    ensures v == Fill(false, |v|) <==> UVal(v) == 0
  {
    ZeroBits(v);
  }

  // ---- A vector and an integer ------------------------------------------

  /** UNSIGNED by NATURAL: the integer is given the least width that holds it, and resizing the
      remainder back to the width of `l` keeps its value. */
  method VecIntUDiv(func: DivOp, l: Bits, n: Natural) returns (res: Bits, divByZero: bool)
    ensures l == [] ==> res == []
    ensures l != [] ==> |res| == |l| && (divByZero <==> n == 0)
    ensures l != [] && n != 0 ==> UVal(res) == if func.Div? then UVal(l) / n else UVal(l) % n
  {
    hide UVal, Pow2;
    var size := SizeUnsigned(n);
    if |l| == 0 {
      return [], false;
    }
    var w, truncated := ToUnsigned(n, size);
    DivModUnique(n, 0, n, Pow2(size));
    res, divByZero := UDiv(func, l, w);
    if !func.Div? {
      ghost var full := res;
      res := Resize(Unsigned, res, |l|);
      if n != 0 {
        ResizeUnsigned(full, |l|);
        RemainderBelow(UVal(l), n);
        DivModUnique(UVal(full), 0, UVal(full), Pow2(|l|));
      }
    }
  }

  lemma RemainderBelow(a: nat, b: nat)
    requires b > 0
    ensures 0 <= Rem(a, b) == Mod(a, b) <= a
  {
    if a < b {
      DivModUnique(a, 0, a, b);
    }
  }

  /** NATURAL by UNSIGNED: "rem" and "mod" are exact, "/" is cut to the width of `r`. */
  method IntVecUDiv(func: DivOp, n: Natural, r: Bits) returns (res: Bits, divByZero: bool)
    ensures r == [] ==> res == []
    ensures r != [] ==> |res| == |r| && (divByZero <==> UVal(r) == 0)
    ensures r != [] && !divByZero ==>
              UVal(res) == if func.Div? then (n / UVal(r)) % Pow2(|r|) else n % UVal(r)
  {
    hide UVal, Pow2;
    var size := SizeUnsigned(n);
    if |r| == 0 {
      return [], false;
    }
    var w, truncated := ToUnsigned(n, size);
    DivModUnique(n, 0, n, Pow2(size));
    res, divByZero := UDiv(func, w, r);
    if func.Div? {
      ResizeUnsigned(res, |r|);
      res := Resize(Unsigned, res, |r|);
    }
  }

  /** The SIGNED x is what is left of v when it is cut to n bits: the sign is kept, and the value
      modulo half the range. */
  predicate CutTo(x: int, v: int, n: nat)
    requires n > 0
  {
    (x < 0) == (v < 0) && x % Pow2(n - 1) == v % Pow2(n - 1)
  }

  /** SIGNED by INTEGER: "/" and "rem" are exact but for most-negative / -1; "mod" can exceed
      the width of `l` and is exact exactly when it does not; otherwise it is cut. */
  method VecIntSDiv(func: DivOp, l: Bits, n: Integer) returns (res: Bits, divByZero: bool)
    ensures l == [] ==> res == []
    ensures l != [] ==> |res| == |l| && (divByZero <==> n == 0)
    ensures l != [] && n != 0 && func.Div? ==>
              SVal(res) == if SVal(l) == -Pow2(|l| - 1) && n == -1 then SVal(l) else Quo(SVal(l), n)
    ensures l != [] && n != 0 && func.RemOp? ==> SVal(res) == Rem(SVal(l), n)
    ensures l != [] && n != 0 && func.ModOp? ==>
              && CutTo(SVal(res), Mod(SVal(l), n), |l|)
              && (SVal(res) == Mod(SVal(l), n) <==> -Pow2(|l| - 1) <= Mod(SVal(l), n) < Pow2(|l| - 1))
  {
    hide UVal, SVal, Pow2, Mod;
    var size := SizeSigned(n);
    if |l| == 0 {
      return [], false;
    }
    var w, truncated := ToSigned(n, size);
    res, divByZero := SDiv(func, l, w);
    if !func.Div? {
      ghost var full := res;
      res := Resize(Signed, res, |l|);
      ResizeSigned(full, |l|);
      SValRange(res);
      SValRange(full);
      if n != 0 && func.RemOp? {
        SValRange(l);
        SignedRemainderBelow(SVal(l), n);
      }
    }
  }

  lemma SignedRemainderBelow(a: int, b: int)
    requires b != 0
    ensures Abs(Rem(a, b)) <= Abs(a) && (Rem(a, b) < 0 ==> a < 0)
  {
    RemainderBelow(Abs(a), Abs(b));
  }

  /** An INTEGER that is the most negative value of some width of at least n bits. */
  ghost predicate MostNegative(v: int, n: nat) {
    exists k: nat :: k + 1 >= n && v == -Pow2(k)
  }

  lemma MostNegativeIs(v: int, n: nat, size: nat)
    requires size >= 1 && -Pow2(size - 1) <= v < Pow2(size - 1)
    requires size > 1 ==> !(-Pow2(size - 2) <= v < Pow2(size - 2))
    ensures MostNegative(v, n) <==> v == -Pow2(Max(size, n) - 1)
  {
    if MostNegative(v, n) {
      var k: nat :| k + 1 >= n && v == -Pow2(k);
      if k > size - 1 {
        Pow2Mono(size, k);
      } else if k < size - 1 {
        Pow2Mono(k, size - 2);
      }
    } else {
      assert Max(size, n) - 1 + 1 >= n;
    }
  }

  /** -1 mod 100 is 99, which has no place in four bits. */
  lemma ModExample()
    ensures var l := Fill(true, 4); SVal(l) == -1 && Mod(SVal(l), 100) == 99 && Pow2(|l| - 1) == 8
  {
    AllOnes(Fill(true, 4));
    DivModUnique(1, 0, 1, 100);
  }

  /** INTEGER by SIGNED: "rem" and "mod" are exact, "/" exactly when it fits the width of `r`.
      Otherwise "/" is cut, except that a most negative value by -1 also keeps its sign. */
  method IntVecSDiv(func: DivOp, n: Integer, r: Bits) returns (res: Bits, divByZero: bool)
    ensures r == [] ==> res == []
    ensures r != [] ==> |res| == |r| && (divByZero <==> SVal(r) == 0)
    ensures r != [] && !divByZero && func.RemOp? ==> SVal(res) == Rem(n, SVal(r))
    ensures r != [] && !divByZero && func.ModOp? ==> SVal(res) == Mod(n, SVal(r))
    ensures r != [] && !divByZero && func.Div? ==>
              (SVal(res) == Quo(n, SVal(r)) <==> -Pow2(|r| - 1) <= Quo(n, SVal(r)) < Pow2(|r| - 1))
    ensures r != [] && !divByZero && func.Div? ==>
              CutTo(SVal(res), if SVal(r) == -1 && MostNegative(n, |r|) then n else Quo(n, SVal(r)), |r|)
  {
    hide UVal, SVal, Pow2, Quo, Rem, Mod, MostNegative;
    var size := SizeSigned(n);
    if |r| == 0 {
      return [], false;
    }
    if func.Div? {
      var wide := Max(size, |r|);
      Pow2Mono(size - 1, wide - 1);
      Pow2Mono(|r| - 1, wide - 1);
      MostNegativeIs(n, |r|, size);
      var w, truncated := ToSigned(n, wide);
      res, divByZero := SDiv(func, w, r);
      ghost var full := res;
      SValRange(full);
      res := Resize(Signed, res, |r|);
      ResizeSigned(full, |r|);
      SValRange(res);
      if !divByZero && n == -Pow2(wide - 1) && SVal(r) == -1 {
        QuoMinusOne(n);
      }
    } else {
      var w, truncated := ToSigned(n, size);
      res, divByZero := SDiv(func, w, r);
    }
  }

  lemma QuoMinusOne(n: int)
    requires n < 0
    ensures Quo(n, -1) == -n
  {
    DivModUnique(-n, -n, 0, 1);
  }

  /** When the modulus of a SIGNED by an out-of-range INTEGER survives: only if it is the
      dividend itself or the sum of both still fits. */
  lemma ModFits(a: int, b: int, n: nat)
    requires n > 0 && -Pow2(n - 1) <= a < Pow2(n - 1) && !(-Pow2(n - 1) <= b < Pow2(n - 1))
    ensures -Pow2(n - 1) <= Mod(a, b) < Pow2(n - 1)
            <==> a == 0 || (a < 0) == (b < 0) || a + b == 0 || -Pow2(n - 1) <= a + b < Pow2(n - 1)
  {
    if Abs(a) < Abs(b) {
      DivModUnique(Abs(a), 0, Abs(a), Abs(b));
    } else {
      DivModUnique(Abs(a), 1, 0, Abs(b));
    }
  }
}
