/** Comparison of two-valued vectors: loops from the least significant bit up, in which the last
    difference wins. */
module NumericCompare {
  import opened Vectors
  import opened NumericConvert

  datatype CompareType = Lt | Eq | Gt

  datatype CmpOp = EQ | NE | LT | LE | GT | GE

  function Cmp(a: int, b: int): CompareType {
    if a < b then Lt else if a == b then Eq else Gt
  }

  predicate Holds(op: CmpOp, a: int, b: int) {
    match op
    case EQ => a == b
    case NE => a != b
    case LT => a < b
    case LE => a <= b
    case GT => a > b
    case GE => a >= b
  }

  /** Position of a literal in the enumeration compare_unknown, compare_lt, compare_eq, compare_gt. */
  function Pos(c: CompareType): nat {
    match c
    case Lt => 1
    case Eq => 2
    case Gt => 3
  }

  /** The verdict so far, corrected by the bits of one more column. */
  function Column(res: CompareType, lb: bool, rb: bool): CompareType {
    if lb && !rb then Gt else if !lb && rb then Lt else res
  }

  lemma ColumnWins(x: Bits, y: Bits, i: nat)
    requires i < |x| == |y|
    ensures Cmp(UVal(x[..i + 1]), UVal(y[..i + 1])) == Column(Cmp(UVal(x[..i]), UVal(y[..i])), x[i], y[i])
  {
    UValStep(x, i);
    UValStep(y, i);
  }

  method GCompare(typ: VecType, l: Bits, r: Bits) returns (res: CompareType)
    requires l != [] && r != []
    ensures res == Cmp(Val(typ, l), Val(typ, r))
  {
    hide UVal, Pow2;
    var n := Max(|l|, |r|);
    SValRange(l);
    SValRange(r);
    if typ.Signed? {
      var lb, rb := l[|l| - 1], r[|r| - 1];
      if lb && !rb {
        return Lt;
      } else if !lb && rb {
        return Gt;
      }
    }
    res := Eq;
    ghost var le, re := Extend(typ, l, n), Extend(typ, r, n);
    var columns := if typ.Signed? then n - 1 else n;
    assert le[..0] == re[..0] == [];
    for i := 0 to columns
      invariant res == Cmp(UVal(le[..i]), UVal(re[..i]))
    {
      var lb, rb;
      if i > |l| - 1 {
        lb := if typ.Unsigned? then false else l[|l| - 1];
      } else {
        lb := l[i];
      }
      if i > |r| - 1 {
        rb := if typ.Unsigned? then false else r[|r| - 1];
      } else {
        rb := r[i];
      }
      ColumnWins(le, re, i);
      res := Column(res, lb, rb);
    }
    ValExtend(typ, l, n);
    ValExtend(typ, r, n);
    SameTop(typ, le, re);
  }

  /** With equal sign bits, the bits below decide. */
  lemma SameTop(typ: VecType, x: Bits, y: Bits)
    requires |x| == |y| && x != [] && (typ.Signed? ==> Negative(x) == Negative(y))
    ensures Cmp(Val(typ, x), Val(typ, y))
         == var k := if typ.Signed? then |x| - 1 else |x|; Cmp(UVal(x[..k]), UVal(y[..k]))
  {
    assert x[..|x|] == x && y[..|y|] == y;
  }

  /** The relational operators on vectors: FALSE as soon as one operand is null. */
  method Compare(op: CmpOp, typ: VecType, l: Bits, r: Bits) returns (res: bool)
    ensures l == [] || r == [] ==> !res
    ensures l != [] && r != [] && op.EQ? ==> (res <==> Val(typ, l) == Val(typ, r))
    ensures l != [] && r != [] && op.NE? ==> (res <==> Val(typ, l) != Val(typ, r))
    ensures l != [] && r != [] && op.LT? ==> (res <==> Val(typ, l) < Val(typ, r))
    ensures l != [] && r != [] && op.LE? ==> (res <==> Val(typ, l) <= Val(typ, r))
    ensures l != [] && r != [] && op.GT? ==> (res <==> Val(typ, l) > Val(typ, r))
    ensures l != [] && r != [] && op.GE? ==> (res <==> Val(typ, l) >= Val(typ, r))
  {
    if |l| == 0 || |r| == 0 {
      return false;
    }
    var c := GCompare(typ, l, r);
    res := Holds(op, Pos(c), Pos(Eq));
  }

  // ---- A vector and an integer ------------------------------------------

  /** What the loop over the vector's bits, followed by the test of the signs, decides for a
      SIGNED: the integer counts modulo the vector's range when the signs agree. */
  function SignedIntVerdict(v: Bits, n: int): CompareType {
    if Negative(v) != (n < 0) then Cmp(SVal(v), n) else Cmp(UVal(v), n % Pow2(|v|))
  }

  method GCompareInt(typ: VecType, v: Bits, n: Integer) returns (res: CompareType)
    requires v != [] && (typ.Unsigned? ==> n >= 0)
    ensures typ.Unsigned? ==> res == Cmp(UVal(v), n)
    ensures typ.Signed? ==> res == SignedIntVerdict(v, n)
  {
    hide UVal, Pow2;
    res := Eq;
    var r1: Integer := n;
    ghost var nb := IntBits(n, |v|);
    assert v[..0] == nb[..0] == [];
    for i := 0 to |v|
      invariant r1 == Shr(n, i) && (typ.Unsigned? ==> r1 >= 0)
      invariant res == Cmp(UVal(v[..i]), UVal(nb[..i]))
    {
      ShrStep(n, i);
      IntBitsAt(n, |v|, i);
      var d, next := ExtractLsb(typ, r1);
      r1 := next;
      ColumnWins(v, nb, i);
      res := Column(res, v[i], d == 1);
    }
    assert v[..|v|] == v && nb[..|v|] == nb;
    IntBitsValue(n, |v|);
    ShrZero(n, |v|);
    SValRange(v);
    if typ.Unsigned? {
      if r1 != 0 {
        res := Lt;
      } else {
        DivModUnique(n, 0, n, Pow2(|v|));
      }
    } else {
      if v[|v| - 1] {
        if n >= 0 {
          res := Lt;
        }
      } else {
        if n < 0 {
          res := Gt;
        }
      }
    }
  }

  /** SIGNED against an integer of at most one bit more than the vector is exact. */
  lemma SignedIntInRange(v: Bits, n: int)
    requires v != [] && -Pow2(|v|) <= n < Pow2(|v|)
    ensures SignedIntVerdict(v, n) == Cmp(SVal(v), n)
  {
    SValRange(v);
    hide UVal;
    if n < 0 {
      DivModUnique(n, -1, n + Pow2(|v|), Pow2(|v|));
    } else {
      DivModUnique(n, 0, n, Pow2(|v|));
    }
  }

  /** An integer compares correctly with every SIGNED of `width` bits exactly when it is in
      [-2**width, 2**width), or the top bit it loses last differs from its sign. */
  predicate ComparesWell(n: int, width: nat)
    requires width > 0
  {
    -Pow2(width) <= n < Pow2(width) || (n >= 0) == (n % Pow2(width) >= Pow2(width - 1))
  }

  lemma SignedIntExact(n: int, width: nat)
    requires width > 0
    ensures ComparesWell(n, width) <==> forall v: Bits :: |v| == width ==> SignedIntVerdict(v, n) == Cmp(SVal(v), n)
  {
    if ComparesWell(n, width) {
      forall v: Bits | |v| == width ensures SignedIntVerdict(v, n) == Cmp(SVal(v), n) {
        if -Pow2(width) <= n < Pow2(width) {
          SignedIntInRange(v, n);
        } else {
          SValRange(v);
        }
      }
    } else {
      var k := n % Pow2(width);
      var v := IntBits(k, width);
      IntBitsValue(k, width);
      DivModUnique(k, 0, k, Pow2(width));
      SValRange(v);
      assert SignedIntVerdict(v, n) == Eq;
    }
  }

  /** With equal signs and an integer outside the range, the verdict for one vector is right exactly
      when the bits of the vector are on the side of the integer's low bits that its sign asks for. */
  lemma SignedIntRight(v: Bits, n: int)
    requires v != [] && Negative(v) == (n < 0) && !(-Pow2(|v|) <= n < Pow2(|v|))
    ensures SignedIntVerdict(v, n) == Cmp(SVal(v), n)
            <==> if n >= 0 then UVal(v) < n % Pow2(|v|) else UVal(v) > n % Pow2(|v|)
  {
    SValRange(v);
  }

  /** SIGNED "00" and 4 are taken for equal. */
  lemma CompareExample()
    ensures var v := [false, false]; SignedIntVerdict(v, 4) == Eq && Cmp(SVal(v), 4) == Lt
  {
    var v := [false, false];
    assert v[..1] == [false] && v[..1][..0] == [];
    assert Pow2(2) == 4;
  }

  /** The relational operators with an integer on either side: exact for UNSIGNED, and for SIGNED
      with every integer that compares well. */
  method CompareInt(op: CmpOp, typ: VecType, vecOnLeft: bool, v: Bits, n: Integer) returns (res: bool)
    requires typ.Unsigned? ==> n >= 0
    ensures v == [] ==> !res
    ensures v != [] && (typ.Unsigned? || ComparesWell(n, |v|)) ==>
              (res <==> if vecOnLeft then Holds(op, Val(typ, v), n) else Holds(op, n, Val(typ, v)))
    ensures v != [] && typ.Signed? ==>
              (res <==> var c := Pos(SignedIntVerdict(v, n));
                        if vecOnLeft then Holds(op, c, Pos(Eq)) else Holds(op, Pos(Eq), c))
  {
    if |v| == 0 {
      return false;
    }
    hide ComparesWell, SignedIntVerdict, UVal;
    var c := GCompareInt(typ, v, n);
    if typ.Signed? && ComparesWell(n, |v|) {
      SignedIntExact(n, |v|);
    }
    res := if vecOnLeft then Holds(op, Pos(c), Pos(Eq)) else Holds(op, Pos(Eq), Pos(c));
  }
}
