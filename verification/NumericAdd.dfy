/** The "+" and "-" of numeric_bit: carry-ripple loops on vectors of two-valued bits. */
module NumericAdd {
  import opened Vectors

  datatype AddOp = Add | Sub

  function Apply(op: AddOp, a: int, b: int): int {
    if op.Add? then a + b else a - b
  }

  /** The right operand as the adder sees it: subtraction adds its complement. */
  function Addend(op: AddOp, r: Bits): Bits {
    if op.Add? then r else Not(r)
  }

  lemma ModApply(op: AddOp, a: int, b: int, m: int)
    requires m > 0
    ensures Apply(op, a % m, b % m) % m == Apply(op, a, b) % m
  {
    ModLeft(a, Apply(op, 0, b % m), m);
    if op.Add? {
      ModLeft(b, a, m);
    } else {
      ModRight(a, b, m);
    }
  }

  /** What a full ripple leaves when its operands represent a and b modulo its width. */
  lemma RippleValue(op: AddOp, x: Bits, y: Bits, res: Bits, carry: bool, a: int, b: int)
    requires |res| == |x| == |y|
    requires Rippled(res, carry, x, Addend(op, y), op.Sub?)
    requires UVal(x) == a % Pow2(|res|) && UVal(y) == b % Pow2(|res|)
    ensures UVal(res) == Apply(op, a, b) % Pow2(|res|)
  {
    hide Rippled, UVal, Pow2;
    RippleDone(res, carry, x, Addend(op, y), op.Sub?);
    UValNot(y);
    ModNear(UVal(res), Apply(op, UVal(x), UVal(y)), Pow2(|res|));
    ModApply(op, a, b, Pow2(|res|));
  }

  lemma ExtendMod(typ: VecType, v: Bits, n: nat)
    requires v != [] && |v| <= n
    ensures UVal(Extend(typ, v, n)) == Val(typ, v) % Pow2(n)
  {
    ValExtend(typ, v, n);
    ValMod(typ, Extend(typ, v, n));
  }

  /** "+" and "-" on two vectors of any lengths. */
  method VecVecBinary(op: AddOp, typ: VecType, l: Bits, r: Bits) returns (res: Bits)
    ensures l == [] || r == [] ==> res == []
    ensures l != [] && r != [] ==>
              && |res| == Max(|l|, |r|)
              && (op.Add? ==> UVal(res) == (Val(typ, l) + Val(typ, r)) % Pow2(|res|))
              && (op.Sub? ==> UVal(res) == (Val(typ, l) - Val(typ, r)) % Pow2(|res|))
  {
    hide Rippled, UVal, SVal, Pow2, Weight, SumBit, CarryBit;
    if |l| - 1 < 0 || |r| - 1 < 0 {
      return [];
    }
    var n := Max(|l|, |r|);
    var a := new bool[n];
    var carry := op.Sub?;
    ghost var le, re := Extend(typ, l, n), Extend(typ, r, n);
    RippleStart(le, Addend(op, re), op.Sub?);
    for i := 0 to n
      invariant Rippled(a[..i], carry, le, Addend(op, re), op.Sub?)
    {
      var lb, rb;
      if i > |l| - 1 {
        lb := if typ.Unsigned? then false else l[|l| - 1];
      } else {
        lb := l[i];
      }
      if i > |r| - 1 {
        rb := if typ.Unsigned? then false else r[|r| - 1];
      } else {
        rb := r[i];
      }
      if op.Sub? {
        rb := !rb;
      }
      RippleStep(a[..i], carry, le, Addend(op, re), op.Sub?, i);
      SetBit(a, i, SumBit(carry, rb, lb));
      carry := CarryBit(carry, rb, lb);
    }
    res := a[..];
    assert a[..n] == res;
    ExtendMod(typ, l, n);
    ExtendMod(typ, r, n);
    RippleValue(op, le, re, res, carry, Val(typ, l), Val(typ, r));
  }
}
