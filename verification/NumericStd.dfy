/** "+" and "-" of numeric_std, on the nine-valued std_ulogic: two vectors, or a vector and an
    integer. */
module NumericStd {
  import opened Vectors
  import opened NumericAdd
  import opened NumericConvert

  /** 'U' 'X' '0' '1' 'Z' 'W' 'L' 'H' '-' */
  datatype StdLogic = U | X | Zero | One | Z | W | L | H | DontCare

  type StdVector = seq<StdLogic>

  /** Table sl_to_x01. */
  function ToX01(s: StdLogic): StdLogic {
    match s
    case Zero | L => Zero
    case One | H => One
    case _ => X
  }

  /** Subtype sl_x01: assigning any other value is an error at run time. */
  predicate IsX01(s: StdLogic) {
    s in {X, Zero, One}
  }

  function FromBit(b: bool): StdLogic {
    if b then One else Zero
  }

  /** The two-valued reading of a vector without metavalues: '1' and 'H' are ones. */
  function ToBits(v: StdVector): Bits {
    seq(|v|, k requires 0 <= k < |v| => v[k] in {One, H})
  }

  /** Some element is neither '0' nor '1', strong or weak. */
  predicate HasX(v: StdVector) {
    exists k :: 0 <= k < |v| && v[k] in {U, X, Z, W, DontCare}
  }

  predicate All(v: StdVector, s: StdLogic) {
    forall k :: 0 <= k < |v| ==> v[k] == s
  }

  predicate TwoValued(v: StdVector) {
    forall k :: 0 <= k < |v| ==> v[k] in {Zero, One}
  }

  datatype Outcome = Value(v: StdVector) | RangeError

  /** Sign extension reads the sign bit without normalising it: a weak '0' or '1' is then out of
      range, unless an 'X' in the columns before has already ended the loop. */
  predicate WeakSign(typ: VecType, l: StdVector, r: StdVector)
    requires l != [] && r != []
  {
    && typ.Signed? && |l| != |r|
    && var s, t := if |l| < |r| then l else r, if |l| < |r| then r else l;
       s[|s| - 1] in {L, H} && !HasX(s) && !HasX(t[..|s|])
  }

  lemma ToBitsSnoc(v: StdVector, b: bool)
    ensures ToBits(v + [FromBit(b)]) == ToBits(v) + [b]
  {
  }

  /** What an operand shows at index i, extension included. */
  function Seen(typ: VecType, v: StdVector, i: nat): StdLogic
    requires v != []
  {
    if i < |v| then ToX01(v[i]) else if typ.Unsigned? then Zero else v[|v| - 1]
  }

  method ReadBit(typ: VecType, v: StdVector, i: nat) returns (b: StdLogic, inRange: bool)
    requires v != []
    ensures b == Seen(typ, v, i) && (inRange <==> IsX01(b))
  {
    if i > |v| - 1 {
      b := if typ.Unsigned? then Zero else v[|v| - 1];
      inRange := IsX01(b);
    } else {
      b, inRange := ToX01(v[i]), true;
    }
  }

  /** No 'X' and no range error in the columns below i. */
  ghost predicate Clean(typ: VecType, v: StdVector, i: nat)
    requires v != []
  {
    && (forall k :: 0 <= k < i && k < |v| ==> v[k] in {Zero, One, L, H})
    && (i > |v| && typ.Signed? ==> v[|v| - 1] in {Zero, One})
  }

  lemma CleanStart(typ: VecType, v: StdVector)
    requires v != []
    ensures Clean(typ, v, 0)
  {
  }

  lemma ReadClean(typ: VecType, v: StdVector, i: nat, n: nat, b: StdLogic)
    requires v != [] && Clean(typ, v, i) && i < n && |v| <= n
    requires b == Seen(typ, v, i)
    ensures b in {Zero, One} ==> Clean(typ, v, i + 1) && Extend(typ, ToBits(v), n)[i] == (b == One)
  {
  }

  /** A value out of range is a weak sign bit that is extended. */
  lemma OutOfRange(typ: VecType, l: StdVector, r: StdVector, i: nat)
    requires l != [] && r != [] && i < Max(|l|, |r|) && Clean(typ, l, i) && Clean(typ, r, i)
    requires !IsX01(Seen(typ, l, i)) || !IsX01(Seen(typ, r, i))
    ensures WeakSign(typ, l, r)
  {
  }

  /** An 'X' comes from an operand, and before any weak sign bit is extended. */
  lemma FoundX(typ: VecType, l: StdVector, r: StdVector, i: nat)
    requires l != [] && r != [] && i < Max(|l|, |r|) && Clean(typ, l, i) && Clean(typ, r, i)
    requires IsX01(Seen(typ, l, i)) && IsX01(Seen(typ, r, i)) && (Seen(typ, l, i) == X || Seen(typ, r, i) == X)
    ensures (HasX(l) || HasX(r)) && !WeakSign(typ, l, r)
  {
  }

  lemma AllClean(typ: VecType, l: StdVector, r: StdVector)
    requires l != [] && r != [] && Clean(typ, l, Max(|l|, |r|)) && Clean(typ, r, Max(|l|, |r|))
    ensures !HasX(l) && !HasX(r) && !WeakSign(typ, l, r)
  {
  }

  /** The adder on two-valued columns that are stored as '0' and '1'. */
  ghost predicate Summed(res: StdVector, carry: bool, x: Bits, y: Bits, first: bool) {
    TwoValued(res) && Rippled(ToBits(res), carry, x, y, first)
  }

  lemma SummedStart(x: Bits, y: Bits, first: bool)
    requires |x| == |y|
    ensures Summed([], first, x, y, first)
  {
    assert ToBits([]) == [];
    RippleStart(x, y, first);
  }

  lemma SummedStep(res: StdVector, carry: bool, x: Bits, y: Bits, first: bool)
    requires |res| < |x| && Summed(res, carry, x, y, first)
    ensures |x| == |y|
    ensures Summed(res + [FromBit(SumBit(carry, y[|res|], x[|res|]))], CarryBit(carry, y[|res|], x[|res|]), x, y, first)
  {
    hide Rippled, SumBit, CarryBit;
    SameLength(res, carry, x, y, first);
    RippleStep(ToBits(res), carry, x, y, first, |res|);
    ToBitsSnoc(res, SumBit(carry, y[|res|], x[|res|]));
  }

  lemma SameLength(res: StdVector, carry: bool, x: Bits, y: Bits, first: bool)
    requires Summed(res, carry, x, y, first)
    ensures |x| == |y|
  {
  }

  lemma SummedValue(op: AddOp, x: Bits, y: Bits, res: StdVector, carry: bool, a: int, b: int)
    requires |res| == |x| == |y| && Summed(res, carry, x, Addend(op, y), op.Sub?)
    requires UVal(x) == a % Pow2(|res|) && UVal(y) == b % Pow2(|res|)
    ensures TwoValued(res) && UVal(ToBits(res)) == Apply(op, a, b) % Pow2(|res|)
  {
    hide Rippled, UVal, Pow2;
    RippleValue(op, x, y, ToBits(res), carry, a, b);
  }

  method VecVecBinary(op: AddOp, typ: VecType, l: StdVector, r: StdVector) returns (out: Outcome)
    ensures l == [] || r == [] ==> out == Value([])
    ensures l != [] && r != [] ==> (out.RangeError? <==> WeakSign(typ, l, r))
    ensures l != [] && r != [] && out.Value? ==>
              && |out.v| == Max(|l|, |r|)
              && (HasX(l) || HasX(r) ==> All(out.v, X))
              && (!HasX(l) && !HasX(r) ==>
                    && TwoValued(out.v)
                    && var a, b := Val(typ, ToBits(l)), Val(typ, ToBits(r));
                       UVal(ToBits(out.v)) == (if op.Add? then a + b else a - b) % Pow2(|out.v|))
  {
    hide UVal, SVal, Pow2, Extend, Clean, Seen, WeakSign, HasX, TwoValued, Summed, SumBit, CarryBit, ToX01;
    if |l| - 1 < 0 || |r| - 1 < 0 {
      return Value([]);
    }
    var n := Max(|l|, |r|);
    var a := new StdLogic[n];
    var carry := op.Sub?;
    ghost var le, re := Extend(typ, ToBits(l), n), Extend(typ, ToBits(r), n);
    SummedStart(le, Addend(op, re), op.Sub?);
    CleanStart(typ, l);
    CleanStart(typ, r);
    for i := 0 to n
      invariant Clean(typ, l, i) && Clean(typ, r, i)
      invariant Summed(a[..i], carry, le, Addend(op, re), op.Sub?)
    {
      var lb, lok := ReadBit(typ, l, i);
      if !lok {
        OutOfRange(typ, l, r, i);
        return RangeError;
      }
      var rb, rok := ReadBit(typ, r, i);
      if !rok {
        OutOfRange(typ, l, r, i);
        return RangeError;
      }
      if lb == X || rb == X {
        FoundX(typ, l, r, i);
        return Value(seq(n, _ => X));
      }
      ReadClean(typ, l, i, n, lb);
      ReadClean(typ, r, i, n, rb);
      var lbit, rbit := lb == One, rb == One;
      if op.Sub? {
        rbit := !rbit;
      }
      SummedStep(a[..i], carry, le, Addend(op, re), op.Sub?);
      SetBit(a, i, FromBit(SumBit(carry, rbit, lbit)));
      carry := CarryBit(carry, rbit, lbit);
    }
    out := Value(a[..]);
    assert a[..n] == out.v;
    AllClean(typ, l, r);
    ExtendMod(typ, ToBits(l), n);
    ExtendMod(typ, ToBits(r), n);
    SummedValue(op, le, re, out.v, carry, Val(typ, ToBits(l)), Val(typ, ToBits(r)));
  }

  // ---- A vector and an integer ------------------------------------------

  /** The integer is too wide for n bits. */
  predicate TooWide(typ: VecType, n: int, width: nat) {
    n >= Pow2(width) || (typ.Signed? && n < -Pow2(width)) || (typ.Unsigned? && n < 0)
  }

  /** When the truncation warning comes: after an 'X' the rest of the integer has been set to 0, which
      is not what is expected of a negative one. */
  predicate Warns(typ: VecType, v: StdVector, n: int) {
    if HasX(v) then n < 0 else TooWide(typ, n, |v|)
  }

  /** -1 fits any vector, yet with an 'X' it is reported as truncated. */
  lemma WarningExample()
    ensures Warns(Signed, [X], -1) && !TooWide(Signed, -1, 1) && !Warns(Signed, [Zero], -1)
  {
    assert ToX01([X][0]) == X;
  }

  /** A weak '0' as the sign of the shorter operand, and no metavalue at all. */
  lemma WeakSignExample()
    ensures WeakSign(Signed, [L], [Zero, Zero]) && !HasX([L]) && !HasX([Zero, Zero])
  {
  }

  method VecIntBinary(op: AddOp, typ: VecType, vecOnLeft: bool, v: StdVector, n: Integer)
    returns (res: StdVector, truncated: bool)
    requires typ.Unsigned? ==> n >= 0
    ensures |res| == |v|
    ensures truncated <==> Warns(typ, v, n)
    ensures HasX(v) ==> All(res, X)
    ensures !HasX(v) ==>
              && TwoValued(res)
              && var a := if vecOnLeft then Val(typ, ToBits(v)) else n;
                 var b := if vecOnLeft then n else Val(typ, ToBits(v));
                 UVal(ToBits(res)) == (if op.Add? then a + b else a - b) % Pow2(|v|)
  {
    hide UVal, SVal, Pow2, Summed, TwoValued, IntBits, SumBit, CarryBit;
    var a := new StdLogic[|v|];
    var carry := op.Sub?;
    var n1: Integer := n;
    ghost var vb, nb := ToBits(v), IntBits(n, |v|);
    ghost var le, re := if vecOnLeft then vb else nb, if vecOnLeft then nb else vb;
    SummedStart(le, Addend(op, re), op.Sub?);
    for i := 0 to |v|
      invariant n1 == Shr(n, i) && (typ.Unsigned? ==> n1 >= 0)
      invariant forall k :: 0 <= k < i ==> ToX01(v[k]) != X
      invariant Summed(a[..i], carry, le, Addend(op, re), op.Sub?)
    {
      var bit := ToX01(v[i]);
      ShrStep(n, i);
      var d, next := ExtractLsb(typ, n1);
      IntBitsAt(n, |v|, i);
      n1 := next;
      if bit == X {
        n1 := 0;
        return seq(|v|, _ => X), n1 != -(if typ.Signed? && n < 0 then 1 else 0);
      }
      var lb, rb := if vecOnLeft then bit == One else d == 1, if vecOnLeft then d == 1 else bit == One;
      if op.Sub? {
        rb := !rb;
      }
      SummedStep(a[..i], carry, le, Addend(op, re), op.Sub?);
      SetBit(a, i, FromBit(SumBit(carry, rb, lb)));
      carry := CarryBit(carry, rb, lb);
    }
    res := a[..];
    assert a[..|v|] == res;
    truncated := n1 != -(if typ.Signed? && n < 0 then 1 else 0);
    ShrZero(n, |v|);
    IntBitsValue(n, |v|);
    ValMod(typ, vb);
    var x := Val(typ, vb);
    SummedValue(op, le, re, res, carry, if vecOnLeft then x else n, if vecOnLeft then n else x);
  }
}
