/** The "*" of numeric_bit: shift-and-add, with a final subtraction for a negative R. */
module NumericMul {
  import opened Vectors
  import opened NumericConvert

  /** Changing the bits of index |p| and above by d changes the vector by d * 2**|p|. */
  lemma SuffixAdd(p: Bits, s: Bits, s': Bits, d: int, w: int)
    requires UVal(s') == UVal(s) + d && w == Pow2(|p|)
    ensures UVal(p + s') == UVal(p + s) + d * w
  {
    hide UVal;
    UValConcat(p, s);
    UValConcat(p, s');
    Distribute(UVal(s'), UVal(s), d, Pow2(|p|));
  }

  lemma Distribute(t: int, a: int, b: int, c: int)
    requires t == a + b
    ensures t * c == a * c + b * c
  {
  }

  lemma DistributeLeft(c: int, t: int, a: int, b: int)
    requires t == a + b
    ensures c * t == c * a + c * b
  {
  }

  /** Once the carry is '0' and only zeros are left to add, nothing changes any more. */
  lemma {:induction false} RippleIdle(done: Bits, rest: Bits, x: Bits, y: Bits, first: bool)
    requires Rippled(done, false, x, y, first) && |done| + |rest| == |y| && y[|done|..] == rest
    requires forall k :: |done| <= k < |x| ==> !x[k]
    ensures Rippled(done + rest, false, x, y, first)
    decreases |rest|
  {
    if rest == [] {
      assert done + rest == done;
    } else {
      var i := |done|;
      RippleStep(done, false, x, y, first, i);
      assert y[i] == rest[0] && SumBit(false, y[i], x[i]) == rest[0];
      RippleIdle(done + [rest[0]], rest[1..], x, y, first);
      assert done + rest == (done + [rest[0]]) + rest[1..];
    }
  }

  /** The meaning of a ripple from bit i: v * 2**i is added modulo 2**n, when the bits that are
      added stand for v modulo 2**(n - i). */
  lemma RowValue(before: Bits, after: Bits, i: nat, x: Bits, carry: bool, first: bool, v: int)
    requires |before| == |after| && i <= |before| && |x| == |before| - i && after[..i] == before[..i]
    requires Rippled(after[i..], carry, x, before[i..], first)
    requires UVal(x) + Weight(first, 1) == v || UVal(x) + Weight(first, 1) == v + Pow2(|x|)
    ensures UVal(after) == (UVal(before) + v * Pow2(i)) % Pow2(|before|)
  {
    RippleDone(after[i..], carry, x, before[i..], first);
    SuffixWrap(before, after, i, v);
  }

  lemma SuffixWrap(before: Bits, after: Bits, i: nat, v: int)
    requires |before| == |after| && i <= |before| && after[..i] == before[..i]
    requires var d, m := UVal(after[i..]) - UVal(before[i..]), Pow2(|before| - i); d == v || d == v - m || d == v + m
    ensures UVal(after) == (UVal(before) + v * Pow2(i)) % Pow2(|before|)
  {
    hide UVal, Pow2;
    var p, s, s' := before[..i], before[i..], after[i..];
    var d, m, w := UVal(s') - UVal(s), Pow2(|s|), Pow2(i);
    Pow2Add(|s|, i);
    Rejoin(before, i);
    Rejoin(after, i);
    SuffixAdd(p, s, s', d, w);
    WrapNear(UVal(before), UVal(after), d, v, m, w, Pow2(|before|));
  }

  lemma Rejoin(v: Bits, i: nat)
    requires i <= |v|
    ensures v == v[..i] + v[i..]
  {
  }

  lemma WrapProduct(d: int, v: int, m: int, w: int)
    requires d == v || d == v - m || d == v + m
    ensures d * w == v * w || d * w == v * w - m * w || d * w == v * w + m * w
  {
  }

  lemma WrapNear(u: int, u': int, d: int, v: int, m: int, w: int, n: int)
    requires n == m * w && 0 <= u' < n && u' == u + d * w
    requires d == v || d == v - m || d == v + m
    ensures u' == (u + v * w) % n
  {
    WrapProduct(d, v, m, w);
    ModNear(u', u + v * w, n);
  }

  lemma RowOperand(typ: VecType, l: Bits, n: nat)
    requires l != [] && |l| <= n
    ensures var x := Extend(typ, l, n);
            && (UVal(x) == Val(typ, l) || UVal(x) == Val(typ, l) + Pow2(n))
            && (UVal(Not(x)) + 1 == -Val(typ, l) || UVal(Not(x)) + 1 == -Val(typ, l) + Pow2(n))
  {
    ValExtend(typ, l, n);
    UValNot(Extend(typ, l, n));
  }

  /** One column: res (i) and the carry take the sum of the carry, res (i) and `lb`. */
  method Column(res: array<bool>, i: nat, lb: bool, carry: bool, ghost lo: nat, ghost x: Bits, ghost y: Bits,
        ghost first: bool)
    returns (carry': bool)
    requires lo <= i < res.Length && |x| == res.Length - lo && x[i - lo] == lb
    requires |y| == |x| && res[i..] == y[i - lo..] && Rippled(res[lo..i], carry, x, y, first)
    modifies res
    ensures res[..lo] == old(res[..lo])
    ensures res[i + 1..] == y[i + 1 - lo..] && Rippled(res[lo..i + 1], carry', x, y, first)
  {
    var vb := res[i];
    assert vb == y[i - lo];
    RippleStep(res[lo..i], carry, x, y, first, i - lo);
    SetBit(res, i, SumBit(carry, vb, lb), lo);
    carry' := CarryBit(carry, vb, lb);
  }

  /** The columns above `l`: UNSIGNED propagates the carry and stops as soon as it is '0',
      SIGNED also adds copies of the sign bit. */
  method Propagate(typ: VecType, res: array<bool>, l: Bits, i: nat, carryIn: bool, ghost x: Bits, ghost y: Bits)
    returns (carry: bool)
    requires l != [] && i + |l| < res.Length && x == Extend(typ, l, res.Length - i) && |y| == |x|
    requires res[i + |l|..] == y[|l|..] && Rippled(res[i..i + |l|], carryIn, x, y, false)
    modifies res
    ensures res[..i] == old(res[..i])
    ensures Rippled(res[i..], carry, x, y, false)
  {
    hide Rippled, UVal, Pow2;
    carry := carryIn;
    var lb := typ.Signed? && l[|l| - 1];
    for j := i + |l| to res.Length
      invariant res[..i] == old(res[..i]) && res[j..] == y[j - i..]
      invariant Rippled(res[i..j], carry, x, y, false)
    {
      if typ.Unsigned? && !carry {
        RippleIdle(res[i..j], res[j..], x, y, false);
        assert res[i..j] + res[j..] == res[i..];
        return;
      }
      carry := Column(res, j, lb, carry, i, x, y, false);
    }
    assert res[i..res.Length] == res[i..];
  }

  /** res := res + shift_left (l, i), on the whole result. */
  method AddRow(typ: VecType, res: array<bool>, l: Bits, i: nat) returns (carry: bool)
    requires l != [] && i + |l| < res.Length
    modifies res
    ensures UVal(res[..]) == (old(UVal(res[..])) + Val(typ, l) * Pow2(i)) % Pow2(res.Length)
  {
    hide Rippled, UVal, Pow2, SVal;
    carry := false;
    ghost var before := res[..];
    ghost var x, y, p := Extend(typ, l, res.Length - i), before[i..], before[..i];
    RippleStart(x, y, false);
    assert res[i..i] == [];
    for j := 0 to |l|
      invariant res[..i] == p && res[i + j..] == y[j..]
      invariant Rippled(res[i..i + j], carry, x, y, false)
    {
      carry := Column(res, i + j, l[j], carry, i, x, y, false);
    }
    carry := Propagate(typ, res, l, i, carry, x, y);
    ghost var after := res[..];
    assert res[i..] == after[i..];
    RowOperand(typ, l, |x|);
    RowValue(before, after, i, x, carry, false, Val(typ, l));
  }

  /** res := res - 2**i * l, where l is sign extended by the one bit that is left. */
  method SubTop(res: array<bool>, l: Bits, i: nat) returns (carry: bool)
    requires l != [] && res.Length == i + |l| + 1
    modifies res
    ensures UVal(res[..]) == (old(UVal(res[..])) - SVal(l) * Pow2(i)) % Pow2(res.Length)
  {
    hide Rippled, UVal, Pow2, SVal, SumBit, CarryBit;
    carry := true;
    ghost var before := res[..];
    ghost var x, y, p := Not(Extend(Signed, l, |l| + 1)), before[i..], before[..i];
    RippleStart(x, y, true);
    assert res[i..i] == [];
    for j := 0 to |l|
      invariant res[..i] == p && res[i + j..] == y[j..]
      invariant Rippled(res[i..i + j], carry, x, y, true)
    {
      carry := Column(res, i + j, !l[j], carry, i, x, y, true);
    }
    carry := Column(res, i + |l|, !l[|l| - 1], carry, i, x, y, true);
    ghost var after := res[..];
    assert res[i..res.Length] == after[i..];
    RowOperand(Signed, l, |x|);
    NegateProduct(SVal(l), Pow2(i));
    RowValue(before, after, i, x, carry, true, -SVal(l));
  }

  // ---- The running product ----------------------------------------------

  lemma MulMono(a: int, b: int, c: int, d: int)
    requires 0 <= a <= c && 0 <= b <= d
    ensures 0 <= a * b <= c * d
  {
    assert a * b <= a * d <= c * d;
  }

  /** Partial products stay inside the range of the result type. */
  lemma ProductRange(typ: VecType, l: Bits, u: nat, k: nat, n: nat)
    requires l != [] && u < Pow2(k) && |l| + k <= n && (typ.Signed? ==> |l| + k < n)
    ensures InRange(typ, Val(typ, l) * u, n)
  {
    SValRange(l);
    Pow2Add(|l|, k);
    Pow2Mono(|l| + k, if typ.Signed? then n - 1 else n);
    if Val(typ, l) >= 0 {
      MulMono(Val(typ, l), u, Pow2(|l|) - 1, Pow2(k));
      Distribute(Pow2(|l|) - 1, Pow2(|l|), -1, Pow2(k));
    } else {
      NegateProduct(Val(typ, l), u);
      MulMono(-Val(typ, l), u, Pow2(|l|), Pow2(k));
    }
  }

  ghost predicate InRange(typ: VecType, x: int, n: nat)
    requires n > 0
  {
    if typ.Unsigned? then 0 <= x < Pow2(n) else -Pow2(n - 1) <= x < Pow2(n - 1)
  }

  /** Adding into a vector gives the exact sum when that sum is in range. */
  lemma ExactSum(typ: VecType, before: Bits, after: Bits, d: int)
    requires before != [] && |after| == |before|
    requires UVal(after) == (UVal(before) + d) % Pow2(|before|)
    requires InRange(typ, Val(typ, before) + d, |before|)
    ensures Val(typ, after) == Val(typ, before) + d
  {
    hide UVal, Pow2;
    if typ.Unsigned? {
      DivModUnique(UVal(before) + d, 0, UVal(before) + d, Pow2(|before|));
    } else {
      assert (SVal(before) + d) % Pow2(|before|) == UVal(after) by {
        ModShift(SVal(before) + d, if Negative(before) then 1 else 0, Pow2(|before|));
      }
      SValFromMod(after, SVal(before) + d);
    }
  }

  lemma ZeroVector(v: Bits)
    requires forall k :: 0 <= k < |v| ==> !v[k]
    ensures UVal(v) == SVal(v) == 0
  {
    assert v == [] + Fill(false, |v|);
    UValPad([], false, |v|);
  }

  /** The sign bit of R counts as -2**(R'length - 1). */
  lemma SValTop(r: Bits)
    requires r != []
    ensures SVal(r) == UVal(r[..|r| - 1]) - Weight(r[|r| - 1], Pow2(|r| - 1))
  {
  }

  /** The product of two SIGNED values always fits: even the square of the most negative one. */
  lemma SignedProductRange(l: Bits, r: Bits)
    requires l != [] && r != []
    ensures InRange(Signed, SVal(l) * SVal(r), |l| + |r|)
  {
    SValRange(l);
    SValRange(r);
    var a, b := SVal(l), SVal(r);
    var x, y := Pow2(|l| - 1), Pow2(|r| - 1);
    Pow2Add(|l| - 1, |r| - 1);
    assert Pow2(|l| + |r| - 1) == 2 * (x * y);
    MulMono(if a < 0 then -a else a, if b < 0 then -b else b, x, y);
    SignProduct(a, b);
  }

  lemma SignProduct(a: int, b: int)
    ensures var p := (if a < 0 then -a else a) * (if b < 0 then -b else b); p == a * b || p == -(a * b)
  {
  }

  /** `res` holds the product of `l` and the first i bits of `r`. */
  ghost predicate Partial(typ: VecType, res: Bits, l: Bits, r: Bits, i: nat) {
    i <= |r| && Val(typ, res) == Val(typ, l) * UVal(r[..i])
  }

  lemma PartialStep(typ: VecType, before: Bits, after: Bits, l: Bits, r: Bits, i: nat)
    requires l != [] && i < |r| && |before| == |after| == |l| + |r| && (typ.Signed? ==> i + 1 < |r|)
    requires Partial(typ, before, l, r, i)
    requires if r[i] then UVal(after) == (UVal(before) + Val(typ, l) * Pow2(i)) % Pow2(|before|) else after == before
    ensures Partial(typ, after, l, r, i + 1)
  {
    hide UVal, SVal, Pow2;
    var u, v := UVal(r[..i + 1]), Val(typ, l);
    UValStep(r, i);
    if r[i] {
      var d := v * Pow2(i);
      assert Val(typ, before) + d == v * u by {
        DistributeLeft(v, u, UVal(r[..i]), Pow2(i));
      }
      ProductRange(typ, l, u, i + 1, |before|);
      ExactSum(typ, before, after, d);
    }
  }

  lemma PartialLast(before: Bits, after: Bits, l: Bits, r: Bits)
    requires l != [] && r != [] && |before| == |after| == |l| + |r|
    requires Partial(Signed, before, l, r, |r| - 1)
    requires if r[|r| - 1] then UVal(after) == (UVal(before) - SVal(l) * Pow2(|r| - 1)) % Pow2(|before|)
             else after == before
    ensures SVal(after) == SVal(l) * SVal(r)
  {
    hide UVal, SVal, Pow2;
    var n := |r| - 1;
    SValTop(r);
    if r[n] {
      var d := -(SVal(l) * Pow2(n));
      assert SVal(before) + d == SVal(l) * SVal(r) by {
        DistributeLeft(SVal(l), UVal(r[..n]), SVal(r), Pow2(n));
      }
      SignedProductRange(l, r);
      ExactSum(Signed, before, after, d);
    }
  }

  /** "*": the exact product, in as many bits as both operands have together. */
  method VecVecMul(typ: VecType, l: Bits, r: Bits) returns (res: Bits)
    ensures l == [] || r == [] ==> res == []
    ensures l != [] && r != [] ==> |res| == |l| + |r| && Val(typ, res) == Val(typ, l) * Val(typ, r)
  {
    hide UVal, SVal, Pow2;
    if |l| == 0 || |r| == 0 {
      return [];
    }
    var a := new bool[|l| + |r|](_ => false);
    var rows := if typ.Signed? then |r| - 1 else |r|;
    ZeroVector(a[..]);
    ZeroVector(r[..0]);
    for i := 0 to rows
      invariant Partial(typ, a[..], l, r, i)
    {
      ghost var before := a[..];
      if r[i] {
        var carry := AddRow(typ, a, l, i);
      }
      PartialStep(typ, before, a[..], l, r, i);
    }
    if typ.Signed? {
      ghost var before := a[..];
      if r[|r| - 1] {
        var carry := SubTop(a, l, |r| - 1);
      }
      PartialLast(before, a[..], l, r);
    } else {
      assert r[..rows] == r;
    }
    res := a[..];
  }

  /** Vector times integer, in either order: the integer is first cut to the width of the vector, so
      the product is exact if and only if the integer fits there or the vector is zero. */
  method VecIntMul(typ: VecType, v: Bits, n: Integer) returns (res: Bits)
    requires typ.Unsigned? ==> n >= 0
    ensures v == [] ==> res == []
    ensures v != [] ==> |res| == 2 * |v| && Val(typ, res) == Val(typ, v) * Val(typ, IntBits(n, |v|))
    ensures v != [] ==> (Val(typ, res) == Val(typ, v) * n <==> Val(typ, v) == 0 || InRange(typ, n, |v|))
  {
    hide UVal, SVal, Pow2;
    if |v| == 0 {
      return [];
    }
    var w, truncated;
    if typ.Unsigned? {
      w, truncated := ToUnsigned(n, |v|);
    } else {
      w, truncated := ToSigned(n, |v|);
    }
    res := VecVecMul(typ, v, w);
    CutKeeps(typ, n, |v|);
    SameProduct(Val(typ, v), Val(typ, w), n);
  }

  /** Cutting an integer to a width keeps it exactly when it fits. */
  lemma CutKeeps(typ: VecType, n: int, width: nat)
    requires width > 0
    ensures Val(typ, IntBits(n, width)) == n <==> InRange(typ, n, width)
  {
    hide UVal, SVal, Pow2;
    var v := IntBits(n, width);
    IntBitsValue(n, width);
    SValRange(v);
    if InRange(typ, n, width) {
      if typ.Unsigned? {
        DivModUnique(n, 0, n, Pow2(width));
      } else {
        SValFromMod(v, n);
      }
    }
  }

  lemma SameProduct(a: int, b: int, c: int)
    ensures a * b == a * c <==> a == 0 || b == c
  {
    assert a * (b - c) == a * b - a * c;
    if a != 0 && b != c {
      if b > c { NonZero(a, b - c); } else { NonZero(a, c - b); assert a * (c - b) == a * c - a * b; }
    }
  }

  lemma NonZero(a: int, d: int)
    requires a != 0 && d > 0
    ensures a * d != 0
  {
  }
}
