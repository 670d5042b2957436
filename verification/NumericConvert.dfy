/** Conversions between integers and vectors: to_unsigned, to_signed, size_unsigned,
    size_signed and resize. */
module NumericConvert {
  import opened Vectors

  /** n halved i times, rounding down. */
  function Shr(n: int, i: nat): int
    decreases i
  {
    if i == 0 then n else Shr(n / 2, i - 1)
  }

  /** The k low bits of n in two's complement. */
  function IntBits(n: int, k: nat): (v: Bits)
    ensures |v| == k
  {
    if k == 0 then [] else IntBits(n, k - 1) + [Shr(n, k - 1) % 2 == 1]
  }

  lemma {:induction false} ShrStep(n: int, i: nat)
    ensures Shr(n, i + 1) == Shr(n, i) / 2
    decreases i
  {
    if i != 0 { ShrStep(n / 2, i - 1); }
  }

  lemma {:induction false} ShrZero(n: int, i: nat)
    ensures Shr(n, i) == 0 <==> 0 <= n < Pow2(i)
    ensures Shr(n, i) == -1 <==> -Pow2(i) <= n < 0
    decreases i
  {
    if i != 0 { ShrZero(n / 2, i - 1); }
  }

  /** Low bits and floored quotient together are the number. */
  lemma {:induction false} IntBitsSplit(n: int, k: nat)
    ensures n == Shr(n, k) * Pow2(k) + UVal(IntBits(n, k))
  {
    if k == 0 {
      assert Shr(n, 0) == n && Pow2(0) == 1 && UVal(IntBits(n, 0)) == 0;
    } else {
      IntBitsSplit(n, k - 1);
      IntBitsSnoc(n, k);
      hide IntBits, Shr, Pow2, UVal;
      MulHalf(Shr(n, k - 1), Shr(n, k), Shr(n, k - 1) % 2 == 1, Pow2(k - 1), Pow2(k));
    }
  }

  lemma IntBitsSnoc(n: int, k: nat)
    requires k > 0
    ensures var b := Shr(n, k - 1) % 2 == 1;
            && UVal(IntBits(n, k)) == UVal(IntBits(n, k - 1)) + Weight(b, Pow2(k - 1))
            && Shr(n, k - 1) == 2 * Shr(n, k) + Weight(b, 1) && Pow2(k) == 2 * Pow2(k - 1)
  {
    hide UVal;
    ShrStep(n, k - 1);
    UValSnoc(IntBits(n, k - 1), Shr(n, k - 1) % 2 == 1);
  }

  lemma MulHalf(q: int, h: int, b: bool, m: int, m2: int)
    requires q == 2 * h + Weight(b, 1) && m2 == 2 * m
    ensures q * m == h * m2 + Weight(b, m)
  {
    assert h * m2 == 2 * h * m;
  }

  lemma IntBitsValue(n: int, k: nat)
    ensures UVal(IntBits(n, k)) == n % Pow2(k)
    ensures Shr(n, k) == n / Pow2(k)
  {
    IntBitsSplit(n, k);
    DivModUnique(n, Shr(n, k), UVal(IntBits(n, k)), Pow2(k));
  }

  /** -(n+1) complements every bit, which is how to_signed avoids negating n. */
  lemma {:induction false} ShrNot(n: int, i: nat)
    ensures Shr(-(n + 1), i) == -(Shr(n, i) + 1)
    decreases i
  {
    if i != 0 {
      assert -(n + 1) / 2 == -(n / 2 + 1);
      ShrNot(n / 2, i - 1);
    }
  }

  lemma {:induction false} IntBitsAt(n: int, k: nat, i: nat)
    requires i < k
    ensures IntBits(n, k)[i] == (Shr(n, i) % 2 == 1)
  {
    if i < k - 1 { IntBitsAt(n, k - 1, i); }
  }

  /** VHDL's "/" by 2, which rounds toward zero. */
  function TruncHalf(n: int): int {
    if n < 0 then -(-n / 2) else n / 2
  }

  /** The digit and the quotient one iteration takes from the integer: for negative numbers the
      truncated half is corrected, so the pair is always that of floor division. */
  method ExtractLsb(typ: VecType, n1: Integer) returns (d: nat, next: Integer)
    requires typ.Unsigned? ==> n1 >= 0
    ensures next == n1 / 2 && d == n1 % 2
  {
    var n2: Integer := TruncHalf(n1);
    if typ.Signed? && n1 < 0 {
      d := 2 * n2 - n1;
      next := n2 - d;
    } else {
      d := n1 - 2 * n2;
      next := n2;
    }
  }

  method ToUnsigned(arg: Natural, size: nat) returns (res: Bits, truncated: bool)
    ensures res == IntBits(arg, size)
    ensures UVal(res) == arg % Pow2(size)
    ensures truncated <==> size != 0 && arg >= Pow2(size)
  {
    if size == 0 {
      return [], false;
    }
    var a := new bool[size];
    var n: Natural := arg;
    for i := 0 to size
      invariant n == Shr(arg, i)
      invariant a[..i] == IntBits(arg, i)
    {
      ShrStep(arg, i);
      SetBit(a, i, n % 2 == 1);
      n := n / 2;
    }
    res := a[..];
    assert a[..size] == res;
    truncated := n != 0;
    IntBitsValue(arg, size);
    ShrZero(arg, size);
  }

  method ToSigned(arg: Integer, size: nat) returns (res: Bits, truncated: bool)
    ensures res == IntBits(arg, size)
    ensures size != 0 ==> (truncated <==> !(-Pow2(size - 1) <= arg < Pow2(size - 1)))
    ensures size != 0 && !truncated ==> SVal(res) == arg
  {
    if size == 0 {
      return [], false;
    }
    var a := new bool[size];
    var v: Integer;
    var b0, b1;
    if arg < 0 {
      v := -(arg + 1);
      b0, b1 := true, false;
    } else {
      v := arg;
      b0, b1 := false, true;
    }
    ghost var start := v;
    for i := 0 to size
      invariant v == Shr(start, i)
      invariant a[..i] == IntBits(arg, i)
    {
      ShrStep(start, i);
      ShrNot(arg, i);
      var d := v % 2;
      v := v / 2;
      SetBit(a, i, if d == 0 then b0 else b1);
    }
    res := a[..];
    assert a[..size] == res;
    truncated := v != 0 || res[size - 1] != b0;
    SignFits(arg, size);
    ShrNot(arg, size);
    if !truncated {
      IntBitsSigned(arg, size);
    }
  }

  /** The truncation test of to_signed: what is left of the number, and the sign bit. */
  lemma SignFits(arg: int, size: nat)
    requires size != 0
    ensures Shr(arg, size) == (if arg < 0 then -1 else 0) && Negative(IntBits(arg, size)) == (arg < 0)
            <==> -Pow2(size - 1) <= arg < Pow2(size - 1)
  {
    ShrZero(arg, size - 1);
    ShrStep(arg, size - 1);
  }

  lemma IntBitsSigned(arg: int, size: nat)
    requires size != 0 && -Pow2(size - 1) <= arg < Pow2(size - 1)
    ensures SVal(IntBits(arg, size)) == arg
  {
    IntBitsValue(arg, size);
    SValFromMod(IntBits(arg, size), arg);
  }

  /** The least width that holds n, at least one bit. */
  method SizeUnsigned(n: Natural) returns (res: nat)
    ensures res >= 1 && n < Pow2(res)
    ensures res > 1 ==> n >= Pow2(res - 1)
  {
    res := 1;
    var n1: Natural := n;
    while n1 > 1
      invariant res >= 1 && n1 == Shr(n, res - 1)
      invariant res == 1 || n1 >= 1
    {
      ShrStep(n, res - 1);
      res := res + 1;
      n1 := n1 / 2;
    }
    ShrStep(n, res - 1);
    ShrZero(n, res - 1);
    ShrZero(n, res);
  }

  /** The least width whose two's complement range holds n. */
  method SizeSigned(n: Integer) returns (res: nat)
    ensures res >= 1 && -Pow2(res - 1) <= n < Pow2(res - 1)
    ensures res > 1 ==> !(-Pow2(res - 2) <= n < Pow2(res - 2))
  {
    res := 1;
    var n1: Natural;
    if n >= 0 {
      n1 := n;
    } else {
      n1 := -(n + 1);
    }
    ghost var start := n1;
    while n1 != 0
      invariant res >= 1 && n1 == Shr(start, res - 1)
      invariant res == 1 || start >= Pow2(res - 2)
    {
      ShrStep(start, res - 1);
      ShrZero(start, res - 1);
      res := res + 1;
      n1 := n1 / 2;
    }
    ShrZero(start, res - 1);
  }

  /** Reduction keeps the low bits, SIGNED reduction also the sign bit; expansion extends. */
  function Resized(typ: VecType, arg: Bits, n: nat): (res: Bits)
    ensures |res| == n
  {
    if arg == [] then Fill(false, n)
    else if |arg| <= n then Extend(typ, arg, n)
    else if typ.Unsigned? || n == 0 then arg[..n]
    else arg[..n - 1] + [arg[|arg| - 1]]
  }

  method Resize(typ: VecType, arg: Bits, newSize: nat) returns (res: Bits)
    ensures res == Resized(typ, arg, newSize)
  {
    var a := new bool[newSize](_ => false);
    if newSize == 0 {
      return [];
    }
    if |arg| == 0 {
      return a[..];
    }
    if |arg| > newSize {
      if typ.Signed? {
        a[newSize - 1] := arg[|arg| - 1];
        forall k | 0 <= k < newSize - 1 { a[k] := arg[k]; }
      } else {
        forall k | 0 <= k < newSize { a[k] := arg[k]; }
      }
    } else {
      forall k | 0 <= k < |arg| { a[k] := arg[k]; }
      if typ.Signed? {
        forall k | |arg| <= k < newSize { a[k] := arg[|arg| - 1]; }
      }
    }
    res := a[..];
  }

  /** UNSIGNED resize is reduction modulo the new range. */
  lemma ResizeUnsigned(arg: Bits, n: nat)
    ensures UVal(Resized(Unsigned, arg, n)) == UVal(arg) % Pow2(n)
  {
    if arg == [] || |arg| <= n {
      assert Resized(Unsigned, arg, n) == arg + Fill(false, n - |arg|);
      UValPad(arg, false, n - |arg|);
      DivModUnique(UVal(arg), 0, UVal(arg), Pow2(n));
    } else {
      UValSplit(arg, n);
    }
  }

  /** SIGNED resize keeps the sign and the value modulo half the range; it keeps the value
      exactly when the value fits. */
  lemma ResizeSigned(arg: Bits, n: nat)
    requires arg != [] && n != 0
    ensures var res := Resized(Signed, arg, n);
            && Negative(res) == Negative(arg)
            && SVal(res) % Pow2(n - 1) == SVal(arg) % Pow2(n - 1)
            && (SVal(res) == SVal(arg) <==> -Pow2(n - 1) <= SVal(arg) < Pow2(n - 1))
  {
    var res := Resized(Signed, arg, n);
    SValRange(res);
    if |arg| <= n {
      ValExtend(Signed, arg, n);
    } else {
      assert arg[..n - 1] == res[..n - 1];
      UValSplit(arg, n - 1);
      UValSplit(res, n - 1);
      SValMod(arg, n - 1);
      SValMod(res, n - 1);
      SameSignSameMod(SVal(arg), SVal(res), Pow2(n - 1));
    }
  }

  lemma SameSignSameMod(x: int, y: int, m: int)
    requires m > 0 && x % m == y % m && (x < 0) == (y < 0) && -m <= y < m
    ensures x == y <==> -m <= x < m
  {
    if -m <= x < m {
      DivModUnique(x, if x < 0 then -1 else 0, if x < 0 then x + m else x, m);
      DivModUnique(y, if y < 0 then -1 else 0, if y < 0 then y + m else y, m);
    }
  }

  lemma SValMod(v: Bits, k: nat)
    requires k <= |v|
    ensures SVal(v) % Pow2(k) == UVal(v) % Pow2(k)
  {
    hide UVal, Pow2;
    Pow2Add(|v| - k, k);
    ModMinusProduct(UVal(v), Pow2(|v|), Pow2(|v| - k), Pow2(k));
  }
}
