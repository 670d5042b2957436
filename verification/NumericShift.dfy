/** shift_left, shift_right, "sll", "srl" and the rotations. */
module NumericShift {
  import opened Vectors
  import opened NumericAdd
  import opened NumericConvert
  import opened NumericMul

  /** The bits of `arg` moved k places up (down when k is negative); `fill` enters. */
  function Shifted(arg: Bits, fill: bool, k: int): Bits {
    seq(|arg|, i requires 0 <= i < |arg| => if 0 <= i - k < |arg| then arg[i - k] else fill)
  }

  /** The index whose bit is turned k places up to index i. */
  function Turn(i: int, k: int, n: nat): (j: nat)
    requires n > 0
    ensures j < n
  {
    (i - k) % n
  }

  /** The bits of `arg` turned k places up. */
  function Rotated(arg: Bits, k: int): Bits {
    seq(|arg|, i requires 0 <= i < |arg| => arg[Turn(i, k, |arg|)])
  }

  /** The slice assignments of gen_shift: up by `count`, or down when `inv`erted. */
  method MoveBits(res: array<bool>, arg: Bits, up: bool, count: nat)
    requires res.Length == |arg| && count < |arg|
    modifies res
    ensures up ==> forall i :: 0 <= i < |arg| ==> res[i] == if i >= count then arg[i - count] else old(res[i])
    ensures !up ==> forall i :: 0 <= i < |arg| ==> res[i] == if i < |arg| - count then arg[i + count] else old(res[i])
  {
    if up {
      forall i | count <= i < |arg| { res[i] := arg[i - count]; }
    } else {
      forall i | 0 <= i < |arg| - count { res[i] := arg[i + count]; }
    }
  }

  /** What the shifts have in common: nothing is copied when everything is shifted out. */
  method MoveAll(arg: Bits, fill: bool, up: bool, count: nat) returns (res: Bits)
    requires arg != []
    ensures up ==> res == Shifted(arg, fill, count)
    ensures !up ==> res == Shifted(arg, fill, 0 - count)
  {
    var a := new bool[|arg|](_ => fill);
    if count <= |arg| - 1 {
      MoveBits(a, arg, up, count);
    }
    res := a[..];
  }

  /** shift_left and shift_right: multiplication by 2**count modulo the range, and division rounding
      down. */
  method Shift(typ: VecType, left: bool, arg: Bits, count: Natural) returns (res: Bits)
    ensures left ==> res == Shifted(arg, false, count)
    ensures left ==> UVal(res) == UVal(arg) * Pow2(count) % Pow2(|arg|)
    ensures !left ==> res == Shifted(arg, typ.Signed? && Negative(arg), 0 - count)
    ensures !left && arg != [] ==> Val(typ, res) == Val(typ, arg) / Pow2(count)
  {
    hide UVal, SVal, Pow2;
    if |arg| == 0 {
      res := [];
    } else {
      res := MoveAll(arg, typ.Signed? && !left && Negative(arg), left, count);
    }
    if left {
      ShiftLeftValue(arg, count);
    } else if arg != [] {
      ShiftRightValue(typ, arg, count);
    }
  }

  /** "sll" and "srl": a negative count shifts the other way. */
  method ShiftOp(left: bool, arg: Bits, count: Integer) returns (res: Bits)
    ensures left ==> res == Shifted(arg, false, count)
    ensures left && count >= 0 ==> UVal(res) == UVal(arg) * Pow2(count) % Pow2(|arg|)
    ensures left && count <= 0 ==> UVal(res) == UVal(arg) / Pow2(0 - count)
    ensures !left ==> res == Shifted(arg, false, 0 - count)
    ensures !left && count >= 0 ==> UVal(res) == UVal(arg) / Pow2(count)
    ensures !left && count <= 0 ==> UVal(res) == UVal(arg) * Pow2(0 - count) % Pow2(|arg|)
  {
    hide UVal, Pow2;
    if |arg| == 0 {
      res := [];
    } else if count >= 0 {
      res := MoveAll(arg, false, left, count);
    } else {
      res := MoveAll(arg, false, !left, 0 - count);
    }
    if left {
      ShiftOpValue(arg, count);
    } else {
      ShiftOpValue(arg, 0 - count);
    }
  }

  lemma ShiftOpValue(arg: Bits, k: int)
    ensures k >= 0 ==> UVal(Shifted(arg, false, k)) == UVal(arg) * Pow2(k) % Pow2(|arg|)
    ensures k <= 0 ==> UVal(Shifted(arg, false, k)) == UVal(arg) / Pow2(0 - k)
  {
    if k >= 0 {
      ShiftLeftValue(arg, k);
    }
    if k <= 0 && arg != [] {
      ShiftRightValue(Unsigned, arg, 0 - k);
    }
    if k <= 0 && arg == [] {
      assert Shifted(arg, false, k) == [];
      DivModUnique(0, 0, 0, Pow2(0 - k));
    }
  }

  /** rotate_left, rotate_right, "rol" and "ror": bit i moves to i + count or to i - count, modulo the
      length. */
  method Rotate(left: bool, arg: Bits, count: Integer) returns (res: Bits)
    ensures |res| == |arg|
    ensures left ==> res == Rotated(arg, count)
    ensures left ==> forall i :: 0 <= i < |arg| ==> res[(i + count) % |arg|] == arg[i]
    ensures !left ==> res == Rotated(arg, 0 - count)
    ensures !left ==> forall i :: 0 <= i < |arg| ==> res[(i - count) % |arg|] == arg[i]
  {
    hide Rotated;
    if |arg| == 0 {
      res := [];
    } else {
      res := RotateSlices(left, arg, count);
    }
    if left {
      RotatedTo(arg, count);
    } else {
      RotatedTo(arg, 0 - count);
    }
  }

  method RotateSlices(left: bool, arg: Bits, count: Integer) returns (res: Bits)
    requires arg != []
    ensures |res| == |arg|
    ensures left ==> res == Rotated(arg, count)
    ensures !left ==> res == Rotated(arg, 0 - count)
  {
    var n := |arg|;
    var a := new bool[n](_ => false);
    var cnt := count % n;
    if left {
      forall i | cnt <= i < n { a[i] := arg[i - cnt]; }
      forall i | 0 <= i < cnt { a[i] := arg[n - cnt + i]; }
    } else {
      forall i | 0 <= i < n - cnt { a[i] := arg[i + cnt]; }
      forall i | n - cnt <= i < n { a[i] := arg[i - (n - cnt)]; }
    }
    res := a[..];
    RotatedIndices(arg, left, count, res);
  }

  /** Where the slices of a rotation put each bit. */
  lemma RotatedIndices(arg: Bits, left: bool, count: int, res: Bits)
    requires arg != [] && |res| == |arg|
    requires left ==> forall i :: 0 <= i < |arg| ==> res[i] == arg[Wrap(i, count % |arg|, |arg|)]
    requires !left ==> forall i :: 0 <= i < |arg| ==> res[i] == arg[Wrap(i, 0 - count % |arg|, |arg|)]
    ensures left ==> res == Rotated(arg, count)
    ensures !left ==> res == Rotated(arg, 0 - count)
  {
    var k := if left then count else 0 - count;
    forall i | 0 <= i < |arg| ensures res[i] == Rotated(arg, k)[i] {
      TurnIndex(i, left, count, |arg|);
    }
  }

  /** Index i - k, brought back into 0 .. n-1 when it is off by less than n. */
  function Wrap(i: nat, k: int, n: nat): (w: nat)
    requires i < n && 0 < k + n < 2 * n
    ensures w < n
  {
    if i - k < 0 then i - k + n else if i - k >= n then i - k - n else i - k
  }

  lemma TurnIndex(i: nat, left: bool, count: int, n: nat)
    requires i < n
    ensures left ==> Wrap(i, count % n, n) == Turn(i, count, n)
    ensures !left ==> Wrap(i, 0 - count % n, n) == Turn(i, 0 - count, n)
  {
    var k := if left then count % n else 0 - count % n;
    if left {
      ModRight(i, count, n);
    } else {
      ModLeft(count, i, n);
    }
    ModNear(Wrap(i, k, n), i - k, n);
  }

  /** Bit i is turned to index i + k, modulo the length. */
  lemma RotatedTo(arg: Bits, k: int)
    ensures |Rotated(arg, k)| == |arg|
    ensures forall i :: 0 <= i < |arg| ==> Rotated(arg, k)[(i + k) % |arg|] == arg[i]
  {
    var n := |arg|;
    forall i | 0 <= i < n ensures Rotated(arg, k)[(i + k) % n] == arg[i] {
      ModLeft(i + k, 0 - k, n);
      TurnZero(i, n);
    }
  }

  // ---- What they compute ------------------------------------------------

  /** Left: multiplication by 2**count, modulo the range. */
  lemma ShiftLeftValue(arg: Bits, count: nat)
    ensures UVal(Shifted(arg, false, count)) == UVal(arg) * Pow2(count) % Pow2(|arg|)
  {
    hide UVal, Pow2;
    var n := |arg|;
    var res := Shifted(arg, false, count);
    var u, q, m := UVal(arg), Pow2(count), Pow2(n);
    if count < n {
      var lo, hi, p := arg[..n - count], arg[n - count..], Pow2(n - count);
      assert UVal(res) == UVal(lo) * q by {
        assert res == Fill(false, count) + lo;
        UValConcat(Fill(false, count), lo);
        ZeroVector(Fill(false, count));
      }
      UValSplit(arg, n - count);
      Pow2Add(n - count, count);
      ShiftProduct(u, UVal(lo), UVal(hi), p, q, m);
      DivModUnique(u * q, UVal(hi), UVal(res), m);
    } else {
      ZeroVector(res);
      Pow2Add(count - n, n);
      ShiftOut(u, q, Pow2(count - n), m);
    }
  }

  lemma ShiftProduct(u: int, lo: int, hi: int, p: int, q: int, m: int)
    requires u == lo + hi * p && m == p * q
    ensures u * q == hi * m + lo * q
  {
    assert u * q == lo * q + (hi * p) * q;
    assert (hi * p) * q == hi * (p * q);
  }

  lemma ShiftOut(u: int, t: int, p: int, m: int)
    requires m > 0 && t == p * m
    ensures u * t % m == 0
  {
    assert u * t == (u * p) * m;
    DivModUnique(u * t, u * p, 0, m);
  }

  /** Right: division by 2**count rounding down, for UNSIGNED and, with sign fill, for SIGNED. */
  lemma ShiftRightValue(typ: VecType, arg: Bits, count: nat)
    requires arg != []
    ensures Val(typ, Shifted(arg, typ.Signed? && Negative(arg), 0 - count)) == Val(typ, arg) / Pow2(count)
  {
    hide UVal, SVal;
    var n := |arg|;
    var fill := typ.Signed? && Negative(arg);
    var res := Shifted(arg, fill, 0 - count);
    var wide := Extend(typ, arg, n + count);
    ValExtend(typ, arg, n + count);
    assert res == wide[count..];
    UValSplit(wide, count);
    ShiftedDown(typ, res, wide, count);
  }

  lemma ShiftedDown(typ: VecType, res: Bits, wide: Bits, count: nat)
    requires res != [] && |wide| == |res| + count && res == wide[count..]
    ensures Val(typ, res) == Val(typ, wide) / Pow2(count)
  {
    hide UVal, Pow2;
    var q, low, u, m := Pow2(count), UVal(wide[..count]), UVal(res), Pow2(|res|);
    assert UVal(wide) == low + u * q by { UValSplit(wide, count); }
    assert Negative(wide) == Negative(res);
    if typ.Signed? && Negative(res) {
      assert Pow2(|wide|) == m * q by { Pow2Add(|res|, count); }
      Distribute(u - m, u, -m, q);
      NegateProduct(m, q);
      DivModUnique(SVal(wide), u - m, low, q);
    } else {
      DivModUnique(UVal(wide), u, low, q);
    }
  }

  lemma TurnTwice(i: int, a: int, b: int, n: nat)
    requires n > 0
    ensures Turn(Turn(i, b, n), a, n) == Turn(i, a + b, n)
  {
    ModLeft(i - b, -a, n);
  }

  lemma TurnZero(i: nat, n: nat)
    requires i < n
    ensures Turn(i, 0, n) == i
  {
    DivModUnique(i, 0, i, n);
  }

  /** Rotations compose by adding their counts. */
  lemma RotateCompose(arg: Bits, a: int, b: int)
    ensures Rotated(Rotated(arg, a), b) == Rotated(arg, a + b)
  {
    hide Turn;
    forall i | 0 <= i < |arg| ensures Rotated(Rotated(arg, a), b)[i] == Rotated(arg, a + b)[i] {
      TurnTwice(i, a, b, |arg|);
    }
  }

  lemma RotateZero(arg: Bits)
    ensures Rotated(arg, 0) == arg
  {
    forall i | 0 <= i < |arg| ensures Rotated(arg, 0)[i] == arg[i] {
      TurnZero(i, |arg|);
    }
  }

  /** "ror" by k undoes "rol" by k, for every integer k. */
  lemma RotateUndo(arg: Bits, k: int)
    ensures Rotated(Rotated(arg, k), 0 - k) == arg
  {
    hide Rotated;
    RotateCompose(arg, k, 0 - k);
    assert k + (0 - k) == 0;
    RotateZero(arg);
  }
}
