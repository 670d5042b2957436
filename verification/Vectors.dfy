/** Bit vectors normalised to `N downto 0` and the integers they denote.

    Element k of a sequence is the bit of index k, so element 0 is the least
    significant one.  `UVal` reads a vector as the UNSIGNED of numeric_bit and
    numeric_std, `SVal` as the SIGNED (two's complement).
 */
module Vectors {

  type Bits = seq<bool>

  /** The two vector types every template is instantiated for. */
  datatype VecType = Unsigned | Signed

  /** The value ranges of VHDL's INTEGER and NATURAL. */
  type Integer = i: int | -0x8000_0000 <= i < 0x8000_0000
  type Natural = i: int | 0 <= i < 0x8000_0000

  function Max(a: int, b: int): int {
    if a > b then a else b
  }

  function Pow2(n: nat): (p: int)
    ensures p > 0
  {
    if n == 0 then 1 else 2 * Pow2(n - 1)
  }

  function Weight(b: bool, w: int): int {
    if b then w else 0
  }

  function UVal(v: Bits): (u: int)
    ensures 0 <= u < Pow2(|v|)
  {
    if v == [] then 0
    else UVal(v[..|v| - 1]) + Weight(v[|v| - 1], Pow2(|v| - 1))
  }

  predicate Negative(v: Bits) {
    v != [] && v[|v| - 1]
  }

  function SVal(v: Bits): int {
    UVal(v) - Weight(Negative(v), Pow2(|v|))
  }

  function Val(typ: VecType, v: Bits): int {
    if typ.Unsigned? then UVal(v) else SVal(v)
  }

  function Not(v: Bits): Bits {
    seq(|v|, k requires 0 <= k < |v| => !v[k])
  }

  function Fill(b: bool, n: nat): Bits {
    seq(n, _ => b)
  }

  /** What a template sees of `v` at indices up to n: `v`, then '0' or the sign bit. */
  function Extend(typ: VecType, v: Bits, n: nat): (w: Bits)
    requires |v| <= n
    ensures |w| == n
  {
    v + Fill(typ.Signed? && Negative(v), n - |v|)
  }

  /** One column of the carry-ripple adder (tables compute_sum and compute_carry). */
  function SumBit(a: bool, b: bool, c: bool): bool {
    (a != b) != c
  }

  function CarryBit(a: bool, b: bool, c: bool): bool {
    (a && b) || (a && c) || (b && c)
  }

  /** A column's sum and carry are worth its three inputs. */
  lemma ColumnSum(a: bool, b: bool, c: bool, w: int)
    ensures Weight(SumBit(a, b, c), w) + Weight(CarryBit(a, b, c), 2 * w) == Weight(a, w) + Weight(b, w) + Weight(c, w)
  {
  }

  // ---- Arithmetic facts -------------------------------------------------

  lemma {:induction false} Pow2Add(a: nat, b: nat)
    ensures Pow2(a + b) == Pow2(a) * Pow2(b)
  {
    if b != 0 {
      Pow2Add(a, b - 1);
      assert Pow2(a + b) == 2 * (Pow2(a) * Pow2(b - 1)) == Pow2(a) * (2 * Pow2(b - 1));
    }
  }

  lemma Pow2Of32()
    ensures Pow2(32) == 0x1_0000_0000
  {
    assert Pow2(8) == 256;
    Pow2Add(8, 8);
    Pow2Add(16, 16);
  }

  lemma Pow2Mono(a: nat, b: nat)
    requires a <= b
    ensures Pow2(a) <= Pow2(b)
  {
    if a < b { Pow2Mono(a, b - 1); }
  }

  lemma MulGrows(k: int, m: int)
    requires k >= 1 && m > 0
    ensures k * m >= m
  {
  }

  lemma NegateProduct(a: int, b: int)
    ensures (-a) * b == -(a * b)
  {
  }

  lemma MulPred(a: int, x: int)
    ensures (a - 1) * x == a * x - x
  {
  }

  /** Division with remainder is unique. */
  lemma DivModUnique(x: int, q: int, y: int, m: int)
    requires m > 0 && 0 <= y < m && x == q * m + y
    ensures x / m == q && x % m == y
  {
    var q', y' := x / m, x % m;
    assert x == q' * m + y';
    assert (q' - q) * m == y - y' && (q - q') * m == y' - y;
    if q' > q {
      MulGrows(q' - q, m);
    } else if q' < q {
      MulGrows(q - q', m);
    }
  }

  /** A number in range that differs from x by a few multiples of m is x mod m. */
  lemma ModNear(u: int, x: int, m: int)
    requires 0 <= u < m
    requires u == x || u == x + m || u == x - m || u == x + 2 * m || u == x - 2 * m
    ensures u == x % m
  {
    DivModUnique(x, if u == x then 0 else if u == x + m then -1 else if u == x - m then 1
                    else if u == x + 2 * m then -2 else 2, u, m);
  }

  lemma DivShift(x: int, k: int, m: int)
    requires m > 0
    ensures (x + k * m) / m == x / m + k
  {
    DivModUnique(x + k * m, x / m + k, x % m, m);
  }

  lemma ModShift(x: int, k: int, m: int)
    requires m > 0
    ensures (x + k * m) % m == x % m
  {
    DivModUnique(x + k * m, x / m + k, x % m, m);
  }

  lemma ModLeft(a: int, b: int, m: int)
    requires m > 0
    ensures (a % m + b) % m == (a + b) % m
  {
    ModShift(a % m + b, a / m, m);
  }

  lemma ModRight(a: int, b: int, m: int)
    requires m > 0
    ensures (a - b % m) % m == (a - b) % m
  {
    ModShift(a - b, b / m, m);
  }

  lemma ModMinusProduct(x: int, t: int, p: int, m: int)
    requires m > 0 && t == p * m
    ensures (x - t) % m == x % m
  {
    ModShift(x - t, p, m);
  }

  // ---- Facts about UVal and SVal ----------------------------------------

  lemma MulWeight(u: int, b: bool, w: int, x: int)
    ensures (u + Weight(b, w)) * x == u * x + Weight(b, w * x)
  {
  }

  /** Growing a prefix by one bit. */
  lemma UValStep(v: Bits, i: nat)
    requires i < |v|
    ensures UVal(v[..i + 1]) == UVal(v[..i]) + Weight(v[i], Pow2(i))
  {
    assert v[..i + 1][..i] == v[..i];
  }

  lemma {:induction false} UValConcat(a: Bits, b: Bits)
    ensures UVal(a + b) == UVal(a) + UVal(b) * Pow2(|a|)
  {
    if b == [] {
      assert a + b == a;
    } else {
      var n := |b| - 1;
      var u, w, x := UVal(b[..n]), Pow2(n), Pow2(|a|);
      assert (a + b)[..|a| + n] == a + b[..n];
      UValConcat(a, b[..n]);
      Pow2Add(n, |a|);
      assert UVal(a + b) == UVal(a) + u * x + Weight(b[n], w * x);
      MulWeight(u, b[n], w, x);
      assert UVal(b) == u + Weight(b[n], w);
    }
  }

  /** Peeling the least significant bit. */
  lemma UValLow(v: Bits)
    requires v != []
    ensures UVal(v) == 2 * UVal(v[1..]) + Weight(v[0], 1)
  {
    assert v == [v[0]] + v[1..];
    assert [v[0]][..0] == [];
    UValConcat([v[0]], v[1..]);
  }

  lemma UValSnoc(v: Bits, b: bool)
    ensures UVal(v + [b]) == UVal(v) + Weight(b, Pow2(|v|))
  {
    assert (v + [b])[..|v|] == v;
  }

  /** `a (i) := b`, with what it does to the slice from `lo` that ends there. */
  method SetBit<T>(a: array<T>, i: nat, b: T, ghost lo: nat := 0)
    requires lo <= i < a.Length
    modifies a
    ensures a[..lo] == old(a[..lo])
    ensures a[lo..i + 1] == old(a[lo..i]) + [b]
    ensures a[i + 1..] == old(a[i + 1..])
  {
    a[i] := b;
  }

  /** The state of a carry-ripple adder after column |res|: x, y and the first carry are
      added, `res` and `carry` hold the exact sum of the columns seen. */
  ghost predicate Rippled(res: Bits, carry: bool, x: Bits, y: Bits, first: bool) {
    && |res| <= |x| == |y|
    && UVal(res) + Weight(carry, Pow2(|res|)) == UVal(x[..|res|]) + UVal(y[..|res|]) + Weight(first, 1)
  }

  lemma RippleStart(x: Bits, y: Bits, first: bool)
    requires |x| == |y|
    ensures Rippled([], first, x, y, first)
  {
    assert x[..0] == [] && y[..0] == [];
  }

  lemma RippleStep(res: Bits, carry: bool, x: Bits, y: Bits, first: bool, i: nat)
    requires Rippled(res, carry, x, y, first) && |res| == i < |x|
    ensures Rippled(res + [SumBit(carry, y[i], x[i])], CarryBit(carry, y[i], x[i]), x, y, first)
  {
    ColumnSum(carry, y[i], x[i], Pow2(i));
    UValStep(x, i);
    UValStep(y, i);
    UValSnoc(res, SumBit(carry, y[i], x[i]));
  }

  /** After the last column. */
  lemma RippleDone(res: Bits, carry: bool, x: Bits, y: Bits, first: bool)
    requires Rippled(res, carry, x, y, first) && |res| == |x|
    ensures UVal(res) + Weight(carry, Pow2(|res|)) == UVal(x) + UVal(y) + Weight(first, 1)
  {
    assert x[..|res|] == x && y[..|res|] == y;
  }

  lemma UValSplit(v: Bits, k: nat)
    requires k <= |v|
    ensures UVal(v) == UVal(v[..k]) + UVal(v[k..]) * Pow2(k)
    ensures UVal(v[..k]) == UVal(v) % Pow2(k)
    ensures UVal(v[k..]) == UVal(v) / Pow2(k)
  {
    assert v == v[..k] + v[k..];
    UValConcat(v[..k], v[k..]);
    DivModUnique(UVal(v), UVal(v[k..]), UVal(v[..k]), Pow2(k));
  }

  lemma {:induction false} UValNot(v: Bits)
    ensures UVal(v) + UVal(Not(v)) == Pow2(|v|) - 1
  {
    if v != [] {
      assert Not(v)[..|v| - 1] == Not(v[..|v| - 1]);
      UValNot(v[..|v| - 1]);
    }
  }

  lemma {:induction false} UValPad(v: Bits, fill: bool, k: nat)
    ensures UVal(v + Fill(fill, k)) == UVal(v) + Weight(fill, Pow2(|v| + k) - Pow2(|v|))
  {
    if k == 0 {
      assert v + Fill(fill, k) == v;
    } else {
      UValPad(v, fill, k - 1);
      assert (v + Fill(fill, k))[..|v| + k - 1] == v + Fill(fill, k - 1);
    }
  }

  /** Extension keeps the value, zero extension the UNSIGNED and sign extension the SIGNED one. */
  lemma ValExtend(typ: VecType, v: Bits, n: nat)
    requires v != [] && |v| <= n
    ensures Val(typ, Extend(typ, v, n)) == Val(typ, v)
    ensures typ.Signed? ==> Negative(Extend(typ, v, n)) == Negative(v)
  {
    UValPad(v, typ.Signed? && Negative(v), n - |v|);
  }

  /** A vector's bits are its value modulo the power of its width. */
  lemma ValMod(typ: VecType, v: Bits)
    ensures UVal(v) == Val(typ, v) % Pow2(|v|)
  {
    DivModUnique(UVal(v), 0, UVal(v), Pow2(|v|));
    ModShift(UVal(v), -1, Pow2(|v|));
  }

  lemma SValRange(v: Bits)
    requires v != []
    ensures -Pow2(|v| - 1) <= SVal(v) < Pow2(|v| - 1)
    ensures Negative(v) <==> SVal(v) < 0
    ensures Negative(v) <==> UVal(v) >= Pow2(|v| - 1)
  {
  }

  /** A SIGNED vector is determined by any in-range number congruent to its bits. */
  lemma SValFromMod(v: Bits, x: int)
    requires v != [] && UVal(v) == x % Pow2(|v|)
    requires -Pow2(|v| - 1) <= x < Pow2(|v| - 1)
    ensures SVal(v) == x
  {
    SValRange(v);
    if x >= 0 {
      DivModUnique(x, 0, x, Pow2(|v|));
    } else {
      DivModUnique(x, -1, x + Pow2(|v|), Pow2(|v|));
    }
  }

  /** Equal values of equal widths are equal vectors. */
  lemma {:induction false} UValInjective(a: Bits, b: Bits)
    requires |a| == |b| && UVal(a) == UVal(b)
    ensures a == b
  {
    if a != [] {
      var n := |a| - 1;
      assert a[n] == b[n];
      UValInjective(a[..n], b[..n]);
      assert a == a[..n] + [a[n]] && b == b[..n] + [b[n]];
    }
  }
}
