/** The byte stream of a GHW file, and the primitive values that are read from it. */
module GhwStream {
  import opened Vectors

  type Byte = b: int | 0 <= b < 256

  /** How a C reader ends: with a value, by returning -1, by ghw_error_exit, or outside what the
      C language defines.  `pos` is where the stream is left. */
  datatype Read<T> = Ok(value: T, pos: nat) | Fail(pos: nat) | Exit | Undefined {
    predicate IsFailure() {
      !Ok?
    }

    function PropagateFailure<U>(): Read<U>
      requires !Ok?
    {
      match this
      case Fail(p) => Fail(p)
      case Exit => Exit
      case Undefined => Undefined
    }

    function Extract(): Result<T>
      requires Ok?
    {
      Result(value, pos)
    }

    /** The many callers that exit when a reader returns -1. */
    function Must(): (r: Read<T>)
      ensures !r.Fail? && (r.Ok? <==> this.Ok?) && (r.Ok? ==> r == this)
    {
      if Fail? then Exit else this
    }
  }

  /** What a successful reader found, and where the stream is left. */
  datatype Result<T> = Result(v: T, pos: nat)

  class Stream {
    const data: seq<Byte>
    var pos: nat

    constructor (data: seq<Byte>)
      ensures this.data == data && pos == 0
    {
      this.data := data;
      pos := 0;
    }

    ghost predicate Valid()
      reads this
    {
      pos <= |data|
    }

    /** fgetc: -1 at the end of the file. */
    method GetC() returns (c: int)
      requires Valid()
      modifies this
      ensures Valid()
      ensures old(pos) < |data| ==> c == data[old(pos)] && pos == old(pos) + 1
      ensures old(pos) == |data| ==> c == -1 && pos == old(pos)
    {
      if pos == |data| {
        return -1;
      }
      c := data[pos];
      pos := pos + 1;
    }

    /** fread of one item of n bytes: all of them or, at the end of the file, what is left is
        consumed in vain. */
    method FRead(n: nat) returns (ok: bool, bytes: seq<Byte>)
      requires Valid()
      modifies this
      ensures Valid() && pos == FReadEnd(data, old(pos), n)
      ensures ok <==> old(pos) + n <= |data|
      ensures ok ==> bytes == data[old(pos)..old(pos) + n]
    {
      if pos + n <= |data| {
        ok, bytes := true, data[pos..pos + n];
        pos := pos + n;
      } else {
        ok, bytes := false, [];
        pos := |data|;
      }
    }
  }

  function FReadEnd(data: seq<Byte>, pos: nat, n: nat): nat {
    if pos + n <= |data| then pos + n else |data|
  }

  // ---- LEB128 (section 7.6 of DWARF version 4) --------------------------

  /** The unsigned reader from accumulator `r`, the next group going to bit `off`.  Groups are
      OR-ed in above all bits of `r`, so OR is addition; a shift by 32 or more is undefined. */
  function UlebFrom(data: seq<Byte>, pos: nat, r: nat, off: nat): (out: Read<nat>)
    requires pos <= |data|
    ensures !out.Exit? && (out.Ok? ==> pos < out.pos <= |data|) && (out.Fail? ==> pos <= out.pos <= |data|)
    decreases |data| - pos
  {
    if pos == |data| then Fail(pos)
    else if off >= 32 then Undefined
    else
      var v := data[pos];
      var r' := (r + v % 128 * Pow2(off)) % Pow2(32);
      if v < 128 then Ok(r', pos + 1) else UlebFrom(data, pos + 1, r', off + 7)
  }

  function Uleb(data: seq<Byte>, pos: nat): (out: Read<nat>)
    requires pos <= |data|
    ensures !out.Exit? && (out.Ok? ==> pos < out.pos <= |data|) && (out.Fail? ==> pos <= out.pos <= |data|)
  {
    UlebFrom(data, pos, 0, 0)
  }

  /** What is read fits in 32 bits. */
  lemma {:induction false} UlebFromWord(data: seq<Byte>, pos: nat, r: nat, off: nat)
    requires pos <= |data|
    ensures UlebFrom(data, pos, r, off).Ok? ==> UlebFrom(data, pos, r, off).value < 0x1_0000_0000
    decreases |data| - pos
  {
    Pow2Of32();
    hide Pow2;
    if pos < |data| && off < 32 && data[pos] >= 128 {
      UlebFromWord(data, pos + 1, (r + data[pos] % 128 * Pow2(off)) % Pow2(32), off + 7);
    }
  }

  lemma UlebWord(data: seq<Byte>, pos: nat)
    requires pos <= |data|
    ensures Uleb(data, pos).Ok? ==> Uleb(data, pos).value < 0x1_0000_0000
  {
    UlebFromWord(data, pos, 0, 0);
  }

  /** An unsigned word read as two's complement. */
  function ToSigned(x: int, width: nat): int
    requires width > 0
  {
    if x >= Pow2(width - 1) then x - Pow2(width) else x
  }

  /** The signed readers, for 32 and for 64 bits. */
  function SlebFrom(data: seq<Byte>, pos: nat, r: nat, off: nat, width: nat): (out: Read<int>)
    requires pos <= |data| && width > 0
    ensures !out.Exit? && (out.Ok? ==> pos < out.pos <= |data|) && (out.Fail? ==> pos <= out.pos <= |data|)
    decreases |data| - pos
  {
    if pos == |data| then Fail(pos)
    else if off >= width then Undefined
    else
      var v := data[pos];
      var r' := (r + v % 128 * Pow2(off)) % Pow2(width);
      if v < 128 then Ok(ToSigned(SignExtend(r', v, off + 7, width), width), pos + 1)
      else SlebFrom(data, pos + 1, r', off + 7, width)
  }

  /** `r |= ~0 << off`, when the last group is negative and does not reach the top. */
  function SignExtend(r: nat, v: Byte, off: nat, width: nat): int {
    if v % 128 >= 64 && off < width then r + Pow2(width) - Pow2(off) else r
  }

  function Sleb(data: seq<Byte>, pos: nat, width: nat): (out: Read<int>)
    requires pos <= |data| && width > 0
    ensures !out.Exit? && (out.Ok? ==> pos < out.pos <= |data|) && (out.Fail? ==> pos <= out.pos <= |data|)
  {
    SlebFrom(data, pos, 0, 0, width)
  }

  method ReadUleb128(s: Stream) returns (out: Read<nat>)
    requires s.Valid()
    modifies s
    ensures s.Valid() && out == Uleb(s.data, old(s.pos))
    ensures out.Ok? || out.Fail? ==> s.pos == out.pos
  {
    hide Pow2;
    var r: nat, off: nat := 0, 0;
    while true
      invariant s.Valid() && UlebFrom(s.data, s.pos, r, off) == Uleb(s.data, old(s.pos))
      decreases |s.data| - s.pos
    {
      var v := s.GetC();
      if v == -1 {
        return Fail(s.pos);
      }
      if off >= 32 {
        return Undefined;
      }
      r := (r + v % 128 * Pow2(off)) % Pow2(32);
      if v < 128 {
        return Ok(r, s.pos);
      }
      off := off + 7;
    }
  }

  /** ghw_read_sleb128 (width 32) and ghw_read_lsleb128 (width 64). */
  method ReadSleb128(s: Stream, width: nat) returns (out: Read<int>)
    requires s.Valid() && width in {32, 64}
    modifies s
    ensures s.Valid() && out == Sleb(s.data, old(s.pos), width)
    ensures out.Ok? || out.Fail? ==> s.pos == out.pos
  {
    hide Pow2, SignExtend, ToSigned;
    var r: nat, off: nat := 0, 0;
    while true
      invariant s.Valid() && SlebFrom(s.data, s.pos, r, off, width) == Sleb(s.data, old(s.pos), width)
      decreases |s.data| - s.pos
    {
      var v := s.GetC();
      if v == -1 {
        return Fail(s.pos);
      }
      if off >= width {
        return Undefined;
      }
      r := (r + v % 128 * Pow2(off)) % Pow2(width);
      off := off + 7;
      if v < 128 {
        return Ok(ToSigned(SignExtend(r, v, off, width), width), s.pos);
      }
    }
  }

  // ---- Canonical encodings and their round trip -------------------------

  function EncodeU(n: nat): seq<Byte> {
    if n < 128 then [n] else [128 + n % 128] + EncodeU(n / 128)
  }

  function EncodeS(n: int): seq<Byte>
    decreases if n < 0 then -n else n
  {
    var m, q := n % 128, n / 128;
    if (q == 0 && m < 64) || (q == -1 && m >= 64) then [m] else [128 + m] + EncodeS(q)
  }

  lemma Pow2By7(off: nat)
    ensures Pow2(off + 7) == 128 * Pow2(off)
  {
    assert Pow2(7) == 128;
    Pow2Add(off, 7);
  }

  /** The next group and the rest of a number. */
  lemma NextGroup(n: int, p: int, p': int)
    requires p' == 128 * p
    ensures n * p == n % 128 * p + n / 128 * p'
  {
    assert n == n % 128 + 128 * (n / 128);
    ScaleSum(n, n % 128, n / 128, p);
  }

  lemma ScaleSum(n: int, m: int, q: int, p: int)
    requires n == m + 128 * q
    ensures n * p == m * p + q * (128 * p)
  {
  }

  /** x * p < q * p, for x < q. */
  lemma MulLess(x: int, q: int, p: int)
    requires x < q && p > 0
    ensures x * p <= q * p - p
  {
    assert (q - x) * p >= p by { MulGrows(q - x, p); }
    assert (q - x) * p == q * p - x * p;
  }

  lemma UlebStep(data: seq<Byte>, pos: nat, r: nat, off: nat, m: int, g: int)
    requires pos < |data| && off < 32 && m == data[pos] % 128 && g == (r + m * Pow2(off)) % Pow2(32)
    ensures UlebFrom(data, pos, r, off) ==
            if data[pos] < 128 then Ok(g, pos + 1) else UlebFrom(data, pos + 1, g, off + 7)
  {
  }

  lemma {:induction false} UlebRoundTripFrom(pre: seq<Byte>, n: nat, rest: seq<Byte>, r: nat, off: nat)
    requires off in {0, 7, 14, 21, 28} && r < Pow2(off) && n < Pow2(32 - off)
    ensures UlebFrom(pre + EncodeU(n) + rest, |pre|, r, off) == Ok(r + n * Pow2(off), |pre| + |EncodeU(n)|)
    decreases n
  {
    hide Pow2, UlebFrom, EncodeU;
    var m, q, g := n % 128, n / 128, (r + n % 128 * Pow2(off)) % Pow2(32);
    var data, pre' := pre + EncodeU(n) + rest, pre + [128 + m];
    EncodeUStep(n);
    GroupStep(r, n, off, 32);
    UlebStep(data, |pre|, r, off, m, g);
    if n >= 128 {
      SmallTail(n, off);
      assert data == pre' + EncodeU(q) + rest;
      UlebRoundTripFrom(pre', q, rest, g, off + 7);
    }
  }

  lemma EncodeUStep(n: nat)
    ensures EncodeU(n) == if n < 128 then [n] else [128 + n % 128] + EncodeU(n / 128)
    ensures n < 128 ==> n / 128 == 0
  {
  }

  /** One group enters the accumulator without loss. */
  lemma GroupStep(r: nat, n: nat, off: nat, width: nat)
    requires off <= width && r < Pow2(off) && n < Pow2(width - off)
    ensures var m, p, p' := n % 128, Pow2(off), Pow2(off + 7);
            && 0 <= r + m * p < p'
            && (r + m * p) % Pow2(width) == r + m * p
            && r + n * p == r + m * p + n / 128 * p'
  {
    hide Pow2;
    var m, p, p', w := n % 128, Pow2(off), Pow2(off + 7), Pow2(width);
    Pow2By7(off);
    NextGroup(n, p, p');
    MulBound(m, p);
    Pow2Add(width - off, off);
    MulLess(n, Pow2(width - off), p);
    MulLessEq(m, n, p);
    DivModUnique(r + m * p, 0, r + m * p, w);
  }

  lemma MulLessEq(x: int, y: int, p: int)
    requires x <= y && p >= 0
    ensures x * p <= y * p
  {
  }

  lemma MulBound(m: int, p: int)
    requires 0 <= m <= 127 && p >= 0
    ensures 0 <= m * p <= 127 * p
  {
  }

  lemma Pow2Of4()
    ensures Pow2(4) == 16
  {
  }

  lemma SmallTail(n: nat, off: nat)
    requires off in {0, 7, 14, 21, 28} && 128 <= n < Pow2(32 - off)
    ensures off <= 21 && n / 128 < Pow2(32 - (off + 7))
  {
    Pow2Of4();
    if off < 28 {
      Pow2By7(25 - off);
    }
  }

  /** Every 32-bit unsigned value survives its encoding, whatever follows in the stream. */
  lemma UlebRoundTrip(n: nat, pre: seq<Byte>, rest: seq<Byte>)
    requires n < Pow2(32)
    ensures Uleb(pre + EncodeU(n) + rest, |pre|) == Ok(n, |pre| + |EncodeU(n)|)
  {
    UlebRoundTripFrom(pre, n, rest, 0, 0);
  }

  /** A value of `width` bits of which `off` have been read already. */
  ghost predicate Fits(v: int, off: nat, width: nat) {
    off < width && -Pow2(width - 1 - off) <= v < Pow2(width - 1 - off)
  }

  /** The accumulated value stays in the range of the type. */
  lemma FitsTotal(r: nat, v: int, off: nat, width: nat)
    requires r < Pow2(off) && Fits(v, off, width)
    ensures var x := r + v * Pow2(off); -Pow2(width - 1) <= x < Pow2(width - 1) && (v < 0 <==> x < 0)
  {
    hide Pow2;
    var p, h := Pow2(off), Pow2(width - 1 - off);
    Pow2Add(width - 1 - off, off);
    MulLess(v, h, p);
    MulLessEq(-h, v, p);
    NegateProduct(h, p);
    if v < 0 {
      MulLessEq(v, -1, p);
    } else {
      MulLessEq(0, v, p);
    }
  }

  /** The last group of a non-negative value. */
  lemma LastPositive(r: nat, v: int, m: int, off: nat, width: nat, g: int)
    requires m == v && r < Pow2(off) && Fits(v, off, width) && 0 <= v < 64
    requires g == (r + m * Pow2(off)) % Pow2(width)
    ensures ToSigned(SignExtend(g, m, off + 7, width), width) == r + v * Pow2(off)
  {
    hide Pow2;
    FitsTotal(r, v, off, width);
    Doubled(width);
    var x := r + v * Pow2(off);
    DivModUnique(x, 0, x, Pow2(width));
  }

  lemma Doubled(width: nat)
    requires width > 0
    ensures Pow2(width) == 2 * Pow2(width - 1)
  {
  }

  /** The last group of a negative value: the missing high bits are ones, or, at the width
      boundary, are shifted out. */
  lemma LastNegative(r: nat, v: int, m: int, off: nat, width: nat, g: int)
    requires m == v + 128 && r < Pow2(off) && Fits(v, off, width) && -64 <= v < 0
    requires g == (r + m * Pow2(off)) % Pow2(width)
    ensures ToSigned(SignExtend(g, m, off + 7, width), width) == r + v * Pow2(off)
  {
    hide Pow2, ToSigned, SignExtend;
    FitsTotal(r, v, off, width);
    var x := r + v * Pow2(off);
    ToSignedNegative(x, width);
    NegativeGroup(r, v, m, off, width);
    NegativeExtended(g, x, m, off + 7, width);
  }

  lemma NegativeExtended(g: nat, x: int, m: Byte, off: nat, width: nat)
    requires 64 <= m < 128 && g == x + if off < width then Pow2(off) else Pow2(width)
    ensures SignExtend(g, m, off, width) == x + Pow2(width)
  {
    hide Pow2;
  }

  lemma NegativeGroup(r: nat, v: int, m: int, off: nat, width: nat)
    requires m == v + 128 && r < Pow2(off) && -64 <= v < 0 && 0 <= r + v * Pow2(off) + Pow2(width)
    ensures (r + m * Pow2(off)) % Pow2(width) ==
            r + v * Pow2(off) + if off + 7 < width then Pow2(off + 7) else Pow2(width)
  {
    hide Pow2;
    var p, p', w, x := Pow2(off), Pow2(off + 7), Pow2(width), r + v * Pow2(off);
    var y := r + m * p;
    Pow2By7(off);
    AddGroup(v, m, p);
    NegativeSum(r, v, m, p);
    assert y == x + p';
    if off + 7 < width {
      Pow2Mono(off + 7, width);
      DivModUnique(y, 0, y, w);
    } else {
      Pow2Add(off + 7 - width, width);
      MulPred(Pow2(off + 7 - width), w);
      DivModUnique(y, Pow2(off + 7 - width) - 1, x + w, w);
    }
  }

  lemma ToSignedNegative(x: int, width: nat)
    requires width > 0 && -Pow2(width - 1) <= x < 0
    ensures ToSigned(x + Pow2(width), width) == x && 0 <= x + Pow2(width)
  {
  }

  lemma NegativeSum(r: int, v: int, m: int, p: int)
    requires m == v + 128 && 0 <= r < p && -64 <= v < 0
    ensures 0 <= r + m * p && r + v * p < 0
  {
    MulLessEq(0, m, p);
    MulLessEq(v, -1, p);
  }

  lemma AddGroup(v: int, m: int, p: int)
    requires m == v + 128
    ensures m * p == v * p + 128 * p
  {
  }

  lemma Pow2Of6()
    ensures Pow2(6) == 64
  {
  }

  /** A value that needs another group leaves one that fits behind it. */
  lemma NextFits(v: int, off: nat, width: nat)
    requires Fits(v, off, width) && !(-64 <= v < 64)
    ensures off + 7 < width && Fits(v / 128, off + 7, width)
  {
    var k := width - 1 - off;
    Pow2Of6();
    if k <= 6 {
      Pow2Mono(k, 6);
    } else {
      Pow2By7(k - 7);
    }
  }

  lemma SlebStep(data: seq<Byte>, pos: nat, r: nat, off: nat, width: nat, m: int, g: int)
    requires pos < |data| && off < width && m == data[pos] % 128 && g == (r + m * Pow2(off)) % Pow2(width)
    ensures SlebFrom(data, pos, r, off, width)
         == if data[pos] < 128 then Ok(ToSigned(SignExtend(g, data[pos], off + 7, width), width), pos + 1)
            else SlebFrom(data, pos + 1, g, off + 7, width)
  {
  }

  lemma {:induction false} SlebRoundTripFrom(pre: seq<Byte>, v: int, rest: seq<Byte>, r: nat, off: nat, width: nat)
    requires r < Pow2(off) && Fits(v, off, width)
    ensures SlebFrom(pre + EncodeS(v) + rest, |pre|, r, off, width) == Ok(r + v * Pow2(off), |pre| + |EncodeS(v)|)
    decreases if v < 0 then -v else v
  {
    var m, q, p, g := v % 128, v / 128, Pow2(off), (r + v % 128 * Pow2(off)) % Pow2(width);
    var data := pre + EncodeS(v) + rest;
    var last := (q == 0 && m < 64) || (q == -1 && m >= 64);
    EncodeSStep(v);
    hide Pow2, SignExtend, ToSigned, SlebFrom, EncodeS;
    Middle(pre, EncodeS(v), rest);
    assert EncodeS(v)[0] == if last then m else 128 + m;
    SlebStep(data, |pre|, r, off, width, m, g);
    if last {
      if v < 0 {
        LastNegative(r, v, m, off, width, g);
      } else {
        LastPositive(r, v, m, off, width, g);
      }
    } else {
      NextFits(v, off, width);
      SignedGroup(r, v, off, width);
      FirstByte(pre, 128 + m, EncodeS(q), rest);
      SlebRoundTripFrom(pre + [128 + m], q, rest, g, off + 7, width);
    }
  }

  lemma Middle(a: seq<Byte>, b: seq<Byte>, c: seq<Byte>)
    requires b != []
    ensures (a + b + c)[|a|] == b[0]
  {
  }

  lemma FirstByte(a: seq<Byte>, x: Byte, b: seq<Byte>, c: seq<Byte>)
    ensures a + ([x] + b) + c == a + [x] + b + c
  {
  }

  lemma EncodeSStep(v: int)
    ensures var m, q := v % 128, v / 128;
            EncodeS(v) == if (q == 0 && m < 64) || (q == -1 && m >= 64) then [m] else [128 + m] + EncodeS(q)
  {
  }

  lemma SignedGroup(r: nat, v: int, off: nat, width: nat)
    requires r < Pow2(off) && off + 7 < width
    ensures var m, p, p' := v % 128, Pow2(off), Pow2(off + 7);
            && 0 <= r + m * p < p'
            && (r + m * p) % Pow2(width) == r + m * p
            && r + v * p == r + m * p + v / 128 * p'
  {
    hide Pow2;
    var m, p, p' := v % 128, Pow2(off), Pow2(off + 7);
    Pow2By7(off);
    NextGroup(v, p, p');
    MulBound(m, p);
    Pow2Mono(off + 7, width);
    DivModUnique(r + m * p, 0, r + m * p, Pow2(width));
  }

  /** Every 32-bit and 64-bit signed value survives its encoding. */
  lemma SlebRoundTrip(v: int, pre: seq<Byte>, rest: seq<Byte>, width: nat)
    requires width in {32, 64} && -Pow2(width - 1) <= v < Pow2(width - 1)
    ensures Sleb(pre + EncodeS(v) + rest, |pre|, width) == Ok(v, |pre| + |EncodeS(v)|)
  {
    SlebRoundTripFrom(pre, v, rest, 0, 0, width);
  }

  // ---- Fixed-size words -------------------------------------------------

  /** Four bytes as an unsigned number, in either byte order. */
  function Word32(b: seq<Byte>, be: bool): (w: nat)
    requires |b| == 4
    ensures w < 0x1_0000_0000
  {
    var b0: int, b1: int, b2: int, b3: int := b[0], b[1], b[2], b[3];
    if be then b0 * 0x100_0000 + b1 * 0x1_0000 + b2 * 0x100 + b3
    else b3 * 0x100_0000 + b2 * 0x1_0000 + b1 * 0x100 + b0
  }

  function Wrap32(w: nat): int
    requires w < 0x1_0000_0000
  {
    if w < 0x8000_0000 then w else w - 0x1_0000_0000
  }

  /** ghw_get_i32 */
  function GetI32(b: seq<Byte>, be: bool): int
    requires |b| == 4
  {
    Wrap32(Word32(b, be))
  }

  /** ghw_get_i64: the low half is OR-ed in as a signed number, which replaces the high half when
      it is negative. */
  function GetI64(b: seq<Byte>, be: bool): int
    requires |b| == 8
  {
    var h, l := if be then GetI32(b[..4], be) else GetI32(b[4..], be),
      if be then GetI32(b[4..], be) else GetI32(b[..4], be);
    if l >= 0 then h * 0x1_0000_0000 + l else l
  }

  function EncodeI32(x: int, be: bool): (b: seq<Byte>)
    requires -0x8000_0000 <= x < 0x8000_0000
    ensures |b| == 4
  {
    var w := x % 0x1_0000_0000;
    var b0, b1, b2, b3 := w % 0x100, w / 0x100 % 0x100, w / 0x1_0000 % 0x100, w / 0x100_0000;
    if be then [b3, b2, b1, b0] else [b0, b1, b2, b3]
  }

  lemma FourBytes(w: nat)
    requires w < 0x1_0000_0000
    ensures w == w % 0x100 + w / 0x100 % 0x100 * 0x100 + w / 0x1_0000 % 0x100 * 0x1_0000 + w / 0x100_0000 * 0x100_0000
    ensures w / 0x100_0000 < 0x100
  {
    var a := w / 0x100;
    var b := a / 0x100;
    assert w / 0x1_0000 == b && w / 0x100_0000 == b / 0x100;
  }

  lemma I32RoundTrip(x: int, be: bool)
    requires -0x8000_0000 <= x < 0x8000_0000
    ensures GetI32(EncodeI32(x, be), be) == x
  {
    var w := x % 0x1_0000_0000;
    FourBytes(w);
    assert Word32(EncodeI32(x, be), be) == w;
  }

  /** The two halves of a 64-bit number. */
  function EncodeI64(x: int, be: bool): (b: seq<Byte>)
    requires -0x8000_0000_0000_0000 <= x < 0x8000_0000_0000_0000
    ensures |b| == 8
  {
    var h, l := EncodeI32(x / 0x1_0000_0000, be), EncodeI32(Wrap32(x % 0x1_0000_0000), be);
    if be then h + l else l + h
  }

  /** A time is read back exactly when the top bit of its low half is clear, or it is a negative
      number of 32 bits. */
  lemma I64RoundTrip(x: int, be: bool)
    requires -0x8000_0000_0000_0000 <= x < 0x8000_0000_0000_0000
    ensures GetI64(EncodeI64(x, be), be) == x
            <==> x % 0x1_0000_0000 < 0x8000_0000 || -0x8000_0000 <= x < 0
  {
    var h, l := x / 0x1_0000_0000, Wrap32(x % 0x1_0000_0000);
    var b := EncodeI64(x, be);
    I32RoundTrip(h, be);
    I32RoundTrip(l, be);
    assert be ==> b[..4] == EncodeI32(h, be) && b[4..] == EncodeI32(l, be);
    assert !be ==> b[..4] == EncodeI32(l, be) && b[4..] == EncodeI32(h, be);
  }

  /** 2**31 is read as its opposite. */
  lemma I64Example(be: bool)
    ensures GetI64(EncodeI64(0x8000_0000, be), be) == -0x8000_0000
  {
    var h, l := EncodeI32(0, be), EncodeI32(-0x8000_0000, be);
    I32RoundTrip(0, be);
    I32RoundTrip(-0x8000_0000, be);
    assert EncodeI64(0x8000_0000, be) == if be then h + l else l + h;
    assert (h + l)[..4] == h && (h + l)[4..] == l && (l + h)[..4] == l && (l + h)[4..] == h;
  }

  // ---- Doubles, which are only kept -------------------------------------

  /** Some bytes as one number. */
  function Pack(bytes: seq<Byte>): (n: nat) {
    if bytes == [] then 0 else bytes[0] + 256 * Pack(bytes[1..])
  }

  function Unpack(n: nat, k: nat): (bytes: seq<Byte>)
    ensures |bytes| == k
  {
    if k == 0 then [] else [n % 256] + Unpack(n / 256, k - 1)
  }

  lemma {:induction false} PackUnpack(n: nat, k: nat)
    requires n < Pow2(8 * k)
    ensures Pack(Unpack(n, k)) == n
  {
    if k > 0 {
      assert Pow2(8) == 256;
      Pow2Add(8, 8 * (k - 1));
      PackUnpack(n / 256, k - 1);
      assert Unpack(n, k)[1..] == Unpack(n / 256, k - 1);
    }
  }

  /** The number that stands for a double. */
  predicate IsDouble(n: int) {
    0 <= n < 0x1_0000_0000_0000_0000
  }

  lemma DoubleIs(data: seq<Byte>, pos: nat, n: nat)
    requires IsDouble(n) && At(data, pos, Unpack(n, 8))
    ensures Pack(data[pos..pos + 8]) == n
  {
    HalfRanges();
    assert Pow2(64) == 2 * Pow2(63);
    PackUnpack(n, 8);
  }

  // ---- Bytes in place ---------------------------------------------------

  /** The stream holds these bytes at this position. */
  predicate At(data: seq<Byte>, pos: nat, bytes: seq<Byte>) {
    pos + |bytes| <= |data| && data[pos..pos + |bytes|] == bytes
  }

  lemma AtSplit(data: seq<Byte>, pos: nat, a: seq<Byte>, b: seq<Byte>)
    requires At(data, pos, a + b)
    ensures At(data, pos, a) && At(data, pos + |a|, b)
  {
    assert data[pos..pos + |a + b|][..|a|] == a;
    assert data[pos..pos + |a + b|][|a|..] == b;
  }

  /** The start of a header of n bytes. */
  lemma HeaderStart(data: seq<Byte>, pos: nat, n: nat)
    requires n >= 4 && pos + n <= |data|
    ensures data[pos..pos + n][..4] == [0, 0, 0, 0] <==> At(data, pos, [0, 0, 0, 0])
  {
    assert data[pos..pos + n][..4] == data[pos..pos + 4];
  }

  lemma Around(data: seq<Byte>, pos: nat, bytes: seq<Byte>)
    requires At(data, pos, bytes)
    ensures data == data[..pos] + bytes + data[pos + |bytes|..]
  {
  }

  lemma UlebIs(data: seq<Byte>, pos: nat, n: nat)
    requires n < 0x1_0000_0000 && At(data, pos, EncodeU(n))
    ensures Uleb(data, pos) == Ok(n, pos + |EncodeU(n)|)
  {
    hide Uleb, EncodeU;
    Pow2Of32();
    Around(data, pos, EncodeU(n));
    UlebRoundTrip(n, data[..pos], data[pos + |EncodeU(n)|..]);
  }

  predicate InWidth(v: int, width: nat) {
    if width == 32 then -0x8000_0000 <= v < 0x8000_0000 else -0x8000_0000_0000_0000 <= v < 0x8000_0000_0000_0000
  }

  lemma SlebIs(data: seq<Byte>, pos: nat, v: int, width: nat)
    requires width in {32, 64} && InWidth(v, width) && At(data, pos, EncodeS(v))
    ensures Sleb(data, pos, width) == Ok(v, pos + |EncodeS(v)|)
  {
    hide Sleb, EncodeS, Pow2;
    HalfRanges();
    Around(data, pos, EncodeS(v));
    SlebRoundTrip(v, data[..pos], data[pos + |EncodeS(v)|..], width);
  }

  lemma HalfRanges()
    ensures Pow2(31) == 0x8000_0000 && Pow2(63) == 0x8000_0000_0000_0000
  {
    Pow2Of32();
    assert Pow2(32) == 2 * Pow2(31);
    Pow2Add(32, 31);
  }

  lemma OneByte(data: seq<Byte>, pos: nat, a: Byte)
    requires At(data, pos, [a])
    ensures pos < |data| && data[pos] == a
  {
    assert data[pos..pos + 1][0] == a;
  }
}
