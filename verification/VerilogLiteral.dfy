/** Conversion of a Verilog four-state literal to the characters of a VHDL bit string. */
module VerilogLiteral {
  import opened Vectors
  import opened NumericConvert

  const WORD_RANGE := 0x1_0000_0000

  type Word = x: int | 0 <= x < WORD_RANGE

  /** 32 bits of a literal, in two planes. */
  datatype Logic32 = Logic32(val: Word, zx: Word)

  /** A Number always holds two words; a Bignum holds the bits of its source text. */
  datatype Literal =
    | Number(size: nat, lo: Logic32, hi: Logic32)
    | Bignum(size: nat, len: nat, words: seq<Logic32>)
  {
    predicate Valid() {
      Bignum? ==> |words| * 32 >= len
    }
  }

  // ---- What a literal means ---------------------------------------------

  /** The number that words spell, the first one being the least significant. */
  function WordsValue(ws: seq<Word>): nat {
    if ws == [] then 0 else ws[0] + WordsValue(ws[1..]) * WORD_RANGE
  }

  /** The plane of values. */
  function Vals(num: Literal): seq<Word> {
    if num.Number? then [num.lo.val, num.hi.val]
    else seq(|num.words|, k requires 0 <= k < |num.words| => num.words[k].val)
  }

  /** The plane that marks Z and X. */
  function Marks(num: Literal): seq<Word> {
    if num.Number? then [num.lo.zx, num.hi.zx]
    else seq(|num.words|, k requires 0 <= k < |num.words| => num.words[k].zx)
  }

  function PlaneBit(ws: seq<Word>, i: nat): bool {
    WordsValue(ws) / Pow2(i) % 2 == 1
  }

  /** Bit i of the literal: a marked bit is X or Z. */
  function BitChar(num: Literal, i: nat): char {
    if PlaneBit(Marks(num), i) then
      if PlaneBit(Vals(num), i) then 'X' else 'Z'
    else
      if PlaneBit(Vals(num), i) then '1' else '0'
  }

  /** The bits that are present. */
  function Present(num: Literal): nat {
    if num.Number? then 64 else num.len
  }

  /** The bits that are present, or the declared size when that is nonzero and smaller. */
  function Width(num: Literal): nat {
    if 0 < num.size < Present(num) then num.size else Present(num)
  }

  /** The character at bit i of a string of any length: beyond its width a literal is extended with an
      X or Z of its top bit, and with '0' otherwise. */
  function CharAt(num: Literal, i: nat): char
    requires Width(num) >= 1 || i < Width(num)
  {
    if i < Width(num) then BitChar(num, i)
    else if PlaneBit(Marks(num), Width(num) - 1) then BitChar(num, Width(num) - 1)
    else '0'
  }

  /** The first characters of a string of length `len`, most significant bit first. */
  predicate IsImage(num: Literal, s: string, len: nat)
    requires Width(num) >= 1 || len == 0
  {
    |s| <= len && forall k :: 0 <= k < |s| ==> s[k] == CharAt(num, len - 1 - k)
  }

  // ---- The loop ---------------------------------------------------------

  function GetNumberWord(num: Literal, idx: nat): Logic32
    requires num.Valid() && idx * 32 < Present(num)
  {
    match num
    case Number(_, lo, hi) => if idx == 0 then lo else hi
    case Bignum(_, _, ws) => ws[idx]
  }

  /** Bit `idx` modulo 32 of a word. */
  function Logic32ExtractBit(w: Logic32, idx: nat): (b: Logic32)
    ensures b.val < 2 && b.zx < 2
  {
    var b := idx % 32;
    Logic32(w.val / Pow2(b) % 2, w.zx / Pow2(b) % 2)
  }

  function Logic32ToLogic(w: Logic32): nat {
    w.zx * 2 + w.val
  }

  /** Constant MAP. */
  function Map(l: nat): char
    requires l < 4
  {
    "01ZX"[l]
  }

  /** Indices into a word count modulo its width. */
  lemma ExtractMod(w: Logic32, i: nat)
    ensures Logic32ExtractBit(w, i % 32) == Logic32ExtractBit(w, i)
  {
    assert i % 32 % 32 == i % 32;
    hide Pow2;
  }

  /** The bits of the word that holds bit i are the bits of the planes, and so is their character. */
  lemma ExtractedBit(num: Literal, i: nat, w: Logic32)
    requires num.Valid() && i < Present(num) && w == GetNumberWord(num, i / 32)
    ensures var b := Logic32ExtractBit(w, i);
            && b.val == (if PlaneBit(Vals(num), i) then 1 else 0)
            && b.zx == (if PlaneBit(Marks(num), i) then 1 else 0)
            && Map(Logic32ToLogic(b)) == BitChar(num, i)
  {
    hide WordsValue, Pow2;
    WordBit(Vals(num), i);
    WordBit(Marks(num), i);
    assert w.val == Vals(num)[i / 32] && w.zx == Marks(num)[i / 32];
  }

  /** The character that the loop appends for bit i. */
  lemma CharOfWord(num: Literal, i: nat, w: Logic32)
    requires num.Valid() && i < Width(num) <= Present(num) && w == GetNumberWord(num, i / 32)
    ensures Map(Logic32ToLogic(Logic32ExtractBit(w, i % 32))) == CharAt(num, i)
  {
    hide Logic32ExtractBit, BitChar, PlaneBit, GetNumberWord;
    ExtractMod(w, i);
    ExtractedBit(num, i, w);
  }

  /** The character that extends the literal. */
  lemma ExtendedWith(num: Literal, w: Logic32, c: char)
    requires num.Valid() && 1 <= Width(num) <= Present(num) && w == GetNumberWord(num, (Width(num) - 1) / 32)
    requires var msb := Logic32ExtractBit(w, Width(num) - 1);
             c == if msb.zx != 0 then Map(Logic32ToLogic(msb)) else Map(0)
    ensures forall i :: Width(num) <= i ==> CharAt(num, i) == c
  {
    hide Logic32ExtractBit, BitChar, PlaneBit, GetNumberWord;
    ExtractedBit(num, Width(num) - 1, w);
  }

  /** With an empty literal the source underflows as soon as it has to extend, so a literal to be
      extended has at least one bit. */
  method NumberToVec(num: Literal, tlen: nat) returns (str: string)
    requires num.Valid() && (Width(num) >= 1 || tlen == 0)
    ensures |str| == if tlen != 0 then tlen else Width(num)
    ensures IsImage(num, str, |str|)
  {
    hide Logic32ExtractBit, GetNumberWord, IsImage, CharAt, BitChar, PlaneBit, Map;
    var nbits := if num.Number? then 64 else num.len;
    var elen := if num.size == 0 then nbits else if nbits < num.size then nbits else num.size;
    var len := if tlen != 0 then tlen else elen;
    assert elen == Width(num) <= Present(num);
    hide Width, Present, Vals, Marks;
    str := "";
    ImageStart(num, len);
    if len > elen {
      var w := GetNumberWord(num, (elen - 1) / 32);
      var msb := Logic32ExtractBit(w, elen - 1);
      var c := if msb.zx != 0 then Map(Logic32ToLogic(msb)) else Map(0);
      ExtendedWith(num, w, c);
      for j := elen to len
        invariant |str| == j - elen && IsImage(num, str, len)
      {
        ImageSnoc(num, str, len, c);
        str := str + [c];
      }
    }
    var w := Logic32(0, 0);
    var nlen := if len < elen then len else elen;
    for i := nlen downto 0
      invariant |str| == len - i && IsImage(num, str, len)
      invariant i < nlen && i % 32 != 0 ==> w == GetNumberWord(num, i / 32)
    {
      if i % 32 == 31 || i == nlen - 1 {
        w := GetNumberWord(num, i / 32);
      }
      var b := Logic32ExtractBit(w, i % 32);
      CharOfWord(num, i, w);
      ImageSnoc(num, str, len, Map(Logic32ToLogic(b)));
      str := str + [Map(Logic32ToLogic(b))];
    }
  }

  lemma ImageStart(num: Literal, len: nat)
    requires Width(num) >= 1 || len == 0
    ensures IsImage(num, "", len)
  {
  }

  lemma ImageSnoc(num: Literal, s: string, len: nat, c: char)
    requires (Width(num) >= 1 || len == 0) && IsImage(num, s, len) && |s| < len && c == CharAt(num, len - 1 - |s|)
    ensures IsImage(num, s + [c], len)
  {
    hide CharAt;
  }

  // ---- What a two-valued literal denotes --------------------------------

  /** No bit of the width is X or Z. */
  ghost predicate TwoValued(num: Literal) {
    forall i :: 0 <= i < Width(num) ==> !PlaneBit(Marks(num), i)
  }

  /** The UNSIGNED a bit string denotes. */
  function StringBits(s: string): Bits {
    seq(|s|, i requires 0 <= i < |s| => s[|s| - 1 - i] == '1')
  }

  /** Bit i of the number is bit i % 32 of word i / 32. */
  lemma {:induction false} WordBit(ws: seq<Word>, i: nat)
    requires i < |ws| * 32
    ensures WordsValue(ws) / Pow2(i) % 2 == ws[i / 32] / Pow2(i % 32) % 2
  {
    var v: nat, rest := ws[0], WordsValue(ws[1..]);
    assert WordsValue(ws) == v + rest * WORD_RANGE;
    hide WordsValue, Pow2;
    Pow2Of32();
    if i < 32 {
      Pow2Add(32 - i, i);
      EvenPow2(32 - i);
      LowWord(v, rest, Pow2(31 - i), Pow2(32 - i), Pow2(i));
    } else {
      Pow2Add(i - 32, 32);
      HighWord(v, rest, Pow2(i - 32), WORD_RANGE, Pow2(i));
      assert i / 32 - 1 == (i - 32) / 32 && i % 32 == (i - 32) % 32;
      WordBit(ws[1..], i - 32);
    }
  }

  lemma EvenPow2(n: nat)
    requires n > 0
    ensures Pow2(n) == 2 * Pow2(n - 1)
  {
  }

  lemma LowWord(v: nat, rest: nat, h: int, d: int, p: int)
    requires p > 0 && d == 2 * h && d * p == WORD_RANGE
    ensures (v + rest * WORD_RANGE) / p % 2 == v / p % 2
  {
    var k := rest * h;
    assert rest * WORD_RANGE == (2 * k) * p by { EvenMultiple(rest, h, d, p, WORD_RANGE); }
    DivShift(v, 2 * k, p);
  }

  lemma EvenMultiple(rest: int, h: int, d: int, p: int, m: int)
    requires d == 2 * h && d * p == m
    ensures rest * m == (2 * (rest * h)) * p
  {
    assert rest * m == rest * (d * p) == (rest * d) * p;
    assert rest * d == 2 * (rest * h);
  }

  /** Dividing by a product is dividing twice. */
  lemma HighWord(v: nat, rest: nat, p: int, m: int, w: int)
    requires p > 0 && w > 0 && w == p * m && 0 <= v < m
    ensures (v + rest * m) / w == rest / p
  {
    var q, r := rest / p, rest % p;
    assert rest * m == q * w + r * m by { Spread(rest, q, p, r, m); }
    assert 0 <= r * m + v < w by { Below(r, v, p, m); }
    DivModUnique(v + rest * m, q, r * m + v, w);
  }

  lemma Spread(x: int, q: int, p: int, r: int, m: int)
    requires x == q * p + r
    ensures x * m == q * (p * m) + r * m
  {
  }

  lemma Below(r: int, v: int, p: int, m: int)
    requires 0 <= r < p && 0 <= v < m
    ensures 0 <= r * m + v < p * m
  {
    assert (r + 1) * m <= p * m;
  }

  lemma IntBitsDiv(n: int, k: nat, i: nat)
    requires i < k
    ensures IntBits(n, k)[i] == (n / Pow2(i) % 2 == 1)
  {
    IntBitsAt(n, k, i);
    IntBitsValue(n, i);
  }

  /** A literal without X and Z denotes its own value, cut to its width and to the length of the
      string. */
  lemma LiteralValue(num: Literal, s: string)
    requires Width(num) >= 1 && TwoValued(num) && IsImage(num, s, |s|)
    ensures UVal(StringBits(s)) == (WordsValue(Vals(num)) % Pow2(Width(num))) % Pow2(|s|)
  {
    hide UVal, Pow2, WordsValue, Vals, Marks, IntBits, Width;
    var elen, n := Width(num), WordsValue(Vals(num));
    var bits, lit := StringBits(s), IntBits(n, elen);
    forall i | 0 <= i < |s| ensures bits[i] == (i < elen && lit[i]) {
      assert s[|s| - 1 - i] == CharAt(num, i);
      if i < elen {
        IntBitsDiv(n, elen, i);
      }
    }
    IntBitsValue(n, elen);
    ResizeUnsigned(lit, |s|);
    assert bits == Resized(Unsigned, lit, |s|);
  }
}
