/** The string table of a GHW file: each string shares a prefix with the one before it, and
    prefix lengths come in groups of five bits. */
module GhwStrings {
  import opened Vectors
  import opened GhwStream
  import opened Sequences

  /** The bytes that end a string; they hold the first five bits of the next prefix length. */
  predicate IsEnd(c: int) {
    0 <= c <= 31 || 128 <= c <= 159
  }

  // ---- What the decoder does, on values ---------------------------------

  /** Copy bytes j .. n-1 of the string at `prev` to the end of what is written. */
  function CopyFrom(mem: seq<Byte>, prev: nat, j: nat, n: int, alloc: nat): (out: Read<seq<Byte>>)
    requires j < n ==> prev + j < |mem|
    ensures out.Ok? ==> out.pos == 0 && mem <= out.value
    decreases n - j
  {
    if j >= n then Ok(mem, 0)
    else if |mem| >= alloc then Exit
    else CopyFrom(mem + [mem[prev + j]], prev, j + 1, n, alloc)
  }

  /** Append the bytes up to the next end byte. */
  function SuffixFrom(data: seq<Byte>, pos: nat, mem: seq<Byte>, alloc: nat): (out: Read<(seq<Byte>, Byte)>)
    requires pos <= |data|
    ensures out.Ok? ==> pos <= out.pos <= |data| && mem <= out.value.0
    decreases |data| - pos
  {
    if pos == |data| then Fail(pos)
    else if data[pos] < 32 || 128 <= data[pos] < 160 then Ok((mem, data[pos]), pos + 1)
    else if |mem| >= alloc then Exit
    else SuffixFrom(data, pos + 1, mem + [data[pos]], alloc)
  }

  /** The groups of a prefix length after byte `c`; the length is a 32-bit int. */
  function LengthFrom(data: seq<Byte>, pos: nat, c: Byte, u: nat, sh: nat): (out: Read<int>)
    requires pos <= |data| && u < 0x1_0000_0000
    ensures out.Ok? ==> pos <= out.pos <= |data|
    decreases |data| - pos
  {
    if c < 128 then Ok(Wrap32(u), pos)
    else if pos == |data| then Fail(pos)
    else if sh >= 32 then Undefined
    else LengthFrom(data, pos + 1, data[pos], (u + data[pos] % 32 * Pow2(sh)) % 0x1_0000_0000, sh + 5)
  }

  /** One string, and the prefix length of the next. */
  function StringFrom(data: seq<Byte>, pos: nat, mem: seq<Byte>, prev: nat, prevLen: int,
        alloc: nat): (out: Read<(seq<Byte>, int)>)
    requires pos <= |data| && (prevLen > 0 ==> prev < |mem|)
    ensures out.Ok? ==> pos <= out.pos <= |data| && |mem| < |out.value.0|
  {
    match CopyFrom(mem, prev, 0, prevLen, alloc)
    case Ok(copied, _) => (
      match SuffixFrom(data, pos, copied, alloc)
      case Ok((text, c), p) =>
        if |text| >= alloc then Exit
        else (
          match LengthFrom(data, p, c, c % 32, 5)
          case Ok(n, p') => Ok((text + [0], n), p')
          case Fail(p') => Fail(p')
          case Exit => Exit
          case Undefined => Undefined)
      case Fail(p) => Fail(p)
      case _ => Exit)
    case _ => Exit
  }

  /** The remaining k strings; `tab` holds the offsets of the entries so far. */
  function TableFrom(data: seq<Byte>, pos: nat, k: nat, mem: seq<Byte>, tab: seq<nat>, prevLen: int,
        alloc: nat): (out: Read<(seq<Byte>, seq<nat>)>)
    requires pos <= |data| && tab != [] && (prevLen > 0 ==> tab[|tab| - 1] < |mem|)
    ensures out.Ok? ==> pos <= out.pos <= |data| && |out.value.1| == |tab| + k
    decreases k
  {
    if k == 0 then Ok((mem, tab), pos)
    else
      match StringFrom(data, pos, mem, tab[|tab| - 1], prevLen, alloc)
      case Ok((mem', n), p) => TableFrom(data, p, k - 1, mem', tab + [|mem|], n, alloc)
      case Fail(p) => Fail(p)
      case Exit => Exit
      case Undefined => Undefined
  }

  /** The size of the area for the strings is computed in 32 bits. */
  function AllocSize(strSize: nat, nbrStr: nat): (n: nat)
    ensures n < 0x1_0000_0000
  {
    (strSize + nbrStr + 1) % 0x1_0000_0000
  }

  const EOS: seq<Byte> := [69, 79, 83, 0]

  /** The whole section: header, strings, trailer.  Entry 0 is the anonymous name, which is
      stored elsewhere. */
  function SectionAt(data: seq<Byte>, pos: nat, be: bool): (out: Read<(seq<Byte>, seq<nat>)>)
    requires pos <= |data|
    ensures out.Ok? ==>
              && At(data, pos, [0, 0, 0, 0])
              && pos + 16 <= out.pos <= |data| && data[out.pos - 4..out.pos] == [69, 79, 83, 0]
  {
    if pos + 12 > |data| then Fail(|data|)
    else
      var hdr := data[pos..pos + 12];
      HeaderStart(data, pos, 12);
      if hdr[..4] != [0, 0, 0, 0] then Fail(pos + 12)
      else if GetI32(hdr[4..8], be) < 0 then Exit
      else
        var n := GetI32(hdr[4..8], be);
        match TableFrom(data, pos + 12, n, [], [0], 0, AllocSize(Word32(hdr[8..], be), n + 1))
        case Ok(v, p) =>
          if p + 4 > |data| then Fail(|data|)
          else if data[p..p + 4] != EOS then Fail(p + 4)
          else Ok(v, p + 4)
        case Fail(p) => Fail(p)
        case Exit => Exit
        case Undefined => Undefined
  }

  // ---- The reader -------------------------------------------------------

  class StringTable {
    var nbrStr: nat
    var strSize: nat
    var content: array<Byte>
    /** Offsets into `content`, from entry 1 on. */
    var table: array<nat>

    constructor ()
    {
      nbrStr, strSize := 0, 0;
      content := new Byte[0];
      table := new nat[0];
    }

    /** The loop that copies the shared prefix. */
    method CopyPrefix(p: nat, prev: nat, prevLen: int) returns (ok: bool, p': nat)
      requires p <= content.Length && (prevLen > 0 ==> prev < p)
      modifies content
      ensures p <= p' <= content.Length
      ensures var out := CopyFrom(old(content[..p]), prev, 0, prevLen, content.Length);
              if ok then out == Ok(content[..p'], 0) else out == Exit
    {
      p' := p;
      var j := 0;
      while j < prevLen
        invariant p' == p + j && p' <= content.Length
        invariant CopyFrom(content[..p'], prev, j, prevLen, content.Length)
               == CopyFrom(old(content[..p]), prev, 0, prevLen, content.Length)
        decreases prevLen - j
      {
        if p' >= content.Length {
          return false, p';
        }
        SetBit(content, p', content[prev + j]);
        p' := p' + 1;
        j := j + 1;
      }
      ok := true;
    }

    /** The loop that appends the bytes of the string. */
    method ReadSuffix(s: Stream, p: nat) returns (out: Read<Byte>, p': nat)
      requires s.Valid() && p <= content.Length
      modifies content, s
      ensures s.Valid() && p <= p' <= content.Length
      ensures match SuffixFrom(s.data, old(s.pos), old(content[..p]), content.Length)
              case Ok((mem, c), q) => out == Ok(c, q) && s.pos == q && content[..p'] == mem
              case Fail(q) => out == Fail(q) && s.pos == q
              case Exit => out == Exit
              case Undefined => false
    {
      p' := p;
      while true
        invariant s.Valid() && p <= p' <= content.Length
        invariant SuffixFrom(s.data, s.pos, content[..p'], content.Length)
               == SuffixFrom(s.data, old(s.pos), old(content[..p]), content.Length)
        decreases |s.data| - s.pos
      {
        var c := s.GetC();
        if c == -1 {
          return Fail(s.pos), p';
        }
        if IsEnd(c) {
          return Ok(c, s.pos), p';
        }
        if p' >= content.Length {
          return Exit, p';
        }
        SetBit(content, p', c as Byte);
        p' := p' + 1;
      }
    }

    /** The loop that collects the groups of the next prefix length. */
    method ReadLength(s: Stream, c0: Byte) returns (out: Read<int>)
      requires s.Valid()
      modifies s
      ensures s.Valid() && out == LengthFrom(s.data, old(s.pos), c0, c0 % 32, 5)
      ensures out.Ok? || out.Fail? ==> s.pos == out.pos
    {
      hide Pow2;
      var c: int := c0;
      var u: nat, sh: nat := c0 % 32, 5;
      while c >= 128
        invariant s.Valid() && 0 <= c < 256 && u < 0x1_0000_0000
        invariant LengthFrom(s.data, s.pos, c, u, sh) == LengthFrom(s.data, old(s.pos), c0, c0 % 32, 5)
        decreases |s.data| - s.pos, c
      {
        c := s.GetC();
        if c == -1 {
          return Fail(s.pos);
        }
        if sh >= 32 {
          return Undefined;
        }
        u := (u + c % 32 * Pow2(sh)) % 0x1_0000_0000;
        sh := sh + 5;
      }
      out := Ok(Wrap32(u), s.pos);
    }

    /** One entry: the shared prefix, the suffix, a NUL, and the next prefix length. */
    method ReadOne(s: Stream, p: nat, prev: nat, prevLen: int) returns (out: Read<int>, p': nat)
      requires s.Valid() && p <= content.Length && (prevLen > 0 ==> prev < p)
      modifies content, s
      ensures s.Valid() && p <= p' <= content.Length
      ensures match StringFrom(s.data, old(s.pos), old(content[..p]), prev, prevLen, content.Length)
              case Ok((mem, n), q) => out == Ok(n, q) && s.pos == q && content[..p'] == mem
              case Fail(q) => out == Fail(q) && s.pos == q
              case Exit => out == Exit
              case Undefined => out == Undefined
    {
      var ok;
      ok, p' := CopyPrefix(p, prev, prevLen);
      if !ok {
        return Exit, p';
      }
      var c;
      c, p' := ReadSuffix(s, p');
      if !c.Ok? {
        return if c.Fail? then Fail(c.pos) else Exit, p';
      }
      if p' >= content.Length {
        return Exit, p';
      }
      SetBit(content, p', 0 as Byte);
      p' := p' + 1;
      out := ReadLength(s, c.value);
    }

    /** ghw_read_str */
    method ReadStr(s: Stream, be: bool) returns (out: Read<()>)
      requires s.Valid()
      modifies this, s
      ensures s.Valid()
      ensures match SectionAt(s.data, old(s.pos), be)
              case Ok((mem, tab), q) => out == Ok((), q) && s.pos == q && table[..] == tab
                                        && |mem| <= content.Length && content[..|mem|] == mem
              case Fail(q) => out == Fail(q) && s.pos == q
              case Exit => out == Exit
              case Undefined => out == Undefined
    {
      hide TableFrom, AllocSize, GetI32, Word32;
      var ok, hdr := s.FRead(12);
      if !ok || hdr[..4] != [0, 0, 0, 0] {
        return Fail(s.pos);
      }
      var n := GetI32(hdr[4..8], be);
      if n < 0 {
        return Exit;
      }
      nbrStr := n + 1;
      strSize := Word32(hdr[8..], be);
      table := new nat[nbrStr](_ => 0);
      content := new Byte[AllocSize(strSize, nbrStr)];
      var r, p := ReadEntries(s);
      match r {
        case Ok(_, _) =>
        case Fail(q) => return Fail(q);
        case Exit => return Exit;
        case Undefined => return Undefined;
      }
      var eos;
      ok, eos := s.FRead(4);
      if !ok || eos != EOS {
        return Fail(s.pos);
      }
      out := Ok((), s.pos);
    }

    /** The loop over the entries. */
    method ReadEntries(s: Stream) returns (out: Read<()>, p: nat)
      requires s.Valid() && table.Length > 0 && table[0] == 0
      modifies content, table, s
      ensures s.Valid() && p <= content.Length
      ensures match TableFrom(s.data, old(s.pos), table.Length - 1, [], [0], 0, content.Length)
              case Ok((mem, tab), q) => out == Ok((), q) && s.pos == q && table[..] == tab && content[..p] == mem
              case Fail(q) => out == Fail(q) && s.pos == q
              case Exit => out == Exit
              case Undefined => out == Undefined
    {
      hide StringFrom;
      p := 0;
      var prevLen := 0;
      assert table[..1] == [0] && content[..0] == [];
      for i := 1 to table.Length
        invariant s.Valid() && p <= content.Length
        invariant prevLen > 0 ==> table[i - 1] < p
        invariant TableFrom(s.data, old(s.pos), table.Length - 1, [], [0], 0, content.Length)
               == TableFrom(s.data, s.pos, table.Length - i, content[..p], table[..i], prevLen, content.Length)
      {
        SetBit(table, i, p);
        var prev := table[i - 1];
        var r;
        r, p := ReadOne(s, p, prev, prevLen);
        match r {
          case Ok(next, _) => prevLen := next;
          case Fail(q) => return Fail(q), p;
          case Exit => return Exit, p;
          case Undefined => return Undefined, p;
        }
      }
      assert table[..table.Length] == table[..];
      out := Ok((), s.pos);
    }
  }

  // ---- Round trip -------------------------------------------------------

  /** A string of the table and the length of the prefix it shares with the one before it. */
  datatype Entry = Entry(str: seq<Byte>, prefix: nat)

  /** Entries that can follow the string `prev`; bytes up to 31 and from 128 to 159 cannot be in a string. */
  ghost predicate Encodable(prev: seq<Byte>, es: seq<Entry>)
    decreases |es|
  {
    es != [] ==>
      && es[0].prefix <= |prev| && es[0].prefix <= |es[0].str| && es[0].prefix < 0x8000_0000
      && es[0].str[..es[0].prefix] == prev[..es[0].prefix]
      && (forall k :: 0 <= k < |es[0].str| ==> 32 <= es[0].str[k] < 128 || 160 <= es[0].str[k])
      && Encodable(es[0].str, es[1..])
  }

  function EncodeLength(n: nat): seq<Byte> {
    if n < 32 then [n] else [128 + n % 32] + EncodeLength(n / 32)
  }

  function FirstPrefix(es: seq<Entry>): nat {
    if es == [] then 0 else es[0].prefix
  }

  predicate Prefixes(es: seq<Entry>) {
    forall k :: 0 <= k < |es| ==> es[k].prefix <= |es[k].str|
  }

  function EncodeBody(es: seq<Entry>): seq<Byte>
    requires Prefixes(es)
  {
    if es == [] then []
    else es[0].str[es[0].prefix..] + EncodeLength(FirstPrefix(es[1..])) + EncodeBody(es[1..])
  }

  /** The strings in memory: each ended by a NUL, one after the other. */
  function Image(es: seq<Entry>): seq<Byte> {
    if es == [] then [] else es[0].str + [0] + Image(es[1..])
  }

  function Offsets(start: nat, es: seq<Entry>): (o: seq<nat>)
    ensures |o| == |es|
    decreases |es|
  {
    if es == [] then [] else [start] + Offsets(start + |es[0].str| + 1, es[1..])
  }

  lemma {:induction false} CopyRoundTrip(mem: seq<Byte>, prev: nat, s: seq<Byte>, j: nat, n: nat, alloc: nat)
    requires j <= n <= |s| && prev + |s| < |mem| && mem[prev..prev + |s|] == s
    ensures CopyFrom(mem, prev, j, n, alloc)
         == if j == n || |mem| + (n - j) <= alloc then Ok(mem + s[j..n], 0) else Exit
    decreases n - j
  {
    if j == n {
      assert mem + s[j..n] == mem;
    } else if |mem| < alloc {
      assert mem[prev + j] == mem[prev..prev + |s|][j];
      var mem' := mem + [mem[prev + j]];
      assert mem'[prev..prev + |s|] == s;
      CopyRoundTrip(mem', prev, s, j + 1, n, alloc);
      assert mem + s[j..n] == mem' + s[j + 1..n];
    }
  }

  lemma {:induction false} SuffixRoundTrip(pre: seq<Byte>, t: seq<Byte>, c: Byte, rest: seq<Byte>,
        mem: seq<Byte>, alloc: nat)
    requires IsEnd(c) && forall k :: 0 <= k < |t| ==> !IsEnd(t[k])
    ensures SuffixFrom(pre + t + [c] + rest, |pre|, mem, alloc)
         == if t == [] || |mem| + |t| <= alloc then Ok((mem + t, c), |pre| + |t| + 1) else Exit
    decreases |t|
  {
    var data := pre + t + [c] + rest;
    if t == [] {
      assert data[|pre|] == c && mem + t == mem;
    } else {
      assert data[|pre|] == t[0];
      if |mem| < alloc {
        SuffixRoundTrip(pre + [t[0]], t[1..], c, rest, mem + [t[0]], alloc);
        assert data == pre + [t[0]] + t[1..] + [c] + rest;
        assert mem + t == mem + [t[0]] + t[1..];
      }
    }
  }

  lemma Pow2By5(off: nat)
    ensures Pow2(off + 5) == 32 * Pow2(off)
  {
    assert Pow2(5) == 32;
    Pow2Add(off, 5);
  }

  /** One five-bit group and the rest of a length. */
  lemma FiveBits(u: nat, n: nat, off: nat)
    requires u < Pow2(off) && off < 31 && n < Pow2(31 - off)
    ensures var p := Pow2(off);
            && u + n * p == u + n % 32 * p + n / 32 * (32 * p)
            && 0 <= u + n * p < 0x8000_0000
            && u + n % 32 * p < 32 * p
  {
    hide Pow2;
    var p, m, q := Pow2(off), n % 32, n / 32;
    HalfRanges();
    Pow2Add(31 - off, off);
    MulLess(n, Pow2(31 - off), p);
    MulLessEq(0, n, p);
    SplitGroup(n, m, q, p);
    MulLess(m, 32, p);
  }

  lemma SplitGroup(n: int, m: int, q: int, p: int)
    requires n == m + 32 * q
    ensures n * p == m * p + q * (32 * p)
  {
  }

  lemma {:induction false} LengthRoundTrip(pre: seq<Byte>, n: nat, rest: seq<Byte>, u: nat, off: nat, g: nat)
    requires off in {0, 5, 10, 15, 20, 25, 30} && u < Pow2(off) && n < Pow2(31 - off)
    requires g == u + n % 32 * Pow2(off) && g < 0x1_0000_0000
    ensures LengthFrom(pre + EncodeLength(n) + rest, |pre| + 1, EncodeLength(n)[0], g, off + 5)
         == Ok(u + n * Pow2(off), |pre| + |EncodeLength(n)|)
    decreases n
  {
    hide Pow2, LengthFrom;
    var data, q := pre + EncodeLength(n) + rest, n / 32;
    if n < 32 {
      LengthLast(data, |pre| + 1, n, u, off, g);
    } else {
      var c := EncodeLength(n)[0];
      assert EncodeLength(n) == [128 + n % 32] + EncodeLength(q);
      var pre' := pre + [128 + n % 32];
      assert data == pre' + EncodeLength(q) + rest;
      assert data[|pre| + 1] == EncodeLength(q)[0] && EncodeLength(q)[0] % 32 == q % 32;
      hide EncodeLength;
      var m, w := q % 32, Pow2(off + 5);
      var g' := g + m * w;
      NextLength(u, n, off, g, g');
      LengthStep(data, |pre| + 1, c, g, off + 5, m, g');
      LengthRoundTrip(pre', q, rest, g, off + 5, g');
    }
  }

  lemma NextLength(u: nat, n: nat, off: nat, g: nat, g': int)
    requires off in {0, 5, 10, 15, 20, 25, 30} && u < Pow2(off) && 32 <= n < Pow2(31 - off)
    requires g == u + n % 32 * Pow2(off) && g' == g + n / 32 % 32 * Pow2(off + 5)
    ensures off <= 25 && n / 32 < Pow2(31 - (off + 5)) && g < Pow2(off + 5)
    ensures 0 <= g' < 0x1_0000_0000
    ensures u + n * Pow2(off) == g + n / 32 * Pow2(off + 5)
  {
    hide Pow2;
    GroupsLeft(n, off);
    FiveBits(u, n, off);
    Pow2By5(off);
    var q, w := n / 32, Pow2(off + 5);
    assert u + n * Pow2(off) == g + q * w;
    GroupBelow(g, q, w);
  }

  lemma LengthLast(data: seq<Byte>, pos: nat, n: nat, u: nat, off: nat, g: nat)
    requires pos <= |data| && off < 31 && u < Pow2(off) && n < 32 && n < Pow2(31 - off)
    requires g == u + n % 32 * Pow2(off) && g < 0x1_0000_0000
    ensures LengthFrom(data, pos, n, g, off + 5) == Ok(u + n * Pow2(off), pos)
  {
    hide Pow2;
    FiveBits(u, n, off);
    assert n % 32 == n;
  }

  lemma GroupBelow(g: nat, q: nat, w: int)
    requires w > 0 && g + q * w < 0x8000_0000
    ensures 0 <= g + q % 32 * w < 0x1_0000_0000
  {
    MulLessEq(q % 32, q, w);
    MulLessEq(0, q % 32, w);
  }

  lemma LengthStep(data: seq<Byte>, pos: nat, c: Byte, u: nat, sh: nat, m: int, g: nat)
    requires pos < |data| && u < 0x1_0000_0000 && c >= 128 && sh < 32
    requires m == data[pos] % 32 && g == u + m * Pow2(sh) && g < 0x1_0000_0000
    ensures LengthFrom(data, pos, c, u, sh) == LengthFrom(data, pos + 1, data[pos], g, sh + 5)
  {
    DivModUnique(g, 0, g, 0x1_0000_0000);
  }

  lemma GroupsLeft(n: nat, off: nat)
    requires off in {0, 5, 10, 15, 20, 25, 30} && 32 <= n < Pow2(31 - off)
    ensures off <= 25 && n / 32 < Pow2(31 - (off + 5))
  {
    SmallPowers();
    if off <= 25 { Pow2By5(26 - off); }
  }

  lemma SmallPowers()
    ensures Pow2(1) == 2 && Pow2(6) == 64
  {
  }

  /** `prev` is in memory at offset `at`, followed by at least one more byte. */
  ghost predicate StoredAt(mem: seq<Byte>, at: nat, prev: seq<Byte>) {
    at + |prev| < |mem| && mem[at..at + |prev|] == prev
  }

  /** One string: it is stored if and only if there is room for it and its NUL. */
  lemma StringRoundTrip(pre: seq<Byte>, e: Entry, n: nat, rest: seq<Byte>, mem: seq<Byte>, at: nat,
        prev: seq<Byte>, alloc: nat)
    requires Encodable(prev, [e]) && n < 0x8000_0000 && |mem| <= alloc
    requires e.prefix > 0 ==> StoredAt(mem, at, prev)
    ensures StringFrom(pre + e.str[e.prefix..] + EncodeLength(n) + rest, |pre|, mem, at, e.prefix, alloc)
         == if |mem| + |e.str| + 1 <= alloc
            then Ok((mem + e.str + [0], n), |pre| + |e.str| - e.prefix + |EncodeLength(n)|) else Exit
  {
    hide CopyFrom, SuffixFrom, LengthFrom, EncodeLength;
    var t, code := e.str[e.prefix..], EncodeLength(n);
    var data := pre + t + code + rest;
    CopyPart(e, mem, at, prev, alloc);
    if |mem| + e.prefix <= alloc {
      var copied := mem + e.str[..e.prefix];
      FirstGroup(n);
      var c := code[0];
      SuffixPart(pre, e, code, rest, mem, alloc);
      LengthDecodes(pre + t, n, rest);
    }
  }

  lemma CopyPart(e: Entry, mem: seq<Byte>, at: nat, prev: seq<Byte>, alloc: nat)
    requires Encodable(prev, [e]) && |mem| <= alloc
    requires e.prefix > 0 ==> StoredAt(mem, at, prev)
    ensures CopyFrom(mem, at, 0, e.prefix, alloc) ==
            if |mem| + e.prefix <= alloc then Ok(mem + e.str[..e.prefix], 0) else Exit
  {
    if e.prefix > 0 {
      CopyRoundTrip(mem, at, prev, 0, e.prefix, alloc);
      assert prev[0..e.prefix] == e.str[..e.prefix];
    } else {
      assert mem + e.str[..0] == mem;
    }
  }

  lemma SuffixPart(pre: seq<Byte>, e: Entry, code: seq<Byte>, rest: seq<Byte>, mem: seq<Byte>, alloc: nat)
    requires e.prefix <= |e.str| && code != [] && IsEnd(code[0]) && forall k :: 0 <= k < |e.str| ==> !IsEnd(e.str[k])
    requires |mem| + e.prefix <= alloc
    ensures var t, copied := e.str[e.prefix..], mem + e.str[..e.prefix];
            SuffixFrom(pre + t + code + rest, |pre|, copied, alloc) ==
            if |mem| + |e.str| <= alloc then Ok((mem + e.str, code[0]), |pre| + |t| + 1) else Exit
  {
    hide SuffixFrom;
    var t, copied := e.str[e.prefix..], mem + e.str[..e.prefix];
    assert copied + t == mem + e.str by { assert e.str[..e.prefix] + t == e.str; }
    assert pre + t + code + rest == pre + t + [code[0]] + (code[1..] + rest);
    SuffixRoundTrip(pre, t, code[0], code[1..] + rest, copied, alloc);
  }

  lemma FirstGroup(n: nat)
    ensures EncodeLength(n) != [] && IsEnd(EncodeLength(n)[0]) && EncodeLength(n)[0] % 32 == n % 32
  {
  }

  lemma LengthDecodes(pre: seq<Byte>, n: nat, rest: seq<Byte>)
    requires n < 0x8000_0000
    ensures var c := EncodeLength(n)[0];
            LengthFrom(pre + EncodeLength(n) + rest, |pre| + 1, c, c % 32, 5) == Ok(n, |pre| + |EncodeLength(n)|)
  {
    HalfRanges();
    FirstGroup(n);
    LengthRoundTrip(pre, n, rest, 0, 0, n % 32);
  }

  lemma TableStep(data: seq<Byte>, pos: nat, k: nat, mem: seq<Byte>, tab: seq<nat>, prevLen: int, alloc: nat)
    requires pos <= |data| && tab != [] && (prevLen > 0 ==> tab[|tab| - 1] < |mem|) && k > 0
    ensures TableFrom(data, pos, k, mem, tab, prevLen, alloc)
         == match StringFrom(data, pos, mem, tab[|tab| - 1], prevLen, alloc)
            case Ok((mem', n), p) => TableFrom(data, p, k - 1, mem', tab + [|mem|], n, alloc)
            case Fail(p) => Fail(p)
            case Exit => Exit
            case Undefined => Undefined
  {
  }

  /** The string round trip, wherever the encoding stands. */
  lemma StringIs(data: seq<Byte>, pos: nat, e: Entry, n: nat, mem: seq<Byte>, at: nat, prev: seq<Byte>, alloc: nat)
    requires Encodable(prev, [e]) && n < 0x8000_0000 && |mem| <= alloc
    requires e.prefix > 0 ==> StoredAt(mem, at, prev)
    requires At(data, pos, e.str[e.prefix..] + EncodeLength(n))
    ensures StringFrom(data, pos, mem, at, e.prefix, alloc)
         == if |mem| + |e.str| + 1 <= alloc
            then Ok((mem + e.str + [0], n), pos + |e.str[e.prefix..] + EncodeLength(n)|) else Exit
  {
    hide StringFrom, EncodeLength;
    var t, code := e.str[e.prefix..], EncodeLength(n);
    Around(data, pos, t + code);
    assert data == data[..pos] + t + code + data[pos + |t + code|..];
    StringRoundTrip(data[..pos], e, n, data[pos + |t + code|..], mem, at, prev, alloc);
  }

  /** The step of the loop, when the first string is found in the stream. */
  lemma TableOne(data: seq<Byte>, pos: nat, k: nat, e: Entry, n: nat, one: seq<Byte>, prev: seq<Byte>, mem: seq<Byte>,
        mem': seq<Byte>, tab: seq<nat>, alloc: nat)
    requires Encodable(prev, [e]) && n < 0x8000_0000 && tab != [] && |mem| <= alloc && k > 0
    requires e.prefix > 0 ==> StoredAt(mem, tab[|tab| - 1], prev)
    requires one == e.str[e.prefix..] + EncodeLength(n) && At(data, pos, one) && mem' == mem + e.str + [0]
    ensures pos + |one| <= |data| && |mem| < |mem'| && (e.prefix > 0 ==> tab[|tab| - 1] < |mem|)
    ensures TableFrom(data, pos, k, mem, tab, e.prefix, alloc) ==
            if |mem'| <= alloc then TableFrom(data, pos + |one|, k - 1, mem', tab + [|mem|], n, alloc) else Exit
  {
    hide StringFrom, TableFrom, EncodeLength, Encodable;
    TableStep(data, pos, k, mem, tab, e.prefix, alloc);
    StringIs(data, pos, e, n, mem, tab[|tab| - 1], prev, alloc);
  }

  lemma NextStored(mem: seq<Byte>, str: seq<Byte>)
    ensures StoredAt(mem + str + [0], |mem|, str)
  {
    var mem' := mem + str + [0];
    assert mem'[|mem|..|mem| + |str|] == str;
  }

  lemma EncodableNext(prev: seq<Byte>, es: seq<Entry>)
    requires es != [] && Encodable(prev, es)
    ensures Encodable(prev, [es[0]]) && Encodable(es[0].str, es[1..]) && FirstPrefix(es[1..]) < 0x8000_0000
  {
  }

  lemma BodyCons(es: seq<Entry>)
    requires es != [] && Prefixes(es)
    ensures es[0].prefix <= |es[0].str|
    ensures EncodeBody(es) == es[0].str[es[0].prefix..] + EncodeLength(FirstPrefix(es[1..])) + EncodeBody(es[1..])
    ensures Prefixes(es[1..])
  {
  }

  /** The strings `es` were appended to memory and table, or there was no room. */
  ghost predicate Stored(out: Read<(seq<Byte>, seq<nat>)>, end: nat, es: seq<Entry>, mem: seq<Byte>,
        tab: seq<nat>, alloc: nat) {
    out == if |mem| + |Image(es)| <= alloc then Ok((mem + Image(es), tab + Offsets(|mem|, es)), end) else Exit
  }

  lemma StoredCons(out: Read<(seq<Byte>, seq<nat>)>, end: nat, es: seq<Entry>, mem: seq<Byte>, tab: seq<nat>,
        mem': seq<Byte>, alloc: nat)
    requires es != [] && mem' == mem + es[0].str + [0]
    requires if |mem'| <= alloc then Stored(out, end, es[1..], mem', tab + [|mem|], alloc) else out == Exit
    ensures Stored(out, end, es, mem, tab, alloc)
  {
    ImageUnroll(mem, es);
    OffsetsUnroll(|mem|, tab, es);
    hide Image, Offsets;
  }

  lemma NoStrings(data: seq<Byte>, pos: nat, mem: seq<Byte>, tab: seq<nat>, alloc: nat)
    requires tab != [] && |mem| <= alloc && At(data, pos, EncodeBody([]))
    ensures pos <= |data| && FirstPrefix([]) == 0
    ensures Stored(TableFrom(data, pos, 0, mem, tab, 0, alloc), pos + |EncodeBody([])|, [], mem, tab, alloc)
  {
    assert mem + Image([]) == mem && tab + Offsets(|mem|, []) == tab;
  }

  lemma {:induction false} TableRoundTrip(data: seq<Byte>, pos: nat, es: seq<Entry>, prev: seq<Byte>,
                                          mem: seq<Byte>, tab: seq<nat>, alloc: nat)
    requires Prefixes(es) && Encodable(prev, es) && tab != [] && |mem| <= alloc
    requires FirstPrefix(es) > 0 ==> StoredAt(mem, tab[|tab| - 1], prev)
    requires At(data, pos, EncodeBody(es))
    ensures Stored(TableFrom(data, pos, |es|, mem, tab, FirstPrefix(es), alloc),
                   pos + |EncodeBody(es)|, es, mem, tab, alloc)
    decreases |es|
  {
    hide TableFrom, EncodeBody, EncodeLength, StringFrom, At, StoredAt, Encodable, Stored, Prefixes;
    if es == [] {
      NoStrings(data, pos, mem, tab, alloc);
    } else {
      var e, es', n := es[0], es[1..], FirstPrefix(es[1..]);
      BodyCons(es);
      var one, mem' := e.str[e.prefix..] + EncodeLength(n), mem + e.str + [0];
      AtSplit(data, pos, one, EncodeBody(es'));
      EncodableNext(prev, es);
      TableOne(data, pos, |es|, e, n, one, prev, mem, mem', tab, alloc);
      if |mem'| <= alloc {
        NextStored(mem, e.str);
        TableRoundTrip(data, pos + |one|, es', e.str, mem', tab + [|mem|], alloc);
      }
      StoredCons(TableFrom(data, pos, |es|, mem, tab, FirstPrefix(es), alloc),
                 pos + |EncodeBody(es)|, es, mem, tab, mem', alloc);
    }
  }

  lemma ImageUnroll(mem: seq<Byte>, es: seq<Entry>)
    requires es != []
    ensures mem + es[0].str + [0] + Image(es[1..]) == mem + Image(es)
    ensures |mem| + |es[0].str| + 1 + |Image(es[1..])| == |mem| + |Image(es)|
  {
    Assoc(mem, es[0].str, [0], Image(es[1..]));
  }

  lemma OffsetsUnroll(start: nat, tab: seq<nat>, es: seq<Entry>)
    requires es != []
    ensures tab + [start] + Offsets(start + |es[0].str| + 1, es[1..]) == tab + Offsets(start, es)
  {
    Assoc(tab, [start], Offsets(start + |es[0].str| + 1, es[1..]), []);
  }

  // ---- The section ------------------------------------------------------

  function EncodeSection(es: seq<Entry>, strSize: nat, be: bool): seq<Byte>
    requires Prefixes(es) && |es| < 0x8000_0000 && strSize < 0x1_0000_0000
  {
    [0, 0, 0, 0] + EncodeI32(|es|, be) + EncodeI32(Wrap32(strSize), be) + EncodeBody(es) + [69, 79, 83, 0]
  }

  /** The reader stores exactly the encoded strings, each with its NUL, one after the other, when
      the area that is allocated has room for them, and gives up otherwise. */
  lemma SectionRoundTrip(data: seq<Byte>, pos: nat, es: seq<Entry>, strSize: nat, be: bool)
    requires Prefixes(es) && |es| < 0x8000_0000 && strSize < 0x1_0000_0000
    requires Encodable([], es) && At(data, pos, EncodeSection(es, strSize, be))
    ensures SectionAt(data, pos, be)
         == if |Image(es)| <= (strSize + |es| + 2) % 0x1_0000_0000
            then Ok((Image(es), [0] + Offsets(0, es)), pos + |EncodeSection(es, strSize, be)|) else Exit
  {
    hide TableFrom, GetI32, Word32, EncodeI32, EncodeBody, Image, Offsets, Encodable;
    var head, body := [0, 0, 0, 0] + EncodeI32(|es|, be) + EncodeI32(Wrap32(strSize), be), EncodeBody(es);
    AtSplit(data, pos, head + body, [69, 79, 83, 0]);
    AtSplit(data, pos, head, body);
    var hdr := data[pos..pos + 12];
    assert hdr[..4] == [0, 0, 0, 0] && hdr[4..8] == EncodeI32(|es|, be) && hdr[8..] == EncodeI32(Wrap32(strSize), be);
    I32RoundTrip(|es|, be);
    WordRoundTrip(strSize, be);
    NoPrevious(es);
    TableRoundTrip(data, pos + 12, es, [], [], [0], AllocSize(strSize, |es| + 1));
    assert [] + Image(es) == Image(es);
  }

  lemma NoPrevious(es: seq<Entry>)
    requires Encodable([], es)
    ensures FirstPrefix(es) == 0
  {
  }

  lemma WordRoundTrip(w: nat, be: bool)
    requires w < 0x1_0000_0000
    ensures Word32(EncodeI32(Wrap32(w), be), be) == w
  {
    FourBytes(w);
    assert Wrap32(w) % 0x1_0000_0000 == w;
  }

  function TotalLength(es: seq<Entry>): nat {
    if es == [] then 0 else |es[0].str| + TotalLength(es[1..])
  }

  lemma ImageLength(es: seq<Entry>)
    ensures |Image(es)| == TotalLength(es) + |es|
  {
    if es != [] { ImageLength(es[1..]); }
  }

  /** There is room whenever the declared size covers the strings and the 32-bit sum that gives
      the size of the area does not wrap. */
  lemma EnoughRoom(es: seq<Entry>, strSize: nat)
    requires TotalLength(es) <= strSize && strSize + |es| + 2 < 0x1_0000_0000
    ensures |Image(es)| <= (strSize + |es| + 2) % 0x1_0000_0000
  {
    ImageLength(es);
  }

  /** A declared size near 2**32 makes the sum wrap: the area has one byte for one letter and its
      NUL, and the program exits. */
  lemma AllocExample(be: bool)
    ensures var es := [Entry([65], 0)];
            && (0xFFFF_FFFE + |es| + 2) % 0x1_0000_0000 == 1 && |Image(es)| == 2
            && SectionAt(EncodeSection(es, 0xFFFF_FFFE, be), 0, be) == Exit
  {
    hide SectionAt, EncodeSection;
    var es := [Entry([65], 0)];
    assert Image(es[1..]) == [];
    assert Encodable([65], es[1..]);
    var data := EncodeSection(es, 0xFFFF_FFFE, be);
    assert data[0..0 + |data|] == data;
    SectionRoundTrip(data, 0, es, 0xFFFF_FFFE, be);
  }

  lemma ImageCons(es: seq<Entry>, start: nat)
    requires es != []
    ensures Image(es) == es[0].str + [0] + Image(es[1..])
    ensures Offsets(start, es) == [start] + Offsets(start + |es[0].str| + 1, es[1..])
    ensures es[1..] != [] ==> Offsets(start + |es[0].str| + 1, es[1..])[0] == start + |es[0].str| + 1
  {
  }

  /** Entry i + 1 points to string i and its NUL; the strings do not overlap. */
  lemma ImageAt(es: seq<Entry>, start: nat, i: nat)
    requires i < |es|
    ensures var at := Offsets(start, es)[i] - start;
            && 0 <= at && at + |es[i].str| + 1 <= |Image(es)|
            && Image(es)[at..at + |es[i].str| + 1] == es[i].str + [0]
            && (i + 1 < |es| ==> Offsets(start, es)[i + 1] == Offsets(start, es)[i] + |es[i].str| + 1)
  {
    hide Image, Offsets;
    PlaceOf(es, start, i);
    if i + 1 < |es| {
      NextOffset(es, start, i);
    }
  }

  lemma {:induction false} NextOffset(es: seq<Entry>, start: nat, i: nat)
    requires i + 1 < |es|
    ensures Offsets(start, es)[i + 1] == Offsets(start, es)[i] + |es[i].str| + 1
    decreases i
  {
    ImageCons(es, start);
    if i > 0 {
      hide Image, Offsets;
      NextOffset(es[1..], start + |es[0].str| + 1, i - 1);
      OffsetAfter(es, start, i);
    }
  }

  lemma {:induction false} PlaceOf(es: seq<Entry>, start: nat, i: nat)
    requires i < |es|
    ensures Offsets(start, es)[i] >= start && At(Image(es), Offsets(start, es)[i] - start, es[i].str + [0])
    decreases i
  {
    var first, rest := es[0].str + [0], es[1..];
    ImageCons(es, start);
    hide Image, Offsets, At;
    if i == 0 {
      AtStart(first, Image(rest));
    } else {
      PlaceOf(rest, start + |first|, i - 1);
      OffsetAfter(es, start, i);
      AtLater(first, Image(rest), Offsets(start + |first|, rest)[i - 1] - (start + |first|), rest[i - 1].str + [0]);
    }
  }

  lemma OffsetAfter(es: seq<Entry>, start: nat, i: nat)
    requires 0 < i < |es|
    ensures Offsets(start, es)[i] == Offsets(start + |es[0].str| + 1, es[1..])[i - 1]
    ensures i + 1 < |es| ==> Offsets(start, es)[i + 1] == Offsets(start + |es[0].str| + 1, es[1..])[i]
  {
  }

  lemma AtStart(a: seq<Byte>, b: seq<Byte>)
    ensures At(a + b, 0, a)
  {
    assert (a + b)[0..|a|] == a;
  }

  lemma AtLater(a: seq<Byte>, b: seq<Byte>, at: nat, bytes: seq<Byte>)
    requires At(b, at, bytes)
    ensures At(a + b, |a| + at, bytes)
  {
    assert (a + b)[|a| + at..|a| + at + |bytes|] == b[at..at + |bytes|];
  }
}
