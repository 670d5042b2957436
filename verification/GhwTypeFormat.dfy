/** The format of the parts of a type table, and their round trips: ids, ranges, lists, and the
    bounds that make a subtype of an unbounded type. */
module GhwTypeFormat {
  import opened Vectors
  import opened GhwStream
  import opened GhwTypes
  import opened GhwTypeReader

  // ---- Ids and ranges ---------------------------------------------------

  predicate StrId(id: nat, nbrStr: nat) {
    id < nbrStr && id < 0x1_0000_0000
  }

  lemma StrIdIs(data: seq<Byte>, pos: nat, id: nat, nbrStr: nat)
    requires StrId(id, nbrStr) && At(data, pos, EncodeU(id))
    ensures StrIdAt(data, pos, nbrStr) == Ok(id, pos + |EncodeU(id)|)
  {
    UlebIs(data, pos, id);
  }

  /** Ids of types start at 1; there are n of them. */
  predicate TypeId(id: nat, n: nat) {
    1 <= id <= n && id < 0x1_0000_0000
  }

  /** The entry with this id. */
  function Entry(types: seq<nat>, id: nat): (t: nat)
    requires TypeId(id, |types|)
    ensures t in types
  {
    types[id - 1]
  }

  lemma TypeIdIs(data: seq<Byte>, pos: nat, id: nat, types: seq<nat>)
    requires TypeId(id, |types|) && At(data, pos, EncodeU(id))
    ensures TypeIdAt(data, pos, types) == Ok(Entry(types, id), pos + |EncodeU(id)|)
  {
    UlebIs(data, pos, id);
  }

  /** Kind 22 or 23 with bytes, 25 or 28 with 32-bit and 26 or 29 with 64-bit integers, 27 with doubles. */
  predicate ValidRange(r: Range) {
    || (r.kind in {22, 23} && 0 <= r.left < 256 && 0 <= r.right < 256)
    || (r.kind in {25, 28} && InWidth(r.left, 32) && InWidth(r.right, 32))
    || (r.kind in {26, 29} && InWidth(r.left, 64) && InWidth(r.right, 64))
    || (r.kind == 27 && IsDouble(r.left) && IsDouble(r.right))
  }

  function Abs(i: int): nat {
    if i < 0 then -i else i
  }

  function EncodeLimits(r: Range): seq<Byte> {
    if r.kind in {22, 23} then [r.left % 256, r.right % 256]
    else if r.kind == 27 then Unpack(Abs(r.left), 8) + Unpack(Abs(r.right), 8)
    else EncodeS(r.left) + EncodeS(r.right)
  }

  function KindByte(r: Range): Byte {
    (if r.downto then 128 + r.kind else r.kind) % 256
  }

  function EncodeRange(r: Range): seq<Byte> {
    [KindByte(r)] + EncodeLimits(r)
  }

  lemma RangeIs(data: seq<Byte>, pos: nat, r: Range)
    requires ValidRange(r) && At(data, pos, EncodeRange(r))
    ensures RangeAt(data, pos) == Ok(r, pos + |EncodeRange(r)|)
  {
    hide Sleb, EncodeS, RangeAt, KindByte, Unpack, Pack;
    AtSplit(data, pos, [KindByte(r)], EncodeLimits(r));
    OneByte(data, pos, KindByte(r));
    KindBits(r);
    if r.kind in {B2, E8} {
      TwoBytes(data, pos + 1, r.left, r.right);
      ByteRange(data, pos, r);
    } else if r.kind == F64 {
      AtSplit(data, pos + 1, Unpack(r.left, 8), Unpack(r.right, 8));
      DoubleIs(data, pos + 1, r.left);
      DoubleIs(data, pos + 9, r.right);
      DoubleRange(data, pos, r);
    } else {
      AtSplit(data, pos + 1, EncodeS(r.left), EncodeS(r.right));
      SlebIs(data, pos + 1, r.left, LimitWidth(r.kind));
      SlebIs(data, pos + 1 + |EncodeS(r.left)|, r.right, LimitWidth(r.kind));
      IntRange(data, pos, r, pos + 1 + |EncodeS(r.left)|, pos + |EncodeRange(r)|);
    }
  }

  lemma KindBits(r: Range)
    requires ValidRange(r)
    ensures KindByte(r) % 128 == r.kind && (KindByte(r) >= 128) == r.downto
  {
  }

  lemma TwoBytes(data: seq<Byte>, pos: nat, a: Byte, b: Byte)
    requires At(data, pos, [a, b])
    ensures pos + 2 <= |data| && data[pos] == a && data[pos + 1] == b
  {
    assert data[pos..pos + 2][0] == a && data[pos..pos + 2][1] == b;
  }

  lemma ByteRange(data: seq<Byte>, pos: nat, r: Range)
    requires pos + 3 <= |data| && r.kind in {B2, E8} && data[pos] % 128 == r.kind && (data[pos] >= 128) == r.downto
    requires data[pos + 1] == r.left && data[pos + 2] == r.right
    ensures RangeAt(data, pos) == Ok(r, pos + 3)
  {
  }

  lemma DoubleRange(data: seq<Byte>, pos: nat, r: Range)
    requires pos + 17 <= |data| && r.kind == F64 && data[pos] % 128 == r.kind && (data[pos] >= 128) == r.downto
    requires Pack(data[pos + 1..pos + 9]) == r.left && Pack(data[pos + 9..pos + 17]) == r.right
    ensures RangeAt(data, pos) == Ok(r, pos + 17)
  {
    hide Pack;
  }

  lemma IntRange(data: seq<Byte>, pos: nat, r: Range, mid: nat, end: nat)
    requires pos < |data| && r.kind in {I32, P32, I64, P64} && data[pos] % 128 == r.kind
    requires (data[pos] >= 128) == r.downto
    requires Sleb(data, pos + 1, LimitWidth(r.kind)) == Ok(r.left, mid) && mid <= |data|
    requires Sleb(data, mid, LimitWidth(r.kind)) == Ok(r.right, end)
    ensures RangeAt(data, pos) == Ok(r, end)
  {
    hide Sleb;
  }

  function EncodeRanges(rs: seq<Range>): seq<Byte> {
    if rs == [] then [] else EncodeRange(rs[0]) + EncodeRanges(rs[1..])
  }

  lemma {:induction false} RangesAre(data: seq<Byte>, pos: nat, rs: seq<Range>, done: seq<Range>)
    requires (forall r :: r in rs ==> ValidRange(r) && r.kind in {22, 23, 25}) && At(data, pos, EncodeRanges(rs))
    ensures RangesAt(data, pos, done, |rs|) == Ok(done + rs, pos + |EncodeRanges(rs)|)
    decreases |rs|
  {
    hide RangeAt, EncodeRange, ValidRange;
    if rs == [] {
      assert done + rs == done;
    } else {
      AtSplit(data, pos, EncodeRange(rs[0]), EncodeRanges(rs[1..]));
      RangeIs(data, pos, rs[0]);
      RangesAre(data, pos + |EncodeRange(rs[0])|, rs[1..], done + [rs[0]]);
      assert done + [rs[0]] + rs[1..] == done + rs;
    }
  }

  // ---- Bounds -----------------------------------------------------------

  /** What an object needs besides its type: nothing, ranges and bounds for the elements of an
      array, or bounds for the fields of a record. */
  datatype Bounds = AsIs | OnArray(rngs: seq<Range>, el: Bounds) | OnRecord(fields: seq<Bounds>)

  function EncodeBounds(b: Bounds): seq<Byte> {
    match b
    case AsIs => []
    case OnArray(rngs, el) => EncodeRanges(rngs) + EncodeBounds(el)
    case OnRecord(fields) => EncodeAllBounds(fields)
  }

  function EncodeAllBounds(bs: seq<Bounds>): seq<Byte> {
    if bs == [] then [] else EncodeBounds(bs[0]) + EncodeAllBounds(bs[1..])
  }

  /** The array type behind type t: itself, or the base of a subtype. */
  function ArrayOf(pool: Pool, t: nat): (a: Option)
    requires WellFounded(pool)
    ensures a.Some? ==> t < |pool| && a.value <= t && pool[a.value].ArrayType? && pool[a.value].el < a.value
  {
    if t >= |pool| then None
    else
      var a := BaseOf(pool, t);
      if pool[a].ArrayType? then ElementBelow(pool, a); Some(a) else None
  }

  /** These bounds are what type t lacks. */
  ghost predicate BoundsFit(pool: Pool, t: nat, b: Bounds)
    requires WellFounded(pool)
    decreases b, 1
  {
    t < |pool| && if GetNbrElements(pool[t]) >= 0 then b.AsIs? else SubtypeFits(pool, t, b)
  }

  /** These bounds make a subtype of type t. */
  ghost predicate SubtypeFits(pool: Pool, t: nat, b: Bounds)
    requires WellFounded(pool) && t < |pool|
    decreases b, 0
  {
    match b
    case AsIs => false
    case OnArray(rngs, el) =>
      && ArrayOf(pool, t).Some?
      && |rngs| == |pool[ArrayOf(pool, t).value].dims|
      && (forall r :: r in rngs ==> ValidRange(r) && r.kind in {22, 23, 25})
      && BoundsFit(pool, pool[ArrayOf(pool, t).value].el, el)
    case OnRecord(fields) =>
      && pool[t].RecordType?
      && if pool[t].nbrScalars >= 0 then fields == []
         else && |fields| == |pool[t].els|
              && forall j :: 0 <= j < |fields| ==> BoundsFit(pool, pool[t].els[j].ty, fields[j])
  }

  /** Type r is type t with these bounds. */
  ghost predicate Shaped(pool: Pool, r: nat, t: nat, b: Bounds)
    requires WellFounded(pool)
    decreases b
  {
    match b
    case AsIs => r == t
    case OnArray(rngs, el) =>
      && r < |pool| && pool[r].SubtypeArray? && pool[r].base == t && pool[r].rngs == rngs
      && ArrayOf(pool, t).Some? && Shaped(pool, pool[r].el, pool[ArrayOf(pool, t).value].el, el)
    case OnRecord(fields) =>
      && r < |pool| && t < |pool| && pool[r].SubtypeRecord? && pool[r].base == t && pool[t].RecordType?
      && if pool[t].nbrScalars >= 0 then pool[r].els == pool[t].els
         else |fields| == |pool[r].els| == |pool[t].els| && forall j :: 0 <= j < |fields| ==>
                && pool[r].els[j].name == pool[t].els[j].name
                && Shaped(pool, pool[r].els[j].ty, pool[t].els[j].ty, fields[j])
  }

  /** Completing more types changes nothing. */
  lemma {:induction false} ShapedStays(pool: Pool, pool': Pool, r: nat, t: nat, b: Bounds)
    requires WellFounded(pool) && WellFounded(pool') && pool <= pool' && Shaped(pool, r, t, b)
    ensures Shaped(pool', r, t, b)
    decreases b
  {
    hide WellFounded;
    match b
    case AsIs =>
    case OnArray(_, el) => ShapedStays(pool, pool', pool[r].el, pool[ArrayOf(pool, t).value].el, el);
    case OnRecord(fields) =>
      if pool[t].nbrScalars < 0 {
        forall j | 0 <= j < |fields| ensures Shaped(pool', pool'[r].els[j].ty, pool'[t].els[j].ty, fields[j]) {
          ShapedStays(pool, pool', pool[r].els[j].ty, pool[t].els[j].ty, fields[j]);
        }
      }
  }

  /** A reader that consumed `len` bytes and returned type t with these bounds. */
  ghost predicate Decoded(out: Read<(Pool, nat)>, pos: nat, len: nat, pool: Pool, t: nat, b: Bounds) {
    && out.Ok? && out.pos == pos + len && Good(out.value.0) && pool <= out.value.0
    && Shaped(out.value.0, out.value.1, t, b)
  }

  /** Bounds are read back; `first` is the table for which they were made. */
  lemma {:induction false} ElementIs(data: seq<Byte>, pos: nat, first: Pool, pool: Pool, t: nat, b: Bounds)
    requires Good(first) && Good(pool) && first <= pool && BoundsFit(first, t, b) && At(data, pos, EncodeBounds(b))
    ensures Decoded(ElementAt(data, pos, pool, t), pos, |EncodeBounds(b)|, pool, t, b)
    decreases b, 1
  {
    hide Good, GetNbrElements, EncodeBounds;
    GoodFounded(first);
    GoodFounded(pool);
    if GetNbrElements(pool[t]) >= 0 {
      NoBytes(b);
    } else {
      SubtypeIs(data, pos, first, pool, Anonymous, t, b);
      BoundsRead(data, pos, first, pool, t, b);
    }
  }

  lemma GoodFounded(pool: Pool)
    requires Good(pool)
    ensures WellFounded(pool)
  {
  }

  lemma NoBytes(b: Bounds)
    requires b.AsIs?
    ensures EncodeBounds(b) == []
  {
  }

  /** Bounds are only read for types that lack them, by the reader for their kind. */
  lemma BoundsRead(data: seq<Byte>, pos: nat, first: Pool, pool: Pool, t: nat, b: Bounds)
    requires Good(first) && Good(pool) && first <= pool && t < |first| && SubtypeFits(first, t, b) && pos <= |data|
    requires GetNbrElements(pool[t]) < 0
    ensures TypeBoundsAt(data, pos, pool, t) == if b.OnArray? then ArraySubtypeAt(data, pos, pool, Anonymous, t)
                                                else RecordSubtypeAt(data, pos, pool, Anonymous, t)
  {
    CountOf(pool, t);
  }

  /** The subtype of type t that is read, with its name. */
  ghost predicate DecodedAs(out: Read<(Pool, nat)>, pos: nat, len: nat, pool: Pool, name: Name, t: nat, b: Bounds) {
    Decoded(out, pos, len, pool, t, b) && out.value.1 < |out.value.0| && out.value.0[out.value.1].name == name
  }

  lemma {:induction false} SubtypeIs(data: seq<Byte>, pos: nat, first: Pool, pool: Pool, name: Name, t: nat, b: Bounds)
    requires Good(first) && Good(pool) && first <= pool && t < |first| && SubtypeFits(first, t, b)
    requires At(data, pos, EncodeBounds(b))
    ensures b.OnArray? ==> DecodedAs(ArraySubtypeAt(data, pos, pool, name, t), pos, |EncodeBounds(b)|, pool, name, t, b)
    ensures b.OnRecord? ==>
              DecodedAs(RecordSubtypeAt(data, pos, pool, name, t), pos, |EncodeBounds(b)|, pool, name, t, b)
    decreases b, 0
  {
    hide Good, ArraySubtypeAt, RecordSubtypeAt, DecodedAs, GetNbrElements, ArrayOf, ValidRange;
    match b
    case AsIs =>
    case OnArray(rngs, el) => ArraySubtypeIs(data, pos, first, pool, name, t, rngs, el);
    case OnRecord(fields) => RecordSubtypeIs(data, pos, first, pool, name, t, fields);
  }

  lemma {:induction false} ArraySubtypeIs(data: seq<Byte>, pos: nat, first: Pool, pool: Pool, name: Name,
        t: nat, rngs: seq<Range>, el: Bounds)
    requires Good(first) && Good(pool) && first <= pool && t < |first| && ArrayOf(first, t).Some?
    requires |rngs| == |first[ArrayOf(first, t).value].dims|
    requires forall r :: r in rngs ==> ValidRange(r) && r.kind in {22, 23, 25}
    requires BoundsFit(first, first[ArrayOf(first, t).value].el, el)
    requires At(data, pos, EncodeRanges(rngs) + EncodeBounds(el))
    ensures DecodedAs(ArraySubtypeAt(data, pos, pool, name, t), pos, |EncodeRanges(rngs) + EncodeBounds(el)|,
                      pool, name, t, OnArray(rngs, el))
    decreases el, 2
  {
    hide Good, WellFounded, ArraySubtypeAt, Decoded, DecodedAs, GetNbrElements, BoundsFit;
    hide EncodeRanges, EncodeBounds, ElementAt, ArrayOf, RangesAt, ValidRange;
    GoodFounded(first);
    GoodFounded(pool);
    ArrayOfStays(first, pool, t);
    AtSplit(data, pos, EncodeRanges(rngs), EncodeBounds(el));
    RangesAre(data, pos, rngs, []);
    assert [] + rngs == rngs;
    var p, x := pos + |EncodeRanges(rngs)|, first[ArrayOf(first, t).value].el;
    ElementIs(data, p, first, pool, x, el);
    ArrayIs(data, pos, pool, name, t, rngs, el, x, p, |EncodeBounds(el)|);
  }

  lemma {:induction false} RecordSubtypeIs(data: seq<Byte>, pos: nat, first: Pool, pool: Pool, name: Name,
        t: nat, fields: seq<Bounds>)
    requires Good(first) && Good(pool) && first <= pool && t < |first| && first[t].RecordType?
    requires At(data, pos, EncodeAllBounds(fields))
    requires if first[t].nbrScalars >= 0 then fields == []
             else && |fields| == |first[t].els|
                  && forall j :: 0 <= j < |fields| ==> BoundsFit(first, first[t].els[j].ty, fields[j])
    ensures DecodedAs(RecordSubtypeAt(data, pos, pool, name, t),
                      pos, |EncodeAllBounds(fields)|, pool, name, t, OnRecord(fields))
    decreases fields, 1
  {
    hide RecordSubtypeAt, DecodedAs, GetNbrElements, BoundsFit, Bounded, BoundFieldsAt;
    RecordBelow(first, t);
    NoFields(pool);
    AllBound(pool, []);
    if first[t].nbrScalars < 0 {
      FieldsAre(data, pos, first, pool, first[t].els, [], t, fields);
    }
    RecordIs(data, pos, pool, name, t, fields, |EncodeAllBounds(fields)|);
  }

  lemma ArrayIs(data: seq<Byte>, pos: nat, pool: Pool, name: Name, t: nat, rngs: seq<Range>, el: Bounds,
        x: nat, p: nat, len: nat)
    requires Good(pool) && pos <= |data| && ArrayOf(pool, t).Some?
    requires |rngs| == |pool[ArrayOf(pool, t).value].dims| && x == pool[ArrayOf(pool, t).value].el
    requires RangesAt(data, pos, [], |rngs|) == Ok(rngs, p) && p <= |data|
    requires Decoded(ElementAt(data, p, pool, x), p, len, pool, x, el)
    ensures DecodedAs(ArraySubtypeAt(data, pos, pool, name, t), pos, p - pos + len, pool, name, t, OnArray(rngs, el))
  {
    hide Good, WellFounded, Bounded, RangesAt, GetNbrElements, Extent, ElementAt, BaseType, Shaped;
    var e := ElementAt(data, p, pool, x).value;
    var after := WithArray(e.0, name, t, rngs, e.1);
    GoodFounded(pool);
    GoodFounded(e.0);
    GoodFounded(after);
    ShapedStays(e.0, after, e.1, x, el);
    ArrayOfStays(pool, after, t);
    BaseIsArray(pool, t);
    ArrayShaped(after, |e.0|, t, rngs, el);
    var result: (Pool, nat) := (after, |e.0|);
    assert ArraySubtypeAt(data, pos, pool, name, t) == Ok(result, p + len);
  }

  lemma BaseIsArray(pool: Pool, t: nat)
    requires WellFounded(pool) && ArrayOf(pool, t).Some?
    ensures BaseType(pool, t) == ArrayOf(pool, t)
  {
  }

  lemma ArrayOfStays(pool: Pool, after: Pool, t: nat)
    requires WellFounded(pool) && WellFounded(after) && pool <= after && ArrayOf(pool, t).Some?
    ensures ArrayOf(after, t) == ArrayOf(pool, t)
  {
    hide WellFounded;
  }

  lemma ArrayShaped(pool: Pool, r: nat, t: nat, rngs: seq<Range>, el: Bounds)
    requires WellFounded(pool) && r < |pool| && pool[r].SubtypeArray? && pool[r].base == t && pool[r].rngs == rngs
    requires ArrayOf(pool, t).Some? && Shaped(pool, pool[r].el, pool[ArrayOf(pool, t).value].el, el)
    ensures Shaped(pool, r, t, OnArray(rngs, el))
  {
    hide WellFounded, ArrayOf;
  }

  /** Fields k, k + 1, ... of `bs` are those of `els`, with these bounds. */
  ghost predicate FieldsShaped(pool: Pool, bs: seq<Field>, k: nat, els: seq<Field>, fields: seq<Bounds>)
    requires WellFounded(pool)
  {
    && |els| == |fields| && |bs| == k + |els|
    && forall j :: 0 <= j < |els| ==> bs[k + j].name == els[j].name && Shaped(pool, bs[k + j].ty, els[j].ty, fields[j])
  }

  lemma {:induction false} FieldsAre(data: seq<Byte>, pos: nat, first: Pool, pool: Pool, els: seq<Field>,
        done: seq<Field>, bound: nat, fields: seq<Bounds>)
    requires Good(first) && FieldsBound(pool, done) && first <= pool && bound <= |first|
    requires Below(FieldTypes(els), bound)
    requires |fields| == |els| && forall j :: 0 <= j < |els| ==> BoundsFit(first, els[j].ty, fields[j])
    requires At(data, pos, EncodeAllBounds(fields))
    ensures var out := BoundFieldsAt(data, pos, pool, els, done, bound);
            && out.Ok? && out.pos == pos + |EncodeAllBounds(fields)|
            && done <= out.value.1 && FieldsShaped(out.value.0, out.value.1, |done|, els, fields)
    decreases fields, 0
  {
    hide Good, GetNbrElements, ElementAt, SomeUnbounded, WellFounded, BoundsFit, Shaped;
    GoodFounded(first);
    GoodFounded(pool);
    if els != [] {
      var f := els[0];
      AtSplit(data, pos, EncodeBounds(fields[0]), EncodeAllBounds(fields[1..]));
      ElementIs(data, pos, first, pool, f.ty, fields[0]);
      var e := ElementAt(data, pos, pool, f.ty);
      assert FieldTypes(els)[0] == f.ty && FieldTypes(els[1..]) == FieldTypes(els)[1..];
      var g := Field(f.name, e.value.1);
      BoundOneMore(pool, done, e.value.0, g);
      FieldsAre(data, e.pos, first, e.value.0, els[1..], done + [g], bound, fields[1..]);
      var out := BoundFieldsAt(data, pos, pool, els, done, bound);
      GoodFounded(e.value.0);
      GoodFounded(out.value.0);
      ShapedStays(e.value.0, out.value.0, g.ty, f.ty, fields[0]);
      ShapedCons(out.value.0, out.value.1, |done|, els, fields);
    }
  }

  lemma ShapedCons(pool: Pool, bs: seq<Field>, k: nat, els: seq<Field>, fields: seq<Bounds>)
    requires WellFounded(pool) && els != [] && fields != [] && k < |bs|
    requires bs[k].name == els[0].name && Shaped(pool, bs[k].ty, els[0].ty, fields[0])
    requires FieldsShaped(pool, bs, k + 1, els[1..], fields[1..])
    ensures FieldsShaped(pool, bs, k, els, fields)
  {
    hide Shaped, WellFounded;
    forall j | 0 < j < |els| ensures bs[k + j].name == els[j].name && Shaped(pool, bs[k + j].ty, els[j].ty, fields[j]) {
      assert bs[k + 1 + (j - 1)].name == els[1..][j - 1].name;
    }
  }

  /** The fields of a subtype with these bounds. */
  lemma RecordShaped(f: Pool, after: Pool, r: nat, t: nat, fields: seq<Bounds>)
    requires WellFounded(f) && WellFounded(after) && f <= after && t < |f| && r < |after|
    requires after[t].RecordType? && after[t].nbrScalars < 0 && after[r].SubtypeRecord? && after[r].base == t
    requires FieldsShaped(f, after[r].els, 0, after[t].els, fields)
    ensures Shaped(after, r, t, OnRecord(fields))
  {
    hide WellFounded;
    var els, bs := after[t].els, after[r].els;
    forall j | 0 <= j < |fields| ensures bs[j].name == els[j].name && Shaped(after, bs[j].ty, els[j].ty, fields[j]) {
      assert bs[0 + j].name == els[j].name;
      ShapedStays(f, after, bs[j].ty, els[j].ty, fields[j]);
    }
  }

  lemma RecordIs(data: seq<Byte>, pos: nat, pool: Pool, name: Name, t: nat, fields: seq<Bounds>, len: nat)
    requires Good(pool) && t < |pool| && pos <= |data| && pool[t].RecordType?
    requires Below(FieldTypes(pool[t].els), t) && FieldsBound(pool, [])
    requires if pool[t].nbrScalars >= 0 then len == 0 && fields == []
             else var out := BoundFieldsAt(data, pos, pool, pool[t].els, [], t);
                  out.Ok? && out.pos == pos + len && FieldsShaped(out.value.0, out.value.1, 0, pool[t].els, fields)
    ensures DecodedAs(RecordSubtypeAt(data, pos, pool, name, t), pos, len, pool, name, t, OnRecord(fields))
  {
    hide Good, Bounded, GetNbrElements, SomeUnbounded, SumCounts, BoundFieldsAt, FieldsShaped, WellFounded;
    GoodFounded(pool);
    if pool[t].nbrScalars < 0 {
      var f := BoundFieldsAt(data, pos, pool, pool[t].els, [], t).value;
      var after := WithRecord(f.0, name, t, f.1);
      GoodFounded(f.0);
      GoodFounded(after);
      assert after == f.0 + [after[|f.0|]] && after[t] == pool[t];
      hide Shaped;
      RecordShaped(f.0, after, |f.0|, t, fields);
    }
  }

  // ---- Lists ------------------------------------------------------------

  function EncodeNats(ns: seq<nat>): seq<Byte> {
    if ns == [] then [] else EncodeU(ns[0]) + EncodeNats(ns[1..])
  }

  function EncodeUnits(us: seq<(nat, int)>): seq<Byte> {
    if us == [] then [] else EncodeU(us[0].0) + EncodeS(us[0].1) + EncodeUnits(us[1..])
  }

  function EncodeFields(fs: seq<Field>): seq<Byte> {
    if fs == [] then [] else EncodeU(fs[0].name) + EncodeU(fs[0].ty) + EncodeFields(fs[1..])
  }

  predicate AllStrIds(ids: seq<nat>, nbrStr: nat) {
    forall k :: 0 <= k < |ids| ==> StrId(ids[k], nbrStr)
  }

  predicate AllTypeIds(ids: seq<nat>, n: nat) {
    forall k :: 0 <= k < |ids| ==> TypeId(ids[k], n)
  }

  predicate ValidUnits(us: seq<(nat, int)>, nbrStr: nat) {
    forall k :: 0 <= k < |us| ==> StrId(us[k].0, nbrStr) && InWidth(us[k].1, 64)
  }

  predicate FieldTypeIds(fs: seq<Field>, n: nat) {
    forall k :: 0 <= k < |fs| ==> TypeId(fs[k].ty, n)
  }

  predicate ValidFields(fs: seq<Field>, nbrStr: nat, n: nat) {
    FieldTypeIds(fs, n) && forall k :: 0 <= k < |fs| ==> StrId(fs[k].name, nbrStr)
  }

  /** The types behind ids. */
  function Resolve(ids: seq<nat>, types: seq<nat>): (ts: seq<nat>)
    requires AllTypeIds(ids, |types|)
    ensures |ts| == |ids| && forall t :: t in ts ==> t in types
  {
    seq(|ids|, k requires 0 <= k < |ids| => Entry(types, ids[k]))
  }

  function ResolveFields(fs: seq<Field>, types: seq<nat>): (els: seq<Field>)
    requires FieldTypeIds(fs, |types|)
    ensures |els| == |fs| && forall f :: f in els ==> f.ty in types
  {
    seq(|fs|, k requires 0 <= k < |fs| => Field(fs[k].name, Entry(types, fs[k].ty)))
  }

  lemma {:induction false} LitsAre(data: seq<Byte>, pos: nat, nbrStr: nat, lits: seq<nat>, done: seq<nat>)
    requires AllStrIds(lits, nbrStr) && At(data, pos, EncodeNats(lits))
    ensures LitsAt(data, pos, nbrStr, done, |lits|) == Ok(done + lits, pos + |EncodeNats(lits)|)
    decreases |lits|
  {
    hide StrIdAt, EncodeU;
    if lits == [] {
      assert done + lits == done;
    } else {
      AtSplit(data, pos, EncodeU(lits[0]), EncodeNats(lits[1..]));
      StrIdIs(data, pos, lits[0], nbrStr);
      LitsAre(data, pos + |EncodeU(lits[0])|, nbrStr, lits[1..], done + [lits[0]]);
      assert done + [lits[0]] + lits[1..] == done + lits;
    }
  }

  lemma {:induction false} DimsAre(data: seq<Byte>, pos: nat, types: seq<nat>, ids: seq<nat>, done: seq<nat>)
    requires AllTypeIds(ids, |types|) && (forall t :: t in done ==> t in types) && At(data, pos, EncodeNats(ids))
    ensures DimsAt(data, pos, types, done, |ids|) == Ok(done + Resolve(ids, types), pos + |EncodeNats(ids)|)
    decreases |ids|
  {
    hide TypeIdAt, EncodeU;
    if ids == [] {
      assert done + Resolve(ids, types) == done;
    } else {
      AtSplit(data, pos, EncodeU(ids[0]), EncodeNats(ids[1..]));
      TypeIdIs(data, pos, ids[0], types);
      var t := Entry(types, ids[0]);
      DimsAre(data, pos + |EncodeU(ids[0])|, types, ids[1..], done + [t]);
      assert done + [t] + Resolve(ids[1..], types) == done + Resolve(ids, types);
    }
  }

  lemma {:induction false} UnitsAre(data: seq<Byte>, pos: nat, nbrStr: nat, us: seq<(nat, int)>, done: seq<(nat, int)>)
    requires ValidUnits(us, nbrStr) && At(data, pos, EncodeUnits(us))
    ensures UnitsAt(data, pos, nbrStr, done, |us|) == Ok(done + us, pos + |EncodeUnits(us)|)
    decreases |us|
  {
    hide StrIdAt, Sleb, EncodeU, EncodeS, InWidth, StrId;
    if us == [] {
      assert done + us == done;
    } else {
      var (id, v) := us[0];
      AtSplit(data, pos, EncodeU(id) + EncodeS(v), EncodeUnits(us[1..]));
      AtSplit(data, pos, EncodeU(id), EncodeS(v));
      StrIdIs(data, pos, id, nbrStr);
      SlebIs(data, pos + |EncodeU(id)|, v, 64);
      var next := pos + |EncodeU(id)| + |EncodeS(v)|;
      UnitsAre(data, next, nbrStr, us[1..], done + [us[0]]);
      assert done + [us[0]] + us[1..] == done + us;
      assert UnitsAt(data, pos, nbrStr, done, |us|) == UnitsAt(data, next, nbrStr, done + [us[0]], |us| - 1);
    }
  }

  lemma {:induction false} TypeFieldsAre(data: seq<Byte>, pos: nat, nbrStr: nat, types: seq<nat>,
        fs: seq<Field>, done: seq<Field>)
    requires ValidFields(fs, nbrStr, |types|) && (forall f :: f in done ==> f.ty in types)
    requires At(data, pos, EncodeFields(fs))
    ensures FieldsAt(data, pos, nbrStr, types, done, |fs|) ==
            Ok(done + ResolveFields(fs, types), pos + |EncodeFields(fs)|)
    decreases |fs|
  {
    hide StrIdAt, TypeIdAt, EncodeU, StrId, TypeId;
    if fs == [] {
      assert done + ResolveFields(fs, types) == done;
    } else {
      var f := fs[0];
      AtSplit(data, pos, EncodeU(f.name) + EncodeU(f.ty), EncodeFields(fs[1..]));
      AtSplit(data, pos, EncodeU(f.name), EncodeU(f.ty));
      StrIdIs(data, pos, f.name, nbrStr);
      var g := ResolveFields(fs, types)[0];
      FieldTypeIs(data, pos + |EncodeU(f.name)|, types, fs);
      TypeFieldsAre(data, pos + |EncodeU(f.name)| + |EncodeU(f.ty)|, nbrStr, types, fs[1..], done + [g]);
      assert done + [g] + ResolveFields(fs[1..], types) == done + ResolveFields(fs, types);
    }
  }

  lemma FieldTypeIs(data: seq<Byte>, pos: nat, types: seq<nat>, fs: seq<Field>)
    requires fs != [] && FieldTypeIds(fs, |types|) && At(data, pos, EncodeU(fs[0].ty))
    ensures TypeIdAt(data, pos, types) == Ok(ResolveFields(fs, types)[0].ty, pos + |EncodeU(fs[0].ty)|)
  {
    TypeIdIs(data, pos, fs[0].ty, types);
  }
}
