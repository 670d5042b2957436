/** Reading the type table: what each reader makes of the stream, on values, and the readers. */
module GhwTypeReader {
  import opened Vectors
  import opened GhwStream
  import opened GhwTypes

  // ---- Ids and ranges ---------------------------------------------------

  /** ghw_read_strid */
  function StrIdAt(data: seq<Byte>, pos: nat, nbrStr: nat): (out: Read<nat>)
    requires pos <= |data|
    ensures !out.Fail? && (out.Ok? ==> pos < out.pos <= |data| && out.value < nbrStr)
  {
    var r :- Uleb(data, pos).Must();
    if r.v < nbrStr then Ok(r.v, r.pos) else Exit
  }

  /** ghw_read_typeid: ids start at 1, and only entries already read are accepted. */
  function TypeIdAt(data: seq<Byte>, pos: nat, types: seq<nat>): (out: Read<nat>)
    requires pos <= |data|
    ensures !out.Fail? && (out.Ok? ==> pos < out.pos <= |data| && out.value in types)
  {
    var r :- Uleb(data, pos).Must();
    if 1 <= r.v <= |types| then Ok(types[r.v - 1], r.pos) else Exit
  }

  /** The size of the limits of a range of integers. */
  function LimitWidth(kind: nat): (w: nat)
    ensures w in {32, 64}
  {
    if kind in {I32, P32} then 32 else 64
  }

  /** ghw_read_range: a kind byte with the direction in its top bit, then both limits. */
  function RangeAt(data: seq<Byte>, pos: nat): (out: Read<Range>)
    requires pos <= |data|
    ensures !out.Fail? && (out.Ok? ==> pos < out.pos <= |data|)
  {
    if pos == |data| then Exit
    else
      var kind, downto := data[pos] % 128, data[pos] >= 128;
      if kind in {B2, E8} then
        if pos + 3 > |data| then Exit else Ok(Range(kind, downto, data[pos + 1], data[pos + 2]), pos + 3)
      else if kind in {I32, P32, I64, P64} then
        var l :- Sleb(data, pos + 1, LimitWidth(kind)).Must();
        var r :- Sleb(data, l.pos, LimitWidth(kind)).Must();
        Ok(Range(kind, downto, l.v, r.v), r.pos)
      else if kind == F64 && pos + 17 <= |data| then
        Ok(Range(kind, downto, Pack(data[pos + 1..pos + 9]), Pack(data[pos + 9..pos + 17])), pos + 17)
      else Exit
  }

  /** The remaining n ranges of an array subtype; each must have a length. */
  function RangesAt(data: seq<Byte>, pos: nat, rngs: seq<Range>, n: nat): (out: Read<seq<Range>>)
    requires pos <= |data|
    ensures !out.Fail? && (out.Ok? ==> pos <= out.pos <= |data| && |out.value| == |rngs| + n)
    ensures out.Ok? && (forall r :: r in rngs ==> r.kind in {22, 23, 25}) ==>
              forall r :: r in out.value ==> r.kind in {22, 23, 25}
    decreases n
  {
    if n == 0 then Ok(rngs, pos)
    else
      var r :- RangeAt(data, pos);
      if HasLength(r.v) then RangesAt(data, r.pos, rngs + [r.v], n - 1) else Exit
  }

  // ---- Subtypes ---------------------------------------------------------

  /** The table after one more entry, which is of kind `tag`. */
  ghost predicate Entered(pool: Pool, r: (Pool, nat), tag: int) {
    Good(r.0) && pool <= r.0 && |pool| <= r.1 < |r.0| && Tag(r.0[r.1]) == tag
  }

  /** The same for subtypes, which have all bounds. */
  ghost predicate Added(pool: Pool, r: (Pool, nat), tag: int) {
    Entered(pool, r, tag) && Bounded(r.0, r.1)
  }

  /** Append an array subtype. */
  function WithArray(pool: Pool, name: Name, base: nat, rngs: seq<Range>, el: nat): (p: Pool)
    requires Good(pool) && base < |pool| && el < |pool| && GetNbrElements(pool[el]) >= 0
    ensures Added(pool, (p, |pool|), SUBTYPE_ARRAY)
  {
    var x := SubtypeArray(name, base, Extent(rngs) * GetNbrElements(pool[el]), rngs, el);
    AddArray(pool, x);
    pool + [x]
  }

  /** Append a record subtype. */
  function WithRecord(pool: Pool, name: Name, base: nat, els: seq<Field>): (p: Pool)
    requires Good(pool) && base < |pool| && Below(FieldTypes(els), |pool|) && !SomeUnbounded(pool, FieldTypes(els))
    ensures Added(pool, (p, |pool|), SUBTYPE_RECORD)
  {
    var x := SubtypeRecord(name, base, SumCounts(pool, FieldTypes(els)), els);
    AddRecord(pool, x);
    pool + [x]
  }

  /** ghw_read_array_subtype: one range for each dimension, then bounds for the element type if it
      has none. */
  function ArraySubtypeAt(data: seq<Byte>, pos: nat, pool: Pool, name: Name, base: nat): (out: Read<(Pool, nat)>)
    requires Good(pool) && base < |pool| && pos <= |data|
    ensures !out.Fail? && (out.Ok? ==> pos <= out.pos <= |data| && Added(pool, out.value, SUBTYPE_ARRAY))
    decreases base, 1, 0
  {
    var b := BaseType(pool, base);
    if b.None? || !pool[b.value].ArrayType? then Exit
    else
      ElementBelow(pool, b.value);
      var arr := pool[b.value];
      var rs :- RangesAt(data, pos, [], |arr.dims|);
      var e :- ElementAt(data, rs.pos, pool, arr.el);
      Ok((WithArray(e.v.0, name, base, rs.v, e.v.1), |e.v.0|), e.pos)
  }

  /** The type of an element or field: as it is, or with bounds that are read. */
  function ElementAt(data: seq<Byte>, pos: nat, pool: Pool, t: nat): (out: Read<(Pool, nat)>)
    requires Good(pool) && t < |pool| && pos <= |data|
    ensures !out.Fail? && (out.Ok? ==> pos <= out.pos <= |data| && Good(out.value.0) && pool <= out.value.0
                                       && out.value.1 < |out.value.0| && GetNbrElements(out.value.0[out.value.1]) >= 0)
    decreases t, 3, 0
  {
    if GetNbrElements(pool[t]) >= 0 then Ok((pool, t), pos) else TypeBoundsAt(data, pos, pool, t)
  }

  /** ghw_read_record_subtype: a bounded record is taken as it is, otherwise each field without
      bounds gets them. */
  function RecordSubtypeAt(data: seq<Byte>, pos: nat, pool: Pool, name: Name, base: nat): (out: Read<(Pool, nat)>)
    requires Good(pool) && base < |pool| && pos <= |data| && pool[base].RecordType?
    ensures !out.Fail? && (out.Ok? ==> pos <= out.pos <= |data| && Added(pool, out.value, SUBTYPE_RECORD))
    decreases base, 1, 0
  {
    hide Bounded, SumCounts, SomeUnbounded;
    RecordBelow(pool, base);
    if pool[base].nbrScalars >= 0 then
      BoundedRecord(pool, base);
      Ok((WithRecord(pool, name, base, pool[base].els), |pool|), pos)
    else
      NoFields(pool);
      var f :- BoundFieldsAt(data, pos, pool, pool[base].els, [], base);
      Ok((WithRecord(f.v.0, name, base, f.v.1), |f.v.0|), f.pos)
  }

  /** The remaining fields of a record subtype. */
  function BoundFieldsAt(data: seq<Byte>, pos: nat, pool: Pool, els: seq<Field>, done: seq<Field>,
        bound: nat): (out: Read<(Pool, seq<Field>)>)
    requires FieldsBound(pool, done) && bound <= |pool| && pos <= |data| && Below(FieldTypes(els), bound)
    ensures !out.Fail?
    ensures out.Ok? ==> pos <= out.pos <= |data| && pool <= out.value.0 && FieldsBound(out.value.0, out.value.1)
                        && |out.value.1| == |done| + |els|
    decreases bound, 0, |els|
  {
    hide SomeUnbounded, Good;
    if els == [] then Ok((pool, done), pos)
    else
      var f := els[0];
      assert FieldTypes(els)[0] == f.ty && FieldTypes(els[1..]) == FieldTypes(els)[1..];
      var e :- ElementAt(data, pos, pool, f.ty);
      BoundOneMore(pool, done, e.v.0, Field(f.name, e.v.1));
      BoundFieldsAt(data, e.pos, e.v.0, els[1..], done + [Field(f.name, e.v.1)], bound)
  }

  /** All these fields have bounds. */
  ghost predicate FieldsBound(pool: Pool, els: seq<Field>) {
    Good(pool) && Below(FieldTypes(els), |pool|) && !SomeUnbounded(pool, FieldTypes(els))
  }

  lemma AllBound(pool: Pool, els: seq<Field>)
    requires Good(pool) && Below(FieldTypes(els), |pool|) && !SomeUnbounded(pool, FieldTypes(els))
    ensures FieldsBound(pool, els) && SumCounts(pool, FieldTypes(els)) >= 0
  {
    SumNonNegative(pool, FieldTypes(els));
  }

  lemma BoundOneMore(pool: Pool, done: seq<Field>, p: Pool, f: Field)
    requires FieldsBound(pool, done) && Good(p) && pool <= p && f.ty < |p| && GetNbrElements(p[f.ty]) >= 0
    ensures FieldsBound(p, done + [f])
    ensures SumCounts(p, FieldTypes(done + [f])) == SumCounts(pool, FieldTypes(done)) + GetNbrElements(p[f.ty])
  {
    hide GetNbrElements, SumCounts, SomeUnbounded, Good;
    SumCountsStays(pool, p, FieldTypes(done));
    FieldSnoc(p, done, f);
  }

  /** ghw_read_type_bounds.  An unbounded record subtype is passed on as if it were a record type,
      which reads past the end of its structure. */
  function TypeBoundsAt(data: seq<Byte>, pos: nat, pool: Pool, base: nat): (out: Read<(Pool, nat)>)
    requires Good(pool) && base < |pool| && pos <= |data|
    ensures !out.Fail? && (out.Ok? ==> pos <= out.pos <= |data| && Good(out.value.0) && pool <= out.value.0
                                       && |pool| <= out.value.1 < |out.value.0|
                                       && GetNbrElements(out.value.0[out.value.1]) >= 0)
    decreases base, 2, 0
  {
    var out := match pool[base]
      case ArrayType(_, _, _) => ArraySubtypeAt(data, pos, pool, Anonymous, base)
      case SubtypeUnboundedArray(_, _) => ArraySubtypeAt(data, pos, pool, Anonymous, base)
      case RecordType(_, _, _) => RecordSubtypeAt(data, pos, pool, Anonymous, base)
      case SubtypeUnboundedRecord(_, _) => Undefined
      case _ => Exit;
    if out.Ok? then CountOf(out.value.0, out.value.1); out else out
  }

  // ---- Entries ----------------------------------------------------------

  /** The remaining literals of an enumeration. */
  function LitsAt(data: seq<Byte>, pos: nat, nbrStr: nat, lits: seq<nat>, n: nat): (out: Read<seq<nat>>)
    requires pos <= |data|
    ensures !out.Fail? && (out.Ok? ==> pos <= out.pos <= |data| && |out.value| == |lits| + n)
    decreases n
  {
    if n == 0 then Ok(lits, pos)
    else
      var x :- StrIdAt(data, pos, nbrStr);
      LitsAt(data, x.pos, nbrStr, lits + [x.v], n - 1)
  }

  /** The remaining units of a physical type: names and 64-bit values. */
  function UnitsAt(data: seq<Byte>, pos: nat, nbrStr: nat, units: seq<(nat, int)>, n: nat): (out: Read<seq<(nat, int)>>)
    requires pos <= |data|
    ensures out.Ok? ==> pos <= out.pos <= |data| && |out.value| == |units| + n
    decreases n
  {
    if n == 0 then Ok(units, pos)
    else
      var id :- StrIdAt(data, pos, nbrStr);
      var v :- Sleb(data, id.pos, 64);
      UnitsAt(data, v.pos, nbrStr, units + [(id.v, v.v)], n - 1)
  }

  /** The remaining index types of an array. */
  function DimsAt(data: seq<Byte>, pos: nat, types: seq<nat>, dims: seq<nat>, n: nat): (out: Read<seq<nat>>)
    requires pos <= |data| && forall t :: t in dims ==> t in types
    ensures !out.Fail?
    ensures out.Ok? ==> && pos <= out.pos <= |data| && |out.value| == |dims| + n
                        && forall t :: t in out.value ==> t in types
    decreases n
  {
    if n == 0 then Ok(dims, pos)
    else
      var x :- TypeIdAt(data, pos, types);
      DimsAt(data, x.pos, types, dims + [x.v], n - 1)
  }

  /** The remaining fields of a record type. */
  function FieldsAt(data: seq<Byte>, pos: nat, nbrStr: nat, types: seq<nat>, els: seq<Field>,
        n: nat): (out: Read<seq<Field>>)
    requires pos <= |data| && forall f :: f in els ==> f.ty in types
    ensures !out.Fail?
    ensures out.Ok? ==> && pos <= out.pos <= |data| && |out.value| == |els| + n
                        && forall f :: f in out.value ==> f.ty in types
    decreases n
  {
    if n == 0 then Ok(els, pos)
    else
      var id :- StrIdAt(data, pos, nbrStr);
      var ty :- TypeIdAt(data, id.pos, types);
      FieldsAt(data, ty.pos, nbrStr, types, els + [Field(id.v, ty.v)], n - 1)
  }

  /** The table so far: all completed types, and the positions of the entries. */
  ghost predicate ValidTable(pool: Pool, types: seq<nat>) {
    Good(pool) && forall t :: t in types ==> t < |pool|
  }

  function WithPlain(pool: Pool, x: GhwType): (r: (Pool, nat))
    requires Good(pool) && Plain(x) && Below(Refs(x), |pool|)
    ensures Entered(pool, r, Tag(x))
  {
    AddPlain(pool, x);
    (pool + [x], |pool|)
  }

  /** The count of a record type is -1 as soon as one field has no bounds. */
  function RecordCount(pool: Pool, els: seq<Field>): int
    requires Below(FieldTypes(els), |pool|)
  {
    if SomeUnbounded(pool, FieldTypes(els)) then -1 else SumCounts(pool, FieldTypes(els))
  }

  function WithRecordType(pool: Pool, name: Name, els: seq<Field>): (r: (Pool, nat))
    requires Good(pool) && Below(FieldTypes(els), |pool|)
    ensures Entered(pool, r, RECORD)
  {
    var x := RecordType(name, RecordCount(pool, els), els);
    AddRecord(pool, x);
    (pool + [x], |pool|)
  }

  /** Entries that hold a count and a list.  Physical types have units since version 1. */
  function CountedAt(data: seq<Byte>, pos: nat, nbrStr: nat, version: nat, pool: Pool, types: seq<nat>,
        t: int, name: Name): (out: Read<(Pool, nat)>)
    requires ValidTable(pool, types) && pos <= |data| && t in {B2, E8, P32, P64, RECORD}
    ensures out.Ok? ==> pos <= out.pos <= |data| && Entered(pool, out.value, t)
  {
    if t in {P32, P64} && version == 0 then Ok(WithPlain(pool, Physical(t, name, [])), pos)
    else
      var n :- Uleb(data, pos);
      if t in {B2, E8} then
        var xs :- LitsAt(data, n.pos, nbrStr, [], n.v);
        Ok(WithPlain(pool, Enum(t, name, xs.v)), xs.pos)
      else if t in {P32, P64} then
        var xs :- UnitsAt(data, n.pos, nbrStr, [], n.v);
        Ok(WithPlain(pool, Physical(t, name, xs.v)), xs.pos)
      else
        var xs :- FieldsAt(data, n.pos, nbrStr, types, [], n.v);
        Ok(WithRecordType(pool, name, xs.v), xs.pos)
  }

  function ArrayAt(data: seq<Byte>, pos: nat, pool: Pool, types: seq<nat>, name: Name,
        el: nat): (out: Read<(Pool, nat)>)
    requires ValidTable(pool, types) && pos <= |data| && el < |pool|
    ensures out.Ok? ==> pos <= out.pos <= |data| && Entered(pool, out.value, ARRAY)
  {
    var n :- Uleb(data, pos);
    var dims :- DimsAt(data, n.pos, types, [], n.v);
    AllBelow(pool, types, dims.v);
    Ok(WithPlain(pool, ArrayType(name, el, dims.v)), dims.pos)
  }

  lemma AllBelow(pool: Pool, types: seq<nat>, ts: seq<nat>)
    requires ValidTable(pool, types) && forall t :: t in ts ==> t in types
    ensures Below(ts, |pool|)
  {
    forall k | 0 <= k < |ts| ensures ts[k] < |pool| {
      assert ts[k] in ts;
    }
  }

  /** Entries that start with a type id. */
  function SubtypeAt(data: seq<Byte>, pos: nat, pool: Pool, types: seq<nat>, t: int, name: Name,
        base: nat): (out: Read<(Pool, nat)>)
    requires ValidTable(pool, types) && pos <= |data| && base < |pool|
    requires t in {SUBTYPE_SCALAR, ARRAY, SUBTYPE_ARRAY, SUBTYPE_UNBOUNDED_ARRAY, SUBTYPE_RECORD,
                   SUBTYPE_UNBOUNDED_RECORD}
    ensures out.Ok? ==> pos <= out.pos <= |data| && Entered(pool, out.value, t)
  {
    if t == SUBTYPE_SCALAR then
      var r :- RangeAt(data, pos);
      Ok(WithPlain(pool, SubtypeScalar(name, base, r.v)), r.pos)
    else if t == ARRAY then ArrayAt(data, pos, pool, types, name, base)
    else if t == SUBTYPE_ARRAY then ArraySubtypeAt(data, pos, pool, name, base)
    else if t == SUBTYPE_UNBOUNDED_ARRAY then Ok(WithPlain(pool, SubtypeUnboundedArray(name, base)), pos)
    else if !pool[base].RecordType? then Exit
    else if t == SUBTYPE_RECORD then RecordSubtypeAt(data, pos, pool, name, base)
    else Ok(WithPlain(pool, SubtypeUnboundedRecord(name, base)), pos)
  }

  /** One entry, by its kind.  -1 is returned for an unknown kind and where a count is cut off;
      every other defect exits. */
  function EntryAt(data: seq<Byte>, pos: nat, nbrStr: nat, version: nat, pool: Pool, types: seq<nat>,
        t: int): (out: Read<(Pool, nat)>)
    requires ValidTable(pool, types) && pos <= |data|
    ensures out.Ok? ==> pos <= out.pos <= |data| && Entered(pool, out.value, t)
    ensures t !in {22, 23, 25, 26, 27, 28, 29, 31, 32, 34, 35, 37, 38, 39} ==> out == Fail(pos)
  {
    if !(t in {B2, E8, I32, I64, F64, P32, P64, SUBTYPE_SCALAR, ARRAY, SUBTYPE_ARRAY, SUBTYPE_UNBOUNDED_ARRAY,
               RECORD, SUBTYPE_RECORD, SUBTYPE_UNBOUNDED_RECORD}) then Fail(pos)
    else
      var id :- StrIdAt(data, pos, nbrStr);
      if t in {I32, I64, F64} then Ok(WithPlain(pool, Scalar(t, Named(id.v))), id.pos)
      else if t in {B2, E8, P32, P64, RECORD} then CountedAt(data, id.pos, nbrStr, version, pool, types, t, Named(id.v))
      else
        var base :- TypeIdAt(data, id.pos, types);
        SubtypeAt(data, base.pos, pool, types, t, Named(id.v), base.v)
  }

  /** The remaining n entries. */
  function EntriesAt(data: seq<Byte>, pos: nat, nbrStr: nat, version: nat, pool: Pool, types: seq<nat>,
        n: nat): (out: Read<(Pool, seq<nat>)>)
    requires ValidTable(pool, types) && pos <= |data|
    ensures out.Ok? ==> pos <= out.pos <= |data| && ValidTable(out.value.0, out.value.1)
                        && pool <= out.value.0 && types <= out.value.1 && |out.value.1| == |types| + n
    decreases n
  {
    if n == 0 then Ok((pool, types), pos)
    else if pos == |data| then Fail(pos)
    else
      var e :- EntryAt(data, pos + 1, nbrStr, version, pool, types, data[pos]);
      EntriesAt(data, e.pos, nbrStr, version, e.v.0, types + [e.v.1], n - 1)
  }

  /** The whole section: header, entries, a zero byte.  It replaces the table, but types of an
      earlier one are still there. */
  function TypesAt(data: seq<Byte>, pos: nat, be: bool, nbrStr: nat, version: nat,
        pool: Pool): (out: Read<(Pool, seq<nat>)>)
    requires pos <= |data| && Good(pool)
    ensures out.Ok? ==> ValidTable(out.value.0, out.value.1) && pool <= out.value.0
    ensures out.Ok? ==> At(data, pos, [0, 0, 0, 0]) && pos + 9 <= out.pos <= |data| && data[out.pos - 1] == 0
  {
    if pos + 8 > |data| then Fail(|data|)
    else
      var hdr := data[pos..pos + 8];
      HeaderStart(data, pos, 8);
      if hdr[..4] != [0, 0, 0, 0] then Fail(pos + 8)
      else if GetI32(hdr[4..], be) < 0 then Exit
      else
        var r :- EntriesAt(data, pos + 8, nbrStr, version, pool, [], GetI32(hdr[4..], be));
        if r.pos == |data| then Fail(r.pos) else if data[r.pos] != 0 then Fail(r.pos + 1) else Ok(r.v, r.pos + 1)
  }

  /** Whatever the bytes are: in a table that was read the count of every entry is the number of its
      leaves, or -1 when bounds are missing somewhere inside. */
  lemma CountsRead(data: seq<Byte>, pos: nat, be: bool, nbrStr: nat, version: nat, pool: Pool)
    requires pos <= |data| && Good(pool) && TypesAt(data, pos, be, nbrStr, version, pool).Ok?
    ensures var (p, types) := TypesAt(data, pos, be, nbrStr, version, pool).value;
            forall k :: 0 <= k < |types| ==>
              && WellFounded(p) && types[k] < |p| && Below(Refs(p[types[k]]), types[k])
              && GetNbrElements(p[types[k]]) == if Bounded(p, types[k]) then |Leaves(p, types[k])| else -1
  {
    hide TypesAt;
    var (p, types) := TypesAt(data, pos, be, nbrStr, version, pool).value;
    forall k | 0 <= k < |types|
      ensures WellFounded(p) && types[k] < |p| && Below(Refs(p[types[k]]), types[k])
      ensures GetNbrElements(p[types[k]]) == if Bounded(p, types[k]) then |Leaves(p, types[k])| else -1
    {
      assert types[k] in types;
      CountOf(p, types[k]);
    }
  }

  // ---- The reader -------------------------------------------------------

  /** A reader that returned what `r` says and left the stream there. */
  ghost predicate Left<T>(s: Stream, out: Read<T>, r: Read<T>)
    reads s
  {
    s.Valid() && out == r && (out.Ok? || out.Fail? ==> s.pos == out.pos)
  }

  class TypeTable {
    const nbrStr: nat
    const version: nat
    /** Completed types. */
    var pool: Pool
    /** Positions of the entries of the table that have been read. */
    var types: seq<nat>

    constructor (nbrStr: nat, version: nat)
      ensures Valid() && pool == [] && types == [] && this.nbrStr == nbrStr && this.version == version
    {
      this.nbrStr, this.version := nbrStr, version;
      pool, types := [], [];
    }

    ghost predicate Valid()
      reads this
    {
      ValidTable(pool, types)
    }

    /** A reader that completed one type, as `r` says. */
    ghost predicate Completed(s: Stream, out: Read<nat>, r: Read<(Pool, nat)>)
      reads s, this
    {
      s.Valid() && match r
      case Ok((p, t), q) => out == Ok(t, q) && pool == p && s.pos == q
      case Fail(q) => out == Fail(q) && s.pos == q
      case Exit => out == Exit
      case Undefined => out == Undefined
    }

    method ReadStrId(s: Stream) returns (out: Read<nat>)
      requires s.Valid()
      modifies s
      ensures Left(s, out, StrIdAt(s.data, old(s.pos), nbrStr))
    {
      out := ReadUleb128(s);
      if out.Fail? || (out.Ok? && out.value >= nbrStr) {
        out := Exit;
      }
    }

    method ReadTypeId(s: Stream) returns (out: Read<nat>)
      requires s.Valid()
      modifies s
      ensures Left(s, out, TypeIdAt(s.data, old(s.pos), types))
    {
      var id := ReadUleb128(s);
      if id.Fail? || (id.Ok? && !(1 <= id.value <= |types|)) {
        return Exit;
      }
      var r :- id;
      out := Ok(types[r.v - 1], r.pos);
    }

    method ReadRange(s: Stream) returns (out: Read<Range>)
      requires s.Valid()
      modifies s
      ensures Left(s, out, RangeAt(s.data, old(s.pos)))
    {
      hide Sleb;
      var t := s.GetC();
      if t == -1 {
        return Exit;
      }
      var kind, downto := t % 128, t >= 128;
      if kind == B2 || kind == E8 {
        var l := s.GetC();
        if l == -1 {
          return Exit;
        }
        var r := s.GetC();
        if r == -1 {
          return Exit;
        }
        return Ok(Range(kind, downto, l, r), s.pos);
      } else if kind == I32 || kind == P32 || kind == I64 || kind == P64 {
        var left := ReadSleb128(s, LimitWidth(kind));
        var l :- left.Must();
        var right := ReadSleb128(s, LimitWidth(kind));
        var r :- right.Must();
        return Ok(Range(kind, downto, l.v, r.v), s.pos);
      } else if kind == F64 {
        var ok, l := s.FRead(8);
        if !ok {
          return Exit;
        }
        var ok', r := s.FRead(8);
        if !ok' {
          return Exit;
        }
        return Ok(Range(kind, downto, Pack(l), Pack(r)), s.pos);
      } else {
        return Exit;
      }
    }

    /** The loop over the dimensions of an array subtype, which also multiplies their lengths. */
    method ReadRanges(s: Stream, n: nat) returns (out: Read<seq<Range>>, nbrScalars: nat)
      requires s.Valid()
      modifies s
      ensures Left(s, out, RangesAt(s.data, old(s.pos), [], n)) && (out.Ok? ==> nbrScalars == Extent(out.value))
    {
      hide RangeAt;
      var rngs: seq<Range> := [];
      nbrScalars := 1;
      for j := 0 to n
        invariant s.Valid() && RangesAt(s.data, s.pos, rngs, n - j) == RangesAt(s.data, old(s.pos), [], n)
        invariant nbrScalars == Extent(rngs)
      {
        var rng := ReadRange(s);
        if !rng.Ok? {
          return rng.PropagateFailure(), 0;
        }
        if !HasLength(rng.value) {
          return Exit, 0;
        }
        nbrScalars := nbrScalars * RangeLength(rng.value);
        rngs := rngs + [rng.value];
      }
      out := Ok(rngs, s.pos);
    }

    /** The type of an element or field, and its count. */
    method ReadElement(s: Stream, t: nat) returns (out: Read<nat>, n: int)
      requires s.Valid() && Valid() && t < |pool|
      modifies s, this`pool
      ensures Valid() && old(pool) <= pool
      ensures Completed(s, out, ElementAt(s.data, old(s.pos), old(pool), t))
      ensures out.Ok? ==> out.value < |pool| && n == GetNbrElements(pool[out.value]) >= 0
      decreases t, 3
    {
      hide Good, TypeBoundsAt;
      n := GetNbrElements(pool[t]);
      if n >= 0 {
        out := Ok(t, s.pos);
      } else {
        out := ReadTypeBounds(s, t);
        if out.Ok? {
          n := GetNbrElements(pool[out.value]);
        }
      }
    }

    method AppendArray(s: Stream, name: Name, base: nat, nbrScalars: nat, rngs: seq<Range>, el: nat,
          nbrEls: nat) returns (out: Read<nat>)
      requires s.Valid() && Valid() && base < |pool| && el < |pool|
      requires nbrEls == GetNbrElements(pool[el]) && nbrScalars == Extent(rngs)
      modifies this`pool
      ensures Valid() && out == Ok(|old(pool)|, s.pos) && pool == WithArray(old(pool), name, base, rngs, el)
    {
      ghost var before := pool;
      out := Ok(|pool|, s.pos);
      pool := pool + [SubtypeArray(name, base, nbrScalars * nbrEls, rngs, el)];
      assert pool == WithArray(before, name, base, rngs, el);
    }

    method AppendRecord(s: Stream, name: Name, base: nat, nbrScalars: nat, els: seq<Field>) returns (out: Read<nat>)
      requires s.Valid() && Valid() && base < |pool| && FieldsBound(pool, els)
      requires nbrScalars == SumCounts(pool, FieldTypes(els))
      modifies this`pool
      ensures Valid() && out == Ok(|old(pool)|, s.pos) && pool == WithRecord(old(pool), name, base, els)
    {
      ghost var before := pool;
      out := Ok(|pool|, s.pos);
      pool := pool + [SubtypeRecord(name, base, nbrScalars, els)];
      assert pool == WithRecord(before, name, base, els);
    }

    method ReadArraySubtype(s: Stream, name: Name, base: nat) returns (out: Read<nat>)
      requires s.Valid() && Valid() && base < |pool|
      modifies s, this`pool
      ensures Valid() && old(pool) <= pool
      ensures Completed(s, out, ArraySubtypeAt(s.data, old(s.pos), old(pool), name, base))
      decreases base, 1
    {
      hide Good, Bounded, RangesAt, Extent, ElementAt, WithArray, GetNbrElements;
      TableWellFounded(pool, types);
      var b := BaseType(pool, base);
      if b.None? || !pool[b.value].ArrayType? {
        return Exit;
      }
      ElementBelow(pool, b.value);
      var arr := pool[b.value];
      var ranges, nbrScalars := ReadRanges(s, |arr.dims|);
      var rngs :- ranges;
      var element, nbrEls := ReadElement(s, arr.el);
      var el :- element;
      out := AppendArray(s, name, base, nbrScalars, rngs.v, el.v, nbrEls);
    }

    method ReadRecordSubtype(s: Stream, name: Name, base: nat) returns (out: Read<nat>)
      requires s.Valid() && Valid() && base < |pool| && pool[base].RecordType?
      modifies s, this`pool
      ensures Valid() && old(pool) <= pool
      ensures Completed(s, out, RecordSubtypeAt(s.data, old(s.pos), old(pool), name, base))
      decreases base, 1
    {
      hide Good, Bounded, SumCounts, SomeUnbounded, BoundFieldsAt, WithRecord, FieldsBound;
      TableWellFounded(pool, types);
      RecordBelow(pool, base);
      if pool[base].nbrScalars >= 0 {
        BoundedRecord(pool, base);
        AllBound(pool, pool[base].els);
        out := AppendRecord(s, name, base, pool[base].nbrScalars, pool[base].els);
      } else {
        NoFields(pool);
        AllBound(pool, []);
        var fields, nbrScalars := ReadBoundFields(s, pool[base].els, base);
        var els :- fields;
        out := AppendRecord(s, name, base, nbrScalars, els.v);
      }
    }

    /** The loop over the fields of a record subtype. */
    method ReadBoundFields(s: Stream, els: seq<Field>, ghost bound: nat)
      returns (out: Read<seq<Field>>, nbrScalars: int)
      requires s.Valid() && Valid() && bound <= |pool| && Below(FieldTypes(els), bound) && FieldsBound(pool, [])
      modifies s, this`pool
      ensures s.Valid() && Valid() && old(pool) <= pool
      ensures match BoundFieldsAt(s.data, old(s.pos), old(pool), els, [], bound)
              case Ok((p, bs), q) =>
                out == Ok(bs, q) && pool == p && s.pos == q && nbrScalars == SumCounts(p, FieldTypes(bs)) >= 0
              case Fail(q) => out == Fail(q) && s.pos == q
              case Exit => out == Exit
              case Undefined => out == Undefined
      decreases bound, 0
    {
      hide Good, Bounded, SumCounts, SomeUnbounded, ElementAt, GetNbrElements;
      nbrScalars := 0;
      var done: seq<Field> := [];
      NoFields(pool);
      for j := 0 to |els|
        invariant s.Valid() && Valid() && old(pool) <= pool && FieldsBound(pool, done)
        invariant nbrScalars == SumCounts(pool, FieldTypes(done)) >= 0 && Below(FieldTypes(els[j..]), bound)
        invariant BoundFieldsAt(s.data, s.pos, pool, els[j..], done, bound)
               == BoundFieldsAt(s.data, old(s.pos), old(pool), els, [], bound)
      {
        var f := els[j];
        assert FieldTypes(els[j..])[0] == f.ty && FieldTypes(els[j + 1..]) == FieldTypes(els[j..])[1..];
        assert els[j..][1..] == els[j + 1..];
        ghost var before := pool;
        var ty, n := ReadElement(s, f.ty);
        if !ty.Ok? {
          return ty.PropagateFailure(), 0;
        }
        BoundOneMore(before, done, pool, Field(f.name, ty.value));
        done := done + [Field(f.name, ty.value)];
        nbrScalars := nbrScalars + n;
      }
      out := Ok(done, s.pos);
    }

    method ReadTypeBounds(s: Stream, base: nat) returns (out: Read<nat>)
      requires s.Valid() && Valid() && base < |pool|
      modifies s, this`pool
      ensures Valid() && old(pool) <= pool
      ensures Completed(s, out, TypeBoundsAt(s.data, old(s.pos), old(pool), base))
      decreases base, 2
    {
      hide Good, ArraySubtypeAt, RecordSubtypeAt;
      match pool[base]
      case ArrayType(_, _, _) => out := ReadArraySubtype(s, Anonymous, base);
      case SubtypeUnboundedArray(_, _) => out := ReadArraySubtype(s, Anonymous, base);
      case RecordType(_, _, _) => out := ReadRecordSubtype(s, Anonymous, base);
      case SubtypeUnboundedRecord(_, _) => out := Undefined;
      case _ => out := Exit;
    }

    method ReadLits(s: Stream, n: nat) returns (out: Read<seq<nat>>)
      requires s.Valid()
      modifies s
      ensures Left(s, out, LitsAt(s.data, old(s.pos), nbrStr, [], n))
    {
      hide StrIdAt;
      var lits := [];
      for j := 0 to n
        invariant s.Valid() && LitsAt(s.data, s.pos, nbrStr, lits, n - j) == LitsAt(s.data, old(s.pos), nbrStr, [], n)
      {
        var id := ReadStrId(s);
        var r :- id;
        lits := lits + [r.v];
      }
      out := Ok(lits, s.pos);
    }

    method ReadUnits(s: Stream, n: nat) returns (out: Read<seq<(nat, int)>>)
      requires s.Valid()
      modifies s
      ensures Left(s, out, UnitsAt(s.data, old(s.pos), nbrStr, [], n))
    {
      hide StrIdAt, Sleb;
      var units := [];
      for j := 0 to n
        invariant s.Valid()
        invariant UnitsAt(s.data, s.pos, nbrStr, units, n - j) == UnitsAt(s.data, old(s.pos), nbrStr, [], n)
      {
        var id := ReadStrId(s);
        var name :- id;
        var v := ReadSleb128(s, 64);
        var val :- v;
        units := units + [(name.v, val.v)];
      }
      out := Ok(units, s.pos);
    }

    method ReadDims(s: Stream, n: nat) returns (out: Read<seq<nat>>)
      requires s.Valid()
      modifies s
      ensures Left(s, out, DimsAt(s.data, old(s.pos), types, [], n))
    {
      hide TypeIdAt;
      var dims := [];
      for j := 0 to n
        invariant s.Valid() && forall t :: t in dims ==> t in types
        invariant DimsAt(s.data, s.pos, types, dims, n - j) == DimsAt(s.data, old(s.pos), types, [], n)
      {
        var id := ReadTypeId(s);
        var r :- id;
        dims := dims + [r.v];
      }
      out := Ok(dims, s.pos);
    }

    /** The fields of a record type with their running count, which stays -1 from the first field
        without bounds on. */
    method ReadFields(s: Stream, n: nat) returns (out: Read<seq<Field>>, nbrScalars: int)
      requires s.Valid() && Valid()
      modifies s
      ensures Left(s, out, FieldsAt(s.data, old(s.pos), nbrStr, types, [], n))
      ensures out.Ok? ==> Below(FieldTypes(out.value), |pool|) && nbrScalars == RecordCount(pool, out.value)
    {
      hide SumCounts, SomeUnbounded, Good, StrIdAt, TypeIdAt;
      var els: seq<Field> := [];
      nbrScalars := 0;
      NoFields(pool);
      for j := 0 to n
        invariant s.Valid() && Valid() && (forall f :: f in els ==> f.ty in types)
        invariant Below(FieldTypes(els), |pool|) && nbrScalars == RecordCount(pool, els)
        invariant FieldsAt(s.data, s.pos, nbrStr, types, els, n - j) ==
                  FieldsAt(s.data, old(s.pos), nbrStr, types, [], n)
      {
        var id := ReadStrId(s);
        if !id.Ok? {
          return id.PropagateFailure(), 0;
        }
        var ty := ReadTypeId(s);
        if !ty.Ok? {
          return ty.PropagateFailure(), 0;
        }
        var f := Field(id.value, ty.value);
        FieldSnoc(pool, els, f);
        SumNonNegative(pool, FieldTypes(els));
        CountOf(pool, f.ty);
        if nbrScalars != -1 {
          var c := GetNbrElements(pool[f.ty]);
          nbrScalars := if c == -1 then -1 else nbrScalars + c;
        }
        els := els + [f];
      }
      out := Ok(els, s.pos);
    }

    /** Complete a type without bounds of its own. */
    method Complete(s: Stream, x: GhwType) returns (out: Read<nat>)
      requires s.Valid() && Valid() && Plain(x) && Below(Refs(x), |pool|)
      modifies this`pool
      ensures Valid() && out == Ok(|old(pool)|, s.pos) && (pool, |old(pool)|) == WithPlain(old(pool), x)
    {
      AddPlain(pool, x);
      out := Ok(|pool|, s.pos);
      pool := pool + [x];
    }

    method ReadCounted(s: Stream, t: int, name: Name) returns (out: Read<nat>)
      requires s.Valid() && Valid() && t in {B2, E8, P32, P64, RECORD}
      modifies s, this`pool
      ensures Valid() && old(pool) <= pool
      ensures Completed(s, out, CountedAt(s.data, old(s.pos), nbrStr, version, old(pool), types, t, name))
    {
      hide Good, SumCounts, SomeUnbounded, LitsAt, UnitsAt, FieldsAt;
      if t in {P32, P64} && version == 0 {
        out := Complete(s, Physical(t, name, []));
        return;
      }
      var count := ReadUleb128(s);
      var n :- count;
      if t in {B2, E8} {
        var list := ReadLits(s, n.v);
        var lits :- list;
        out := Complete(s, Enum(t, name, lits.v));
      } else if t in {P32, P64} {
        var list := ReadUnits(s, n.v);
        var units :- list;
        out := Complete(s, Physical(t, name, units.v));
      } else {
        var list, nbrScalars := ReadFields(s, n.v);
        var els :- list;
        ghost var before := pool;
        out := Ok(|pool|, s.pos);
        pool := pool + [RecordType(name, nbrScalars, els.v)];
        assert (pool, |before|) == WithRecordType(before, name, els.v);
      }
    }

    method ReadArray(s: Stream, name: Name, el: nat) returns (out: Read<nat>)
      requires s.Valid() && Valid() && el < |pool|
      modifies s, this`pool
      ensures Valid() && old(pool) <= pool
      ensures Completed(s, out, ArrayAt(s.data, old(s.pos), old(pool), types, name, el))
    {
      hide Good, DimsAt;
      var count := ReadUleb128(s);
      var n :- count;
      var list := ReadDims(s, n.v);
      var dims :- list;
      AllBelow(pool, types, dims.v);
      out := Complete(s, ArrayType(name, el, dims.v));
    }

    method ReadSubtype(s: Stream, t: int, name: Name, base: nat) returns (out: Read<nat>)
      requires s.Valid() && Valid() && base < |pool|
      requires t in {SUBTYPE_SCALAR, ARRAY, SUBTYPE_ARRAY, SUBTYPE_UNBOUNDED_ARRAY, SUBTYPE_RECORD,
                     SUBTYPE_UNBOUNDED_RECORD}
      modifies s, this`pool
      ensures Valid() && old(pool) <= pool
      ensures Completed(s, out, SubtypeAt(s.data, old(s.pos), old(pool), types, t, name, base))
    {
      hide Good, RangeAt, ArrayAt, ArraySubtypeAt, RecordSubtypeAt;
      if t == SUBTYPE_SCALAR {
        var range := ReadRange(s);
        var rng :- range;
        out := Complete(s, SubtypeScalar(name, base, rng.v));
      } else if t == ARRAY {
        out := ReadArray(s, name, base);
      } else if t == SUBTYPE_ARRAY {
        out := ReadArraySubtype(s, name, base);
      } else if t == SUBTYPE_UNBOUNDED_ARRAY {
        out := Complete(s, SubtypeUnboundedArray(name, base));
      } else if !pool[base].RecordType? {
        out := Exit;
      } else if t == SUBTYPE_RECORD {
        out := ReadRecordSubtype(s, name, base);
      } else {
        out := Complete(s, SubtypeUnboundedRecord(name, base));
      }
    }

    method ReadEntry(s: Stream, t: int) returns (out: Read<nat>)
      requires s.Valid() && Valid()
      modifies s, this`pool
      ensures Valid() && old(pool) <= pool
      ensures Completed(s, out, EntryAt(s.data, old(s.pos), nbrStr, version, old(pool), types, t))
    {
      hide Good, StrIdAt, TypeIdAt, CountedAt, SubtypeAt;
      if !(t in {B2, E8, I32, I64, F64, P32, P64, SUBTYPE_SCALAR, ARRAY, SUBTYPE_ARRAY, SUBTYPE_UNBOUNDED_ARRAY,
                 RECORD, SUBTYPE_RECORD, SUBTYPE_UNBOUNDED_RECORD}) {
        return Fail(s.pos);
      }
      var strId := ReadStrId(s);
      var id :- strId;
      if t in {I32, I64, F64} {
        out := Complete(s, Scalar(t, Named(id.v)));
      } else if t in {B2, E8, P32, P64, RECORD} {
        out := ReadCounted(s, t, Named(id.v));
      } else {
        var typeId := ReadTypeId(s);
        var base :- typeId;
        out := ReadSubtype(s, t, Named(id.v), base.v);
      }
    }

    /** The loop over the entries. */
    method ReadEntries(s: Stream, n: nat) returns (out: Read<()>)
      requires s.Valid() && Valid() && types == []
      modifies s, this`pool, this`types
      ensures s.Valid() && Valid() && old(pool) <= pool
      ensures match EntriesAt(s.data, old(s.pos), nbrStr, version, old(pool), [], n)
              case Ok((p, ts), q) => out == Ok((), q) && s.pos == q && pool == p && types == ts
              case Fail(q) => out == Fail(q) && s.pos == q
              case Exit => out == Exit
              case Undefined => out == Undefined
    {
      hide Good, EntryAt;
      for i := 0 to n
        invariant s.Valid() && Valid() && old(pool) <= pool
        invariant EntriesAt(s.data, s.pos, nbrStr, version, pool, types, n - i)
               == EntriesAt(s.data, old(s.pos), nbrStr, version, old(pool), [], n)
      {
        var t := s.GetC();
        if t == -1 {
          return Fail(s.pos);
        }
        var entry := ReadEntry(s, t);
        var e :- entry;
        types := types + [e.v];
      }
      out := Ok((), s.pos);
    }

    /** ghw_read_type */
    method ReadType(s: Stream, be: bool) returns (out: Read<()>)
      requires s.Valid() && Valid()
      modifies s, this`pool, this`types
      ensures s.Valid() && Valid() && old(pool) <= pool
      ensures match TypesAt(s.data, old(s.pos), be, nbrStr, version, old(pool))
              case Ok((p, ts), q) => out == Ok((), q) && s.pos == q && pool == p && types == ts
              case Fail(q) => out == Fail(q) && s.pos == q
              case Exit => out == Exit
              case Undefined => out == Undefined
    {
      hide Good, GetI32, EntriesAt;
      var ok, hdr := s.FRead(8);
      if !ok || hdr[..4] != [0, 0, 0, 0] {
        return Fail(s.pos);
      }
      var n := GetI32(hdr[4..], be);
      if n < 0 {
        return Exit;
      }
      types := [];
      var entries := ReadEntries(s, n);
      if !entries.Ok? {
        return entries;
      }
      var z := s.GetC();
      out := if z == 0 then Ok((), s.pos) else Fail(s.pos);
    }
  }

  lemma TableWellFounded(pool: Pool, types: seq<nat>)
    requires ValidTable(pool, types)
    ensures WellFounded(pool)
  {
  }
}
