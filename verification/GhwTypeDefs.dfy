/** Type definitions and the round trip of the type table: from the encoding of any list of valid
    definitions the reader builds exactly the types they define. */
module GhwTypeDefs {
  import opened Vectors
  import opened GhwStream
  import opened GhwTypes
  import opened GhwTypeReader
  import opened GhwTypeFormat

  // ---- Definitions ------------------------------------------------------

  /** A type definition, with ids for names and types. */
  datatype Def =
    | EnumDef(kind: nat, name: nat, lits: seq<nat>)
    | ScalarDef(kind: nat, name: nat)
    | PhysicalDef(kind: nat, name: nat, units: seq<(nat, int)>)
    | ScalarSubtypeDef(name: nat, base: nat, rng: Range)
    | ArrayDef(name: nat, el: nat, dims: seq<nat>)
    | ArraySubtypeDef(name: nat, base: nat, bounds: Bounds)
    | UnboundedArrayDef(name: nat, base: nat)
    | RecordDef(name: nat, fields: seq<Field>)
    | RecordSubtypeDef(name: nat, base: nat, bounds: Bounds)
    | UnboundedRecordDef(name: nat, base: nat)

  /** The number of its kind. */
  function DefTag(d: Def): nat {
    match d
    case EnumDef(k, _, _) => k
    case ScalarDef(k, _) => k
    case PhysicalDef(k, _, _) => k
    case ScalarSubtypeDef(_, _, _) => 34
    case ArrayDef(_, _, _) => 31
    case ArraySubtypeDef(_, _, _) => 35
    case UnboundedArrayDef(_, _) => 37
    case RecordDef(_, _) => 32
    case RecordSubtypeDef(_, _, _) => 38
    case UnboundedRecordDef(_, _) => 39
  }

  /** Definitions that start with the id of a type. */
  predicate HasBase(d: Def) {
    !(d.EnumDef? || d.PhysicalDef? || d.RecordDef? || d.ScalarDef?)
  }

  function BaseId(d: Def): nat
    requires HasBase(d)
  {
    if d.ArrayDef? then d.el else d.base
  }

  /** What follows that id. */
  function EncodeTail(d: Def): seq<Byte> {
    match d
    case ScalarSubtypeDef(_, base, rng) => EncodeRange(rng)
    case ArrayDef(_, el, dims) => EncodeU(|dims|) + EncodeNats(dims)
    case ArraySubtypeDef(_, base, bounds) => EncodeBounds(bounds)
    case RecordSubtypeDef(_, base, bounds) => EncodeBounds(bounds)
    case _ => []
  }

  /** What follows the name.  Physical types have units since version 1. */
  function EncodeRest(d: Def, version: nat): seq<Byte> {
    match d
    case EnumDef(_, _, lits) => EncodeU(|lits|) + EncodeNats(lits)
    case ScalarDef(_, _) => []
    case PhysicalDef(_, _, units) => if version == 0 then [] else EncodeU(|units|) + EncodeUnits(units)
    case RecordDef(_, fields) => EncodeU(|fields|) + EncodeFields(fields)
    case _ => EncodeU(BaseId(d)) + EncodeTail(d)
  }

  function EncodeDef(d: Def, version: nat): seq<Byte> {
    [DefTag(d) % 256] + (EncodeU(d.name) + EncodeRest(d, version))
  }

  const MAX32 := 0x1_0000_0000

  /** A definition of its kind, with known names and one of n types. */
  predicate WellFormed(d: Def, nbrStr: nat, version: nat, n: nat) {
    StrId(d.name, nbrStr) && match d
    case EnumDef(k, _, lits) => k in {22, 23} && |lits| < MAX32 && AllStrIds(lits, nbrStr)
    case ScalarDef(k, _) => k in {25, 26, 27}
    case PhysicalDef(k, _, units) =>
      k in {28, 29} && |units| < MAX32 && ValidUnits(units, nbrStr) && (version == 0 ==> units == [])
    case ScalarSubtypeDef(_, base, rng) => TypeId(base, n) && ValidRange(rng)
    case ArrayDef(_, el, dims) => TypeId(el, n) && |dims| < MAX32 && AllTypeIds(dims, n)
    case ArraySubtypeDef(_, base, b) => TypeId(base, n) && b.OnArray?
    case UnboundedArrayDef(_, base) => TypeId(base, n)
    case RecordDef(_, fields) => |fields| < MAX32 && ValidFields(fields, nbrStr, n)
    case RecordSubtypeDef(_, base, b) => TypeId(base, n) && b.OnRecord?
    case UnboundedRecordDef(_, base) => TypeId(base, n)
  }

  /** A definition that also fits the types it refers to. */
  ghost predicate ValidDef(d: Def, nbrStr: nat, version: nat, pool: Pool, types: seq<nat>)
    requires ValidTable(pool, types)
  {
    && WellFormed(d, nbrStr, version, |types|)
    && (d.ArraySubtypeDef? || d.RecordSubtypeDef? ==> SubtypeFits(pool, Entry(types, d.base), d.bounds))
    && (d.UnboundedRecordDef? ==> pool[Entry(types, d.base)].RecordType?)
  }

  /** Type r is what d defines; `types` are the entries that d can refer to. */
  ghost predicate Defines(d: Def, types: seq<nat>, pool: Pool, r: nat)
    requires WellFounded(pool)
  {
    r < |pool| && match d
    case EnumDef(k, n, lits) => pool[r] == Enum(k, Named(n), lits)
    case ScalarDef(k, n) => pool[r] == Scalar(k, Named(n))
    case PhysicalDef(k, n, units) => pool[r] == Physical(k, Named(n), units)
    case ScalarSubtypeDef(n, base, rng) =>
      TypeId(base, |types|) && pool[r] == SubtypeScalar(Named(n), Entry(types, base), rng)
    case ArrayDef(n, el, dims) =>
      TypeId(el, |types|) && AllTypeIds(dims, |types|)
        && pool[r] == ArrayType(Named(n), Entry(types, el), Resolve(dims, types))
    case ArraySubtypeDef(n, base, b) =>
      TypeId(base, |types|) && pool[r].name == Named(n) && Shaped(pool, r, Entry(types, base), b)
    case UnboundedArrayDef(n, base) =>
      TypeId(base, |types|) && pool[r] == SubtypeUnboundedArray(Named(n), Entry(types, base))
    case RecordDef(n, fields) =>
      FieldTypeIds(fields, |types|) && pool[r].RecordType? && pool[r].name == Named(n)
        && pool[r].els == ResolveFields(fields, types)
    case RecordSubtypeDef(n, base, b) =>
      TypeId(base, |types|) && pool[r].name == Named(n) && Shaped(pool, r, Entry(types, base), b)
    case UnboundedRecordDef(n, base) =>
      TypeId(base, |types|) && pool[r] == SubtypeUnboundedRecord(Named(n), Entry(types, base))
  }

  // ---- Reading definitions ----------------------------------------------

  /** An entry that was read as definition d. */
  ghost predicate ReadAs(out: Read<(Pool, nat)>, pos: nat, len: nat, d: Def, pool: Pool, types: seq<nat>) {
    out.Ok? && out.pos == pos + len && Good(out.value.0) && pool <= out.value.0 && out.value.1 < |out.value.0|
    && Defines(d, types, out.value.0, out.value.1)
  }

  lemma EnumDefIs(data: seq<Byte>, pos: nat, nbrStr: nat, version: nat, pool: Pool, types: seq<nat>, d: Def)
    requires ValidTable(pool, types) && ValidDef(d, nbrStr, version, pool, types)
    requires At(data, pos, EncodeRest(d, version))
    requires d.EnumDef?
    ensures ReadAs(CountedAt(data, pos, nbrStr, version, pool, types, DefTag(d), Named(d.name)),
                   pos, |EncodeRest(d, version)|, d, pool, types)
  {
    hide Uleb, LitsAt, EncodeU, EncodeNats, Good, Tag;
    AtSplit(data, pos, EncodeU(|d.lits|), EncodeNats(d.lits));
    UlebIs(data, pos, |d.lits|);
    LitsAre(data, pos + |EncodeU(|d.lits|)|, nbrStr, d.lits, []);
    assert [] + d.lits == d.lits;
  }

  lemma PhysicalDefIs(data: seq<Byte>, pos: nat, nbrStr: nat, version: nat, pool: Pool, types: seq<nat>, d: Def)
    requires ValidTable(pool, types) && ValidDef(d, nbrStr, version, pool, types)
    requires At(data, pos, EncodeRest(d, version))
    requires d.PhysicalDef?
    ensures ReadAs(CountedAt(data, pos, nbrStr, version, pool, types, DefTag(d), Named(d.name)),
                   pos, |EncodeRest(d, version)|, d, pool, types)
  {
    hide Uleb, UnitsAt, EncodeU, EncodeUnits, Good, Tag;
    if version > 0 {
      AtSplit(data, pos, EncodeU(|d.units|), EncodeUnits(d.units));
      UlebIs(data, pos, |d.units|);
      UnitsAre(data, pos + |EncodeU(|d.units|)|, nbrStr, d.units, []);
      assert [] + d.units == d.units;
    }
  }

  lemma RecordDefIs(data: seq<Byte>, pos: nat, nbrStr: nat, version: nat, pool: Pool, types: seq<nat>, d: Def)
    requires ValidTable(pool, types) && ValidDef(d, nbrStr, version, pool, types)
    requires At(data, pos, EncodeRest(d, version))
    requires d.RecordDef?
    ensures ReadAs(CountedAt(data, pos, nbrStr, version, pool, types, DefTag(d), Named(d.name)),
                   pos, |EncodeRest(d, version)|, d, pool, types)
  {
    hide Uleb, FieldsAt, EncodeU, EncodeFields, SomeUnbounded, SumCounts, Good, Tag;
    AtSplit(data, pos, EncodeU(|d.fields|), EncodeFields(d.fields));
    UlebIs(data, pos, |d.fields|);
    TypeFieldsAre(data, pos + |EncodeU(|d.fields|)|, nbrStr, types, d.fields, []);
    assert [] + ResolveFields(d.fields, types) == ResolveFields(d.fields, types);
  }

  /** Definitions that hold a count and a list. */
  lemma CountedIs(data: seq<Byte>, pos: nat, nbrStr: nat, version: nat, pool: Pool, types: seq<nat>, d: Def)
    requires ValidTable(pool, types) && ValidDef(d, nbrStr, version, pool, types)
    requires At(data, pos, EncodeRest(d, version))
    requires d.EnumDef? || d.PhysicalDef? || d.RecordDef?
    ensures ReadAs(CountedAt(data, pos, nbrStr, version, pool, types, DefTag(d), Named(d.name)),
                   pos, |EncodeRest(d, version)|, d, pool, types)
  {
    hide CountedAt, ValidTable, ValidDef, EncodeRest, ReadAs, DefTag;
    match d
    case EnumDef(_, _, _) => EnumDefIs(data, pos, nbrStr, version, pool, types, d);
    case PhysicalDef(_, _, _) => PhysicalDefIs(data, pos, nbrStr, version, pool, types, d);
    case _ => RecordDefIs(data, pos, nbrStr, version, pool, types, d);
  }

  lemma ArrayDefIs(data: seq<Byte>, pos: nat, nbrStr: nat, version: nat, pool: Pool, types: seq<nat>, d: Def)
    requires ValidTable(pool, types) && ValidDef(d, nbrStr, version, pool, types) && At(data, pos, EncodeTail(d))
    requires d.ArrayDef?
    ensures ReadAs(SubtypeAt(data, pos, pool, types, DefTag(d), Named(d.name), Entry(types, BaseId(d))),
                   pos, |EncodeTail(d)|, d, pool, types)
  {
    hide ArrayAt, EncodeU, EncodeNats, Good, Tag, At, Resolve, WithPlain, Defines, Refs;
    DimsRead(data, pos, pool, types, Named(d.name), Entry(types, d.el), d.dims);
    ArrayEntered(pool, types, d, Resolve(d.dims, types));
  }

  lemma DimsRead(data: seq<Byte>, pos: nat, pool: Pool, types: seq<nat>, name: Name, el: nat, dims: seq<nat>)
    requires ValidTable(pool, types) && el < |pool| && |dims| < MAX32 && AllTypeIds(dims, |types|)
    requires At(data, pos, EncodeU(|dims|) + EncodeNats(dims))
    ensures Below(Refs(ArrayType(name, el, Resolve(dims, types))), |pool|)
    ensures ArrayAt(data, pos, pool, types, name, el)
         == Ok(WithPlain(pool, ArrayType(name, el, Resolve(dims, types))), pos + |EncodeU(|dims|) + EncodeNats(dims)|)
  {
    hide Uleb, DimsAt, EncodeU, EncodeNats, Good, Tag, At, Resolve, WithPlain, Refs;
    AtSplit(data, pos, EncodeU(|dims|), EncodeNats(dims));
    UlebIs(data, pos, |dims|);
    AllDimsAre(data, pos + |EncodeU(|dims|)|, types, dims);
    ArrayRefs(pool, types, name, el, Resolve(dims, types));
  }

  lemma AllDimsAre(data: seq<Byte>, pos: nat, types: seq<nat>, dims: seq<nat>)
    requires AllTypeIds(dims, |types|) && At(data, pos, EncodeNats(dims))
    ensures DimsAt(data, pos, types, [], |dims|) == Ok(Resolve(dims, types), pos + |EncodeNats(dims)|)
  {
    hide DimsAt, EncodeNats, Resolve;
    DimsAre(data, pos, types, dims, []);
    assert [] + Resolve(dims, types) == Resolve(dims, types);
  }

  lemma ArrayRefs(pool: Pool, types: seq<nat>, name: Name, el: nat, ts: seq<nat>)
    requires ValidTable(pool, types) && el < |pool| && forall t :: t in ts ==> t in types
    ensures Below(ts, |pool|) && Below(Refs(ArrayType(name, el, ts)), |pool|)
  {
    hide Good;
    AllBelow(pool, types, ts);
  }

  lemma ArrayEntered(pool: Pool, types: seq<nat>, d: Def, ts: seq<nat>)
    requires ValidTable(pool, types) && d.ArrayDef? && TypeId(d.el, |types|) && AllTypeIds(d.dims, |types|)
    requires ts == Resolve(d.dims, types) && Below(Refs(ArrayType(Named(d.name), Entry(types, d.el), ts)), |pool|)
    ensures var x := ArrayType(Named(d.name), Entry(types, d.el), ts);
            && var r := WithPlain(pool, x); Good(r.0) && pool <= r.0 && r.1 < |r.0| && Defines(d, types, r.0, r.1)
  {
    hide Resolve, Tag, Counted, Bounded, Refs;
  }

  lemma BoundsDefIs(data: seq<Byte>, pos: nat, nbrStr: nat, version: nat, pool: Pool, types: seq<nat>, d: Def)
    requires ValidTable(pool, types) && ValidDef(d, nbrStr, version, pool, types) && At(data, pos, EncodeTail(d))
    requires d.ArraySubtypeDef? || d.RecordSubtypeDef?
    ensures ReadAs(SubtypeAt(data, pos, pool, types, DefTag(d), Named(d.name), Entry(types, BaseId(d))),
                   pos, |EncodeTail(d)|, d, pool, types)
  {
    hide ArraySubtypeAt, RecordSubtypeAt, EncodeBounds, Counted, Bounded, Tag, Shaped, SubtypeFits;
    SubtypeIs(data, pos, pool, pool, Named(d.name), Entry(types, d.base), d.bounds);
    if d.RecordSubtypeDef? {
      RecordBase(pool, Entry(types, d.base), d.bounds);
    }
  }

  lemma PlainDefIs(data: seq<Byte>, pos: nat, nbrStr: nat, version: nat, pool: Pool, types: seq<nat>, d: Def)
    requires ValidTable(pool, types) && ValidDef(d, nbrStr, version, pool, types) && At(data, pos, EncodeTail(d))
    requires d.ScalarSubtypeDef? || d.UnboundedArrayDef? || d.UnboundedRecordDef?
    ensures ReadAs(SubtypeAt(data, pos, pool, types, DefTag(d), Named(d.name), Entry(types, BaseId(d))),
                   pos, |EncodeTail(d)|, d, pool, types)
  {
    hide RangeAt, EncodeRange, Good, Tag;
    if d.ScalarSubtypeDef? {
      RangeIs(data, pos, d.rng);
    }
  }

  /** Definitions that start with a type id. */
  lemma SubtypeDefIs(data: seq<Byte>, pos: nat, nbrStr: nat, version: nat, pool: Pool, types: seq<nat>, d: Def)
    requires ValidTable(pool, types) && ValidDef(d, nbrStr, version, pool, types) && At(data, pos, EncodeTail(d))
    requires HasBase(d)
    ensures ReadAs(SubtypeAt(data, pos, pool, types, DefTag(d), Named(d.name), Entry(types, BaseId(d))),
                   pos, |EncodeTail(d)|, d, pool, types)
  {
    hide SubtypeAt, ValidTable, ValidDef, EncodeTail, ReadAs, DefTag, BaseId;
    match d
    case ArrayDef(_, _, _) => ArrayDefIs(data, pos, nbrStr, version, pool, types, d);
    case ArraySubtypeDef(_, _, _) => BoundsDefIs(data, pos, nbrStr, version, pool, types, d);
    case RecordSubtypeDef(_, _, _) => BoundsDefIs(data, pos, nbrStr, version, pool, types, d);
    case _ => PlainDefIs(data, pos, nbrStr, version, pool, types, d);
  }

  lemma RecordBase(pool: Pool, t: nat, b: Bounds)
    requires WellFounded(pool) && t < |pool| && SubtypeFits(pool, t, b) && b.OnRecord?
    ensures pool[t].RecordType?
  {
  }

  /** How an entry is read once its name is known. */
  lemma EntryUnfold(data: seq<Byte>, pos: nat, nbrStr: nat, version: nat, pool: Pool, types: seq<nat>, d: Def, p: nat)
    requires ValidTable(pool, types) && WellFormed(d, nbrStr, version, |types|) && pos <= p <= |data|
    requires StrIdAt(data, pos, nbrStr) == Ok(d.name, p)
    ensures d.EnumDef? || d.PhysicalDef? || d.RecordDef? ==>
              EntryAt(data, pos, nbrStr, version, pool, types, DefTag(d)) ==
              CountedAt(data, p, nbrStr, version, pool, types, DefTag(d), Named(d.name))
    ensures d.ScalarDef? ==>
              EntryAt(data, pos, nbrStr, version, pool, types, DefTag(d)) ==
                Ok(WithPlain(pool, Scalar(d.kind, Named(d.name))), p)
  {
    hide StrIdAt, TypeIdAt, CountedAt, SubtypeAt, WithPlain, Good;
  }

  lemma EntrySubtype(data: seq<Byte>, pos: nat, nbrStr: nat, version: nat, pool: Pool, types: seq<nat>,
        d: Def, p: nat, q: nat)
    requires ValidTable(pool, types) && WellFormed(d, nbrStr, version, |types|) && pos <= p <= q <= |data|
    requires HasBase(d)
    requires StrIdAt(data, pos, nbrStr) == Ok(d.name, p) && TypeIdAt(data, p, types) == Ok(Entry(types, BaseId(d)), q)
    ensures EntryAt(data, pos, nbrStr, version, pool, types, DefTag(d)) ==
            SubtypeAt(data, q, pool, types, DefTag(d), Named(d.name), Entry(types, BaseId(d)))
  {
    hide StrIdAt, TypeIdAt, CountedAt, SubtypeAt, WithPlain, Good;
  }

  lemma EntryIs(data: seq<Byte>, pos: nat, nbrStr: nat, version: nat, pool: Pool, types: seq<nat>, d: Def)
    requires ValidTable(pool, types) && ValidDef(d, nbrStr, version, pool, types)
    requires At(data, pos, EncodeU(d.name) + EncodeRest(d, version))
    ensures ReadAs(EntryAt(data, pos, nbrStr, version, pool, types, DefTag(d)),
                   pos, |EncodeU(d.name) + EncodeRest(d, version)|, d, pool, types)
  {
    hide StrIdAt, TypeIdAt, CountedAt, SubtypeAt, EntryAt, EncodeU, EncodeTail, SubtypeFits, WithPlain;
    AtSplit(data, pos, EncodeU(d.name), EncodeRest(d, version));
    StrIdIs(data, pos, d.name, nbrStr);
    var p := pos + |EncodeU(d.name)|;
    EntryUnfold(data, pos, nbrStr, version, pool, types, d, p);
    if d.EnumDef? || d.PhysicalDef? || d.RecordDef? {
      CountedIs(data, p, nbrStr, version, pool, types, d);
    } else if d.ScalarDef? {
      ScalarIs(pool, types, d, version);
    } else {
      assert EncodeRest(d, version) == EncodeU(BaseId(d)) + EncodeTail(d);
      hide EncodeRest;
      AtSplit(data, p, EncodeU(BaseId(d)), EncodeTail(d));
      TypeIdIs(data, p, BaseId(d), types);
      var q := p + |EncodeU(BaseId(d))|;
      SubtypeDefIs(data, q, nbrStr, version, pool, types, d);
      EntrySubtype(data, pos, nbrStr, version, pool, types, d, p, q);
    }
  }

  lemma ScalarIs(pool: Pool, types: seq<nat>, d: Def, version: nat)
    requires Good(pool) && d.ScalarDef? && d.kind in {I32, I64, F64}
    ensures EncodeRest(d, version) == []
    ensures var r := WithPlain(pool, Scalar(d.kind, Named(d.name)));
            Good(r.0) && pool <= r.0 && Defines(d, types, r.0, r.1)
  {
  }

  // ---- The table --------------------------------------------------------

  /** Whether all bounds of definition `id` are known. */
  predicate DefBounded(ds: seq<Def>, id: nat) {
    1 <= id <= |ds| && match ds[id - 1]
    case ArrayDef(_, _, _) => false
    case UnboundedArrayDef(_, _) => false
    case UnboundedRecordDef(_, _) => false
    case RecordDef(_, fields) => forall j :: 0 <= j < |fields| ==> fields[j].ty < id && DefBounded(ds, fields[j].ty)
    case _ => true
  }

  /** The array definition that `id` is a subtype of, or 0. */
  function DefArray(ds: seq<Def>, id: nat): (a: nat)
    ensures a > 0 ==> a <= |ds| && ds[a - 1].ArrayDef?
  {
    if !(1 <= id <= |ds|) then 0
    else
      match ds[id - 1]
      case ArrayDef(_, _, _) => id
      case UnboundedArrayDef(_, b) => if 1 <= b <= |ds| && ds[b - 1].ArrayDef? then b else 0
      case ArraySubtypeDef(_, b, _) => if 1 <= b <= |ds| && ds[b - 1].ArrayDef? then b else 0
      case _ => 0
  }

  /** These bounds are what definition `id` lacks. */
  ghost predicate DefFits(ds: seq<Def>, id: nat, b: Bounds)
    decreases b, 1
  {
    1 <= id <= |ds| && if DefBounded(ds, id) then b.AsIs? else DefSubtypeFits(ds, id, b)
  }

  /** These bounds make a subtype of definition `id`. */
  ghost predicate DefSubtypeFits(ds: seq<Def>, id: nat, b: Bounds)
    requires 1 <= id <= |ds|
    decreases b, 0
  {
    match b
    case AsIs => false
    case OnArray(rngs, el) =>
      && DefArray(ds, id) > 0
      && |rngs| == |ds[DefArray(ds, id) - 1].dims|
      && (forall r :: r in rngs ==> ValidRange(r) && r.kind in {22, 23, 25})
      && DefFits(ds, ds[DefArray(ds, id) - 1].el, el)
    case OnRecord(fields) =>
      && ds[id - 1].RecordDef?
      && if DefBounded(ds, id) then fields == []
         else && |fields| == |ds[id - 1].fields|
              && forall j :: 0 <= j < |fields| ==> DefFits(ds, ds[id - 1].fields[j].ty, fields[j])
  }

  /** Definition number k + 1 is fine: it refers to earlier ones and fits them. */
  ghost predicate DefOk(ds: seq<Def>, k: nat, nbrStr: nat, version: nat)
    requires k < |ds|
  {
    && WellFormed(ds[k], nbrStr, version, k)
    && (ds[k].ArraySubtypeDef? || ds[k].RecordSubtypeDef? ==> DefSubtypeFits(ds, ds[k].base, ds[k].bounds))
    && (ds[k].UnboundedRecordDef? ==> ds[ds[k].base - 1].RecordDef?)
  }

  ghost predicate ValidDefs(ds: seq<Def>, nbrStr: nat, version: nat) {
    forall k :: 0 <= k < |ds| ==> DefOk(ds, k, nbrStr, version)
  }

  /** The table holds what the first definitions define. */
  ghost predicate Declared(ds: seq<Def>, pool: Pool, types: seq<nat>) {
    && ValidTable(pool, types) && |types| <= |ds|
    && forall k :: 0 <= k < |types| ==> Defines(ds[k], types, pool, types[k])
  }

  lemma DeclaredAt(ds: seq<Def>, nbrStr: nat, version: nat, pool: Pool, types: seq<nat>, id: nat)
    requires Declared(ds, pool, types) && ValidDefs(ds, nbrStr, version) && 1 <= id <= |types| && |ds| < MAX32
    ensures |types| <= |ds| && Good(pool) && TypeId(id, |types|) && Entry(types, id) < |pool|
    ensures Defines(ds[id - 1], types, pool, Entry(types, id)) && DefOk(ds, id - 1, nbrStr, version)
  {
  }

  /** The definitions tell which types are bounded. */
  lemma {:induction false} BoundedIs(ds: seq<Def>, nbrStr: nat, version: nat, pool: Pool, types: seq<nat>, id: nat)
    requires Declared(ds, pool, types) && ValidDefs(ds, nbrStr, version) && 1 <= id <= |types| && |ds| < MAX32
    ensures TypeId(id, |types|) && Entry(types, id) < |pool|
    ensures DefBounded(ds, id) <==> GetNbrElements(pool[Entry(types, id)]) >= 0
    decreases id
  {
    hide Declared, ValidDefs, Good, SubtypeFits, DefSubtypeFits, DefBounded;
    DeclaredAt(ds, nbrStr, version, pool, types, id);
    var r, d := Entry(types, id), ds[id - 1];
    match d
    case RecordDef(_, fields) =>
      RecordFields(ds, nbrStr, version, types, pool, id, fields);
      forall j | 0 <= j < |fields|
        ensures fields[j].ty < id && Entry(types, fields[j].ty) < |pool|
        ensures DefBounded(ds, fields[j].ty) <==> GetNbrElements(pool[Entry(types, fields[j].ty)]) >= 0
      {
        BoundedIs(ds, nbrStr, version, pool, types, fields[j].ty);
      }
      RecordBoundedIs(ds, pool, types, r, id, fields);
    case _ =>
      OtherBounded(ds, pool, types, r, id);
  }

  lemma RecordFields(ds: seq<Def>, nbrStr: nat, version: nat, types: seq<nat>, pool: Pool, id: nat, fields: seq<Field>)
    requires 1 <= id <= |types| <= |ds| && |ds| < MAX32 && DefOk(ds, id - 1, nbrStr, version) && ds[id - 1].RecordDef?
    requires fields == ds[id - 1].fields
    ensures forall j :: 0 <= j < |fields| ==> 1 <= fields[j].ty < id && TypeId(fields[j].ty, |types|)
  {
  }

  lemma RecordBoundedIs(ds: seq<Def>, pool: Pool, types: seq<nat>, r: nat, id: nat, fields: seq<Field>)
    requires Good(pool) && 1 <= id <= |ds| && ds[id - 1].RecordDef? && ds[id - 1].fields == fields && r < |pool|
    requires FieldTypeIds(fields, |types|) && pool[r].RecordType? && pool[r].els == ResolveFields(fields, types)
    requires forall j :: 0 <= j < |fields| ==> fields[j].ty < id && Entry(types, fields[j].ty) < |pool|
    requires forall j :: 0 <= j < |fields| ==>
               (DefBounded(ds, fields[j].ty) <==> GetNbrElements(pool[Entry(types, fields[j].ty)]) >= 0)
    ensures DefBounded(ds, id) <==> GetNbrElements(pool[r]) >= 0
  {
    hide Bounded, Leaves, GetNbrElements, Counted;
    CountOf(pool, r);
    RecordUnfold(pool, r);
    var ts := FieldTypes(pool[r].els);
    forall j | 0 <= j < |fields| ensures ts[j] < |pool| && (Bounded(pool, ts[j]) <==> DefBounded(ds, fields[j].ty)) {
      assert ts[j] == Entry(types, fields[j].ty);
      CountOf(pool, ts[j]);
    }
  }

  lemma OtherBounded(ds: seq<Def>, pool: Pool, types: seq<nat>, r: nat, id: nat)
    requires Good(pool) && 1 <= id <= |ds| && Defines(ds[id - 1], types, pool, r) && !ds[id - 1].RecordDef?
    requires ds[id - 1].ArraySubtypeDef? ==> ds[id - 1].bounds.OnArray?
    requires ds[id - 1].RecordSubtypeDef? ==> ds[id - 1].bounds.OnRecord?
    ensures DefBounded(ds, id) <==> GetNbrElements(pool[r]) >= 0
  {
    CountOf(pool, r);
  }

  /** Array definition a is behind type `id`, and the array type that it defines. */
  ghost predicate ArrayBehind(ds: seq<Def>, pool: Pool, types: seq<nat>, id: nat, a: nat)
    requires WellFounded(pool)
  {
    && TypeId(id, |types|) && TypeId(a, |types|) && a <= |ds| && ds[a - 1].ArrayDef? && TypeId(ds[a - 1].el, |types|)
    && ArrayOf(pool, Entry(types, id)) == Some(Entry(types, a))
    && |pool[Entry(types, a)].dims| == |ds[a - 1].dims| && pool[Entry(types, a)].el == Entry(types, ds[a - 1].el)
  }

  lemma ArrayIsDefined(ds: seq<Def>, nbrStr: nat, version: nat, pool: Pool, types: seq<nat>, id: nat, a: nat)
    requires Declared(ds, pool, types) && ValidDefs(ds, nbrStr, version) && 1 <= id <= |types| && |ds| < MAX32
    requires a == DefArray(ds, id) && a > 0
    ensures WellFounded(pool) && ArrayBehind(ds, pool, types, id, a)
  {
    hide Declared, ValidDefs, Good, SubtypeFits, DefSubtypeFits, DefBounded;
    DeclaredAt(ds, nbrStr, version, pool, types, id);
    DeclaredAt(ds, nbrStr, version, pool, types, a);
    GoodFounded(pool);
    hide WellFounded;
  }

  lemma {:induction false} FitsIs(ds: seq<Def>, nbrStr: nat, version: nat, pool: Pool, types: seq<nat>, id: nat,
        b: Bounds)
    requires Declared(ds, pool, types) && ValidDefs(ds, nbrStr, version) && 1 <= id <= |types| && |ds| < MAX32
    requires DefFits(ds, id, b)
    ensures WellFounded(pool) && TypeId(id, |types|) && BoundsFit(pool, Entry(types, id), b)
    decreases b, 1
  {
    hide Declared, ValidDefs, Good, DefBounded, SubtypeFits, DefSubtypeFits, GetNbrElements;
    DeclaredAt(ds, nbrStr, version, pool, types, id);
    GoodFounded(pool);
    BoundedIs(ds, nbrStr, version, pool, types, id);
    if !DefBounded(ds, id) {
      SubtypeFitsIs(ds, nbrStr, version, pool, types, id, b);
    }
  }

  /** Bounds that fit the definition fit the type it defines. */
  lemma {:induction false} SubtypeFitsIs(ds: seq<Def>, nbrStr: nat, version: nat, pool: Pool, types: seq<nat>,
        id: nat, b: Bounds)
    requires Declared(ds, pool, types) && ValidDefs(ds, nbrStr, version) && 1 <= id <= |types| <= |ds| && |ds| < MAX32
    requires DefSubtypeFits(ds, id, b)
    ensures WellFounded(pool) && TypeId(id, |types|) && Entry(types, id) < |pool|
    ensures SubtypeFits(pool, Entry(types, id), b)
    decreases b, 0
  {
    hide Declared, ValidDefs, Good, DefBounded, DefFits, BoundsFit, ArrayOf, DefArray;
    DeclaredAt(ds, nbrStr, version, pool, types, id);
    GoodFounded(pool);
    match b
    case AsIs =>
    case OnArray(rngs, el) =>
      ArrayIsDefined(ds, nbrStr, version, pool, types, id, DefArray(ds, id));
      FitsIs(ds, nbrStr, version, pool, types, ds[DefArray(ds, id) - 1].el, el);
    case OnRecord(fields) =>
      BoundedIs(ds, nbrStr, version, pool, types, id);
      RecordFields(ds, nbrStr, version, types, pool, id, ds[id - 1].fields);
      if !DefBounded(ds, id) {
        forall j | 0 <= j < |fields| ensures BoundsFit(pool, pool[Entry(types, id)].els[j].ty, fields[j]) {
          FitsIs(ds, nbrStr, version, pool, types, ds[id - 1].fields[j].ty, fields[j]);
        }
      }
  }

  /** The next definition is valid for the table that holds those before it. */
  lemma NextValid(ds: seq<Def>, nbrStr: nat, version: nat, pool: Pool, types: seq<nat>)
    requires Declared(ds, pool, types) && ValidDefs(ds, nbrStr, version) && |types| < |ds| < MAX32
    ensures ValidTable(pool, types) && ValidDef(ds[|types|], nbrStr, version, pool, types)
  {
    hide Declared, ValidDefs, Good, SubtypeFits, DefSubtypeFits, DefBounded;
    var d := ds[|types|];
    NextOk(ds, nbrStr, version, pool, types);
    if d.ArraySubtypeDef? || d.RecordSubtypeDef? {
      SubtypeFitsIs(ds, nbrStr, version, pool, types, d.base, d.bounds);
    } else if d.UnboundedRecordDef? {
      DeclaredAt(ds, nbrStr, version, pool, types, d.base);
    }
  }

  lemma NextOk(ds: seq<Def>, nbrStr: nat, version: nat, pool: Pool, types: seq<nat>)
    requires Declared(ds, pool, types) && ValidDefs(ds, nbrStr, version) && |types| < |ds|
    ensures ValidTable(pool, types) && DefOk(ds, |types|, nbrStr, version)
  {
  }

  /** What a type is does not change when more entries follow. */
  lemma DefinesStays(d: Def, types: seq<nat>, types': seq<nat>, pool: Pool, pool': Pool, r: nat)
    requires WellFounded(pool) && WellFounded(pool') && types <= types' && pool <= pool' && Defines(d, types, pool, r)
    ensures Defines(d, types', pool', r)
  {
    hide WellFounded, Shaped;
    match d
    case ArrayDef(_, _, dims) => assert Resolve(dims, types) == Resolve(dims, types');
    case RecordDef(_, fields) => assert ResolveFields(fields, types) == ResolveFields(fields, types');
    case ArraySubtypeDef(_, base, b) => ShapedStays(pool, pool', r, Entry(types, base), b);
    case RecordSubtypeDef(_, base, b) => ShapedStays(pool, pool', r, Entry(types, base), b);
    case _ =>
  }

  lemma OneMoreDeclared(ds: seq<Def>, pool: Pool, types: seq<nat>, pool': Pool, r: nat)
    requires Declared(ds, pool, types) && |types| < |ds| && Good(pool') && pool <= pool' && r < |pool'|
    requires Defines(ds[|types|], types, pool', r)
    ensures Declared(ds, pool', types + [r])
  {
    hide Defines, Good;
    GoodFounded(pool);
    GoodFounded(pool');
    var types' := types + [r];
    assert forall t :: t in types' ==> t in types || t == r;
    DefinesStays(ds[|types|], types, types', pool', pool', r);
    forall k | 0 <= k < |types'| ensures Defines(ds[k], types', pool', types'[k]) {
      if k < |types| {
        assert Defines(ds[k], types, pool, types[k]);
        DefinesStays(ds[k], types, types', pool, pool', types[k]);
      }
    }
  }

  function EncodeDefs(ds: seq<Def>, version: nat): seq<Byte> {
    if ds == [] then [] else EncodeDef(ds[0], version) + EncodeDefs(ds[1..], version)
  }

  /** A table of which all definitions have been read. */
  ghost predicate ReadAll(out: Read<(Pool, seq<nat>)>, end: nat, ds: seq<Def>, pool: Pool) {
    out.Ok? && out.pos == end && pool <= out.value.0 && |out.value.1| == |ds| && Declared(ds, out.value.0, out.value.1)
  }

  lemma {:induction false} EntriesAre(data: seq<Byte>, pos: nat, nbrStr: nat, version: nat, pool: Pool,
        types: seq<nat>, ds: seq<Def>)
    requires Declared(ds, pool, types) && ValidDefs(ds, nbrStr, version) && |ds| < MAX32
    requires At(data, pos, EncodeDefs(ds[|types|..], version))
    ensures ReadAll(EntriesAt(data, pos, nbrStr, version, pool, types, |ds| - |types|),
                    pos + |EncodeDefs(ds[|types|..], version)|, ds, pool)
    decreases |ds| - |types|
  {
    hide Declared, ValidDefs, Good, EncodeDef, EntryAt, Defines, ValidDef;
    DeclaredTable(ds, pool, types);
    var k := |types|;
    if k < |ds| {
      var d := ds[k];
      assert ds[k..][0] == d && ds[k..][1..] == ds[k + 1..];
      AtSplit(data, pos, EncodeDef(d, version), EncodeDefs(ds[k + 1..], version));
      NextValid(ds, nbrStr, version, pool, types);
      DefIs(data, pos, nbrStr, version, pool, types, d);
      var e := EntryAt(data, pos + 1, nbrStr, version, pool, types, data[pos]);
      OneMoreDeclared(ds, pool, types, e.value.0, e.value.1);
      EntriesAre(data, e.pos, nbrStr, version, e.value.0, types + [e.value.1], ds);
    }
  }

  lemma DeclaredTable(ds: seq<Def>, pool: Pool, types: seq<nat>)
    requires Declared(ds, pool, types)
    ensures ValidTable(pool, types) && |types| <= |ds|
  {
  }

  /** The kind byte, and then the rest. */
  lemma DefIs(data: seq<Byte>, pos: nat, nbrStr: nat, version: nat, pool: Pool, types: seq<nat>, d: Def)
    requires ValidTable(pool, types) && ValidDef(d, nbrStr, version, pool, types)
    requires At(data, pos, EncodeDef(d, version))
    ensures pos < |data|
    ensures ReadAs(EntryAt(data, pos + 1, nbrStr, version, pool, types, data[pos]),
                   pos, |EncodeDef(d, version)|, d, pool, types)
  {
    hide Good, EncodeU, EncodeRest, EntryAt, Defines, SubtypeFits;
    var t := DefTag(d);
    assert t < 256;
    AtSplit(data, pos, [t], EncodeU(d.name) + EncodeRest(d, version));
    OneByte(data, pos, t);
    EntryIs(data, pos + 1, nbrStr, version, pool, types, d);
  }

  function EncodeTypes(ds: seq<Def>, be: bool, version: nat): seq<Byte>
    requires |ds| < 0x8000_0000
  {
    [0, 0, 0, 0] + EncodeI32(|ds|, be) + (EncodeDefs(ds, version) + [0])
  }

  /** Wherever the encoding of valid definitions stands in the stream, the reader consumes exactly
      that encoding and builds the types they define, which form a good table. */
  lemma TypesRoundTrip(data: seq<Byte>, pos: nat, be: bool, nbrStr: nat, version: nat, pool: Pool, ds: seq<Def>)
    requires Good(pool) && ValidDefs(ds, nbrStr, version) && |ds| < 0x8000_0000
    requires At(data, pos, EncodeTypes(ds, be, version))
    ensures ReadAll(TypesAt(data, pos, be, nbrStr, version, pool), pos + |EncodeTypes(ds, be, version)|, ds, pool)
  {
    hide Good, EncodeDefs, EntriesAt, ValidDefs, GetI32, EncodeI32;
    var head, body := [0, 0, 0, 0] + EncodeI32(|ds|, be), EncodeDefs(ds, version);
    AtSplit(data, pos, head, body + [0]);
    AtSplit(data, pos + 8, body, [0]);
    OneByte(data, pos + 8 + |body|, 0);
    var hdr := data[pos..pos + 8];
    assert hdr[..4] == [0, 0, 0, 0] && hdr[4..] == EncodeI32(|ds|, be);
    I32RoundTrip(|ds|, be);
    NothingDeclared(ds, pool);
    assert ds[0..] == ds;
    EntriesAre(data, pos + 8, nbrStr, version, pool, [], ds);
  }

  lemma NothingDeclared(ds: seq<Def>, pool: Pool)
    requires Good(pool)
    ensures Declared(ds, pool, [])
  {
  }
}
