/** For which types bounds can be read at all: the bounds of an unbounded record subtype cannot, nor
    those of anything that lacks them inside. */
module GhwTypeBounds {
  import opened GhwStream
  import opened GhwTypes
  import opened GhwTypeReader
  import opened GhwTypeFormat

  /** Everything that lacks bounds in type t is an array or a record type, or an unbounded array
      subtype of an array. */
  ghost predicate Boundable(pool: Pool, t: nat)
    requires WellFounded(pool) && t < |pool|
    decreases t
  {
    if GetNbrElements(pool[t]) >= 0 then true
    else if pool[t].RecordType? then
      RecordBelow(pool, t);
      forall j :: 0 <= j < |pool[t].els| ==>
        FieldTypes(pool[t].els)[j] < t && Boundable(pool, FieldTypes(pool[t].els)[j])
    else if (pool[t].ArrayType? || pool[t].SubtypeUnboundedArray?) && ArrayOf(pool, t).Some? then
      Boundable(pool, pool[ArrayOf(pool, t).value].el)
    else false
  }

  // ---- What is read is boundable ----------------------------------------

  lemma {:induction false} ElementOk(data: seq<Byte>, pos: nat, first: Pool, pool: Pool, t: nat)
    requires Good(first) && Good(pool) && first <= pool && t < |first| && pos <= |data|
    requires ElementAt(data, pos, pool, t).Ok?
    ensures Boundable(first, t)
    decreases t, 1, 0
  {
    hide Good;
    GoodFounded(first);
    GoodFounded(pool);
    if GetNbrElements(first[t]) < 0 {
      if first[t].RecordType? {
        RecordOk(data, pos, first, pool, t);
      } else if first[t].ArrayType? || first[t].SubtypeUnboundedArray? {
        ArrayOk(data, pos, first, pool, t);
      }
    }
  }

  lemma {:induction false} ArrayOk(data: seq<Byte>, pos: nat, first: Pool, pool: Pool, t: nat)
    requires Good(first) && Good(pool) && first <= pool && t < |first| && pos <= |data|
    requires ArraySubtypeAt(data, pos, pool, Anonymous, t).Ok?
    ensures WellFounded(first) && ArrayOf(first, t).Some? && pool[ArrayOf(first, t).value].el < t
    ensures Boundable(first, pool[ArrayOf(first, t).value].el)
    decreases t, 0, 0
  {
    hide Good, RangesAt;
    GoodFounded(first);
    GoodFounded(pool);
    var arr := pool[BaseType(pool, t).value];
    assert ArrayOf(first, t) == BaseType(pool, t);
    var rs := RangesAt(data, pos, [], |arr.dims|);
    ElementOk(data, rs.pos, first, pool, arr.el);
  }

  lemma {:induction false} RecordOk(data: seq<Byte>, pos: nat, first: Pool, pool: Pool, t: nat)
    requires Good(first) && Good(pool) && first <= pool && t < |first| && pos <= |data|
    requires first[t].RecordType? && first[t].nbrScalars < 0 && RecordSubtypeAt(data, pos, pool, Anonymous, t).Ok?
    ensures Boundable(first, t)
    decreases t, 0, |first[t].els| + 1
  {
    RecordBelow(first, t);
    NoFields(pool);
    AllBound(pool, []);
    FieldsOk(data, pos, first, pool, first[t].els, [], t);
  }

  lemma {:induction false} FieldsOk(data: seq<Byte>, pos: nat, first: Pool, pool: Pool, els: seq<Field>,
        done: seq<Field>, bound: nat)
    requires Good(first) && FieldsBound(pool, done) && first <= pool && bound <= |first| && pos <= |data|
    requires Below(FieldTypes(els), bound) && BoundFieldsAt(data, pos, pool, els, done, bound).Ok?
    ensures forall j :: 0 <= j < |els| ==> Boundable(first, FieldTypes(els)[j])
    decreases bound, 0, |els|
  {
    hide Good, SomeUnbounded, Boundable;
    GoodFounded(first);
    if els != [] {
      var f, ts := els[0], FieldTypes(els);
      assert ts[0] == f.ty && FieldTypes(els[1..]) == ts[1..];
      ElementOk(data, pos, first, pool, f.ty);
      var e := ElementAt(data, pos, pool, f.ty);
      BoundOneMore(pool, done, e.value.0, Field(f.name, e.value.1));
      FieldsOk(data, e.pos, first, e.value.0, els[1..], done + [Field(f.name, e.value.1)], bound);
      forall j | 0 < j < |els| ensures Boundable(first, ts[j]) {
        assert ts[j] == ts[1..][j - 1];
      }
    }
  }

  // ---- What is boundable can be read ------------------------------------

  /** A range of one value. */
  const ONE := Range(B2, false, 0, 0)

  /** Bounds for type t. */
  ghost function SomeBounds(pool: Pool, t: nat): (b: Bounds)
    requires WellFounded(pool) && t < |pool| && Boundable(pool, t)
    decreases t
  {
    if GetNbrElements(pool[t]) >= 0 then AsIs
    else if pool[t].RecordType? then
      RecordBelow(pool, t);
      OnRecord(seq(|pool[t].els|, j requires 0 <= j < |pool[t].els| => SomeBounds(pool, FieldTypes(pool[t].els)[j])))
    else
      var arr := pool[ArrayOf(pool, t).value];
      OnArray(seq(|arr.dims|, _ => ONE), SomeBounds(pool, arr.el))
  }

  lemma {:induction false} SomeBoundsFit(pool: Pool, t: nat)
    requires WellFounded(pool) && t < |pool| && Boundable(pool, t)
    ensures BoundsFit(pool, t, SomeBounds(pool, t))
    decreases t
  {
    hide WellFounded;
    if GetNbrElements(pool[t]) < 0 {
      if pool[t].RecordType? {
        RecordBelow(pool, t);
        var ts := FieldTypes(pool[t].els);
        forall j | 0 <= j < |ts| ensures BoundsFit(pool, ts[j], SomeBounds(pool, ts[j])) {
          SomeBoundsFit(pool, ts[j]);
        }
      } else {
        SomeBoundsFit(pool, pool[ArrayOf(pool, t).value].el);
      }
    }
  }

  /** Some stream holds bounds for a type if and only if it is boundable. */
  lemma BoundsCanBeRead(pool: Pool, t: nat)
    requires Good(pool) && t < |pool|
    ensures (exists data: seq<Byte>, pos: nat :: pos <= |data| && ElementAt(data, pos, pool, t).Ok?)
            <==> Boundable(pool, t)
  {
    hide Boundable, ElementAt;
    GoodFounded(pool);
    if data: seq<Byte>, pos: nat :| pos <= |data| && ElementAt(data, pos, pool, t).Ok? {
      ElementOk(data, pos, pool, pool, t);
    }
    if Boundable(pool, t) {
      var b := SomeBounds(pool, t);
      var data := EncodeBounds(b);
      SomeBoundsFit(pool, t);
      assert data[0..0 + |data|] == data;
      ElementIs(data, 0, pool, pool, t, b);
      assert 0 <= |data| && ElementAt(data, 0, pool, t).Ok?;
    }
  }

  // ---- An input that cannot be read -------------------------------------

  /** An integer type, an array type over it, a record type with such a field, an unbounded subtype of
      the record type, and an array type over that. */
  const UNREADABLE: Pool := [
    Scalar(I32, Anonymous),
    ArrayType(Anonymous, 0, [0]),
    RecordType(Anonymous, -1, [Field(0, 1)]),
    SubtypeUnboundedRecord(Anonymous, 2),
    ArrayType(Anonymous, 3, [0])
  ]

  lemma UnreadableGood()
    ensures Good(UNREADABLE)
  {
    var p0: Pool := [];
    var p1 := p0 + [UNREADABLE[0]];
    var p2 := p1 + [UNREADABLE[1]];
    var p3 := p2 + [UNREADABLE[2]];
    var p4 := p3 + [UNREADABLE[3]];
    AddPlain(p0, UNREADABLE[0]);
    AddPlain(p1, UNREADABLE[1]);
    assert FieldTypes(UNREADABLE[2].els) == [1];
    assert GetNbrElements(p2[[1][0]]) == -1;
    AddRecord(p2, UNREADABLE[2]);
    AddPlain(p3, UNREADABLE[3]);
    AddPlain(p4, UNREADABLE[4]);
    assert UNREADABLE == p4 + [UNREADABLE[4]];
  }

  /** The table is good, but no stream holds bounds for its last type: after a range for the array,
      the record that is not there is read. */
  lemma UnreadableExample()
    ensures Good(UNREADABLE) && !Boundable(UNREADABLE, 4)
    ensures forall data: seq<Byte>, pos: nat :: pos <= |data| ==> !ElementAt(data, pos, UNREADABLE, 4).Ok?
    ensures ElementAt(EncodeRange(ONE), 0, UNREADABLE, 4) == Undefined
  {
    UnreadableGood();
    BoundsCanBeRead(UNREADABLE, 4);
    var data := EncodeRange(ONE);
    assert EncodeRanges([ONE]) == data;
    assert data[0..0 + |data|] == data;
    RangesAre(data, 0, [ONE], []);
  }
}
