/** The type table of a GHW file: types refer to each other, and every bounded type knows how
    many scalar signals an object of that type consists of. */
module GhwTypes {
  import opened Vectors
  import opened GhwStream

  // Values of enum ghdl_rtik.
  const B2 := 22
  const E8 := 23
  const I32 := 25
  const I64 := 26
  const F64 := 27
  const P32 := 28
  const P64 := 29
  const ARRAY := 31
  const RECORD := 32
  const SUBTYPE_SCALAR := 34
  const SUBTYPE_ARRAY := 35
  const SUBTYPE_UNBOUNDED_ARRAY := 37
  const SUBTYPE_RECORD := 38
  const SUBTYPE_UNBOUNDED_RECORD := 39

  datatype Range = Range(kind: nat, downto: bool, left: int, right: int)

  /** A string id, or none for the types made up for elements. */
  datatype Name = Anonymous | Named(id: nat)

  datatype Field = Field(name: nat, ty: nat)

  /** Pointers between types are positions in the order in which the types are completed. */
  datatype GhwType =
    | Enum(kind: nat, name: Name, lits: seq<nat>)
    | Scalar(kind: nat, name: Name)
    | Physical(kind: nat, name: Name, units: seq<(nat, int)>)
    | SubtypeScalar(name: Name, base: nat, rng: Range)
    | ArrayType(name: Name, el: nat, dims: seq<nat>)
    | SubtypeArray(name: Name, base: nat, nbrScalars: int, rngs: seq<Range>, el: nat)
    | SubtypeUnboundedArray(name: Name, base: nat)
    | RecordType(name: Name, nbrScalars: int, els: seq<Field>)
    | SubtypeRecord(name: Name, base: nat, nbrScalars: int, els: seq<Field>)
    | SubtypeUnboundedRecord(name: Name, base: nat)

  type Pool = seq<GhwType>

  /** ghw_get_range_length; no other kind of range has a length. */
  function RangeLength(r: Range): nat {
    var n := if r.downto then r.left - r.right + 1 else r.right - r.left + 1;
    if n <= 0 then 0 else n
  }

  predicate HasLength(r: Range) {
    r.kind in {I32, B2, E8}
  }

  function Extent(rngs: seq<Range>): nat {
    if rngs == [] then 1 else Extent(rngs[..|rngs| - 1]) * RangeLength(rngs[|rngs| - 1])
  }

  // ---- Index values -----------------------------------------------------

  function Interval(l: int, h: int): (s: set<int>)
    ensures forall i :: i in s <==> l <= i <= h
    decreases h - l
  {
    if l > h then {} else {l} + Interval(l + 1, h)
  }

  /** The indexes of a dimension, none for a null range. */
  function Indexes(r: Range): set<int> {
    if r.downto then Interval(r.right, r.left) else Interval(r.left, r.right)
  }

  /** The indexes of one element of an array, the last dimension outermost. */
  datatype Tuple = Nil | More(front: Tuple, last: int)

  /** All tuples with one more index. */
  function Extended(ts: set<Tuple>, js: set<int>): set<Tuple> {
    set t, j | t in ts && j in js :: More(t, j)
  }

  /** The elements of an array: one index for each dimension. */
  function IndexTuples(rngs: seq<Range>): set<Tuple> {
    if rngs == [] then {Nil} else Extended(IndexTuples(rngs[..|rngs| - 1]), Indexes(rngs[|rngs| - 1]))
  }

  lemma {:induction false} IntervalSize(l: int, h: int)
    ensures |Interval(l, h)| == if l <= h then h - l + 1 else 0
    decreases h - l
  {
    if l <= h { IntervalSize(l + 1, h); }
  }

  /** The length of a range is the number of its indexes. */
  lemma LengthIsCount(r: Range)
    ensures RangeLength(r) == |Indexes(r)|
  {
    if r.downto {
      IntervalSize(r.right, r.left);
    } else {
      IntervalSize(r.left, r.right);
    }
  }

  lemma {:induction false} ExtendedByOne(ts: set<Tuple>, j: int)
    ensures |Extended(ts, {j})| == |ts|
    decreases |ts|
  {
    if ts == {} {
      assert Extended(ts, {j}) == {};
    } else {
      var t :| t in ts;
      ExtendedByOne(ts - {t}, j);
      assert Extended(ts, {j}) == Extended(ts - {t}, {j}) + {More(t, j)};
    }
  }

  lemma {:induction false} ExtendedSize(ts: set<Tuple>, l: int, h: int)
    ensures |Extended(ts, Interval(l, h))| == |ts| * |Interval(l, h)|
    decreases h - l
  {
    if l <= h {
      ExtendedSize(ts, l + 1, h);
      ExtendedByOne(ts, l);
      assert Extended(ts, Interval(l, h)) == Extended(ts, {l}) + Extended(ts, Interval(l + 1, h));
      OneMoreTime(|ts|, |Interval(l + 1, h)|);
    } else {
      assert Extended(ts, {}) == {};
    }
  }

  lemma OneMoreTime(n: nat, m: nat)
    ensures n * (m + 1) == n * m + n
  {
  }

  lemma ExtendedBy(ts: set<Tuple>, r: Range)
    ensures |Extended(ts, Indexes(r))| == |ts| * |Indexes(r)|
  {
    if r.downto {
      ExtendedSize(ts, r.right, r.left);
    } else {
      ExtendedSize(ts, r.left, r.right);
    }
  }

  /** The product of the lengths is the number of index tuples. */
  lemma {:induction false} ExtentIsCount(rngs: seq<Range>)
    ensures Extent(rngs) == |IndexTuples(rngs)|
  {
    if rngs != [] {
      var front, last := rngs[..|rngs| - 1], rngs[|rngs| - 1];
      ExtentSnoc(rngs);
      hide Extent, IndexTuples, Extended, Indexes, RangeLength;
      ExtentIsCount(front);
      LengthIsCount(last);
      ExtendedBy(IndexTuples(front), last);
    }
  }

  lemma ExtentSnoc(rngs: seq<Range>)
    requires rngs != []
    ensures Extent(rngs) == Extent(rngs[..|rngs| - 1]) * RangeLength(rngs[|rngs| - 1])
    ensures IndexTuples(rngs) == Extended(IndexTuples(rngs[..|rngs| - 1]), Indexes(rngs[|rngs| - 1]))
  {
  }

  /** get_nbr_elements */
  function GetNbrElements(t: GhwType): int {
    match t
    case Enum(_, _, _) => 1
    case Scalar(_, _) => 1
    case Physical(_, _, _) => 1
    case SubtypeScalar(_, _, _) => 1
    case ArrayType(_, _, _) => -1
    case SubtypeArray(_, _, n, _, _) => n
    case RecordType(_, n, _) => n
    case SubtypeRecord(_, _, n, _) => n
    case SubtypeUnboundedArray(_, _) => -1
    case SubtypeUnboundedRecord(_, _) => -1
  }

  // ---- Well-foundedness -------------------------------------------------

  function FieldTypes(els: seq<Field>): (ts: seq<nat>)
    ensures |ts| == |els|
    ensures forall k :: 0 <= k < |els| ==> ts[k] == els[k].ty
  {
    seq(|els|, k requires 0 <= k < |els| => els[k].ty)
  }

  /** Everything type t points to. */
  function Refs(t: GhwType): seq<nat> {
    match t
    case Enum(_, _, _) => []
    case Scalar(_, _) => []
    case Physical(_, _, _) => []
    case SubtypeScalar(_, base, _) => [base]
    case ArrayType(_, el, dims) => [el] + dims
    case SubtypeArray(_, base, _, _, el) => [base, el]
    case SubtypeUnboundedArray(_, base) => [base]
    case RecordType(_, _, els) => FieldTypes(els)
    case SubtypeRecord(_, base, _, els) => [base] + FieldTypes(els)
    case SubtypeUnboundedRecord(_, base) => [base]
  }

  predicate Below(ts: seq<nat>, n: nat) {
    forall k :: 0 <= k < |ts| ==> ts[k] < n
  }

  /** Types point to earlier types only. */
  ghost predicate WellFounded(pool: Pool) {
    forall t :: 0 <= t < |pool| ==> Below(Refs(pool[t]), t)
  }

  // ---- Reference definitions --------------------------------------------

  /** The types that determine the scalars of an object. */
  function Parts(t: GhwType): seq<nat> {
    match t
    case SubtypeArray(_, _, _, _, el) => [el]
    case RecordType(_, _, els) => FieldTypes(els)
    case SubtypeRecord(_, _, _, els) => FieldTypes(els)
    case _ => []
  }

  lemma PartsBelow(pool: Pool, t: nat)
    requires WellFounded(pool) && t < |pool|
    ensures Below(Parts(pool[t]), t)
  {
    var ts, refs := Parts(pool[t]), Refs(pool[t]);
    assert Below(refs, t);
    forall k | 0 <= k < |ts| ensures ts[k] < t {
      if pool[t].SubtypeArray? {
        assert ts[k] == refs[1];
      } else if pool[t].SubtypeRecord? {
        assert ts[k] == refs[k + 1];
      } else {
        assert ts[k] == refs[k];
      }
    }
  }

  /** No bounds are missing anywhere inside the type. */
  ghost predicate Bounded(pool: Pool, t: nat)
    requires WellFounded(pool) && t < |pool|
    decreases t
  {
    PartsBelow(pool, t);
    && !pool[t].ArrayType? && !pool[t].SubtypeUnboundedArray? && !pool[t].SubtypeUnboundedRecord?
    && forall k :: 0 <= k < |Parts(pool[t])| ==> Bounded(pool, Parts(pool[t])[k])
  }

  function Repeat(s: seq<nat>, n: nat): (r: seq<nat>)
    ensures |r| == n * |s|
  {
    if n == 0 then [] else
      RepeatLength(n, |s|);
      Repeat(s, n - 1) + s
  }

  lemma RepeatLength(n: nat, m: nat)
    requires n > 0
    ensures n * m == (n - 1) * m + m
  {
  }

  /** The leaf types of an object, in order: those of the element once for each index tuple. */
  ghost function Leaves(pool: Pool, t: nat): seq<nat>
    requires WellFounded(pool) && t < |pool|
    decreases t, 1, 0
  {
    PartsBelow(pool, t);
    match pool[t]
    case SubtypeArray(_, _, _, rngs, el) =>
      assert Parts(pool[t])[0] == el;
      Repeat(Leaves(pool, el), |IndexTuples(rngs)|)
    case RecordType(_, _, els) => AllLeaves(pool, FieldTypes(els), t)
    case SubtypeRecord(_, _, _, els) => AllLeaves(pool, FieldTypes(els), t)
    case _ => [t]
  }

  ghost function AllLeaves(pool: Pool, ts: seq<nat>, bound: nat): seq<nat>
    requires WellFounded(pool) && bound <= |pool| && Below(ts, bound)
    decreases bound, 0, |ts|
  {
    if ts == [] then []
    else AllLeaves(pool, ts[..|ts| - 1], bound) + Leaves(pool, ts[|ts| - 1])
  }

  /** The count stored in a type is the number of its leaves, and -1 when bounds are missing. */
  ghost predicate Counted(pool: Pool, t: nat)
    requires WellFounded(pool) && t < |pool|
  {
    GetNbrElements(pool[t]) == if Bounded(pool, t) then |Leaves(pool, t)| else -1
  }

  ghost predicate Good(pool: Pool) {
    && WellFounded(pool)
    && (forall t :: 0 <= t < |pool| ==> Counted(pool, t))
    && (forall t :: 0 <= t < |pool| && (pool[t].SubtypeArray? || pool[t].SubtypeRecord?) ==> Bounded(pool, t))
  }

  // ---- Adding a type ----------------------------------------------------

  lemma {:induction false} BoundedStays(pool: Pool, x: GhwType, t: nat)
    requires WellFounded(pool) && WellFounded(pool + [x]) && t < |pool|
    ensures Bounded(pool + [x], t) == Bounded(pool, t)
    decreases t
  {
    PartsBelow(pool, t);
    var ts := Parts(pool[t]);
    forall k | 0 <= k < |ts| ensures Bounded(pool + [x], ts[k]) == Bounded(pool, ts[k]) {
      BoundedStays(pool, x, ts[k]);
    }
  }

  lemma {:induction false} LeavesStay(pool: Pool, x: GhwType, t: nat)
    requires WellFounded(pool) && WellFounded(pool + [x]) && t < |pool|
    ensures Leaves(pool + [x], t) == Leaves(pool, t)
    decreases t, 1, 0
  {
    PartsBelow(pool, t);
    match pool[t]
    case SubtypeArray(_, _, _, _, el) => assert Parts(pool[t])[0] == el; LeavesStay(pool, x, el);
    case RecordType(_, _, els) => AllLeavesStay(pool, x, FieldTypes(els), t);
    case SubtypeRecord(_, _, _, els) => AllLeavesStay(pool, x, FieldTypes(els), t);
    case _ =>
  }

  lemma {:induction false} AllLeavesStay(pool: Pool, x: GhwType, ts: seq<nat>, bound: nat)
    requires WellFounded(pool) && WellFounded(pool + [x]) && bound <= |pool| && Below(ts, bound)
    ensures AllLeaves(pool + [x], ts, bound) == AllLeaves(pool, ts, bound)
    decreases bound, 0, |ts|
  {
    if ts != [] {
      AllLeavesStay(pool, x, ts[..|ts| - 1], bound);
      LeavesStay(pool, x, ts[|ts| - 1]);
    }
  }

  lemma AddWellFounded(pool: Pool, x: GhwType)
    requires WellFounded(pool) && Below(Refs(x), |pool|)
    ensures WellFounded(pool + [x])
  {
    forall t | 0 <= t < |pool + [x]| ensures Below(Refs((pool + [x])[t]), t) {
      if t < |pool| { assert (pool + [x])[t] == pool[t]; }
    }
  }

  /** A new type keeps the table good when it is itself counted correctly. */
  lemma AddGood(pool: Pool, x: GhwType)
    requires Good(pool) && Below(Refs(x), |pool|)
    requires WellFounded(pool + [x]) ==> Counted(pool + [x], |pool|)
    requires WellFounded(pool + [x]) && (x.SubtypeArray? || x.SubtypeRecord?) ==> Bounded(pool + [x], |pool|)
    ensures Good(pool + [x])
  {
    hide Bounded, Leaves, WellFounded, GetNbrElements;
    AddWellFounded(pool, x);
    forall t | 0 <= t < |pool + [x]|
      ensures Counted(pool + [x], t)
      ensures (pool + [x])[t].SubtypeArray? || (pool + [x])[t].SubtypeRecord? ==> Bounded(pool + [x], t)
    {
      if t < |pool| {
        assert Counted(pool, t);
        BoundedStays(pool, x, t);
        LeavesStay(pool, x, t);
      }
    }
  }

  // ---- Counting ---------------------------------------------------------

  function SumCounts(pool: Pool, ts: seq<nat>): int
    requires Below(ts, |pool|)
  {
    if ts == [] then 0 else SumCounts(pool, ts[..|ts| - 1]) + GetNbrElements(pool[ts[|ts| - 1]])
  }

  predicate SomeUnbounded(pool: Pool, ts: seq<nat>)
    requires Below(ts, |pool|)
  {
    exists k :: 0 <= k < |ts| && GetNbrElements(pool[ts[k]]) == -1
  }

  lemma {:induction false} SumCountsStays(pool: Pool, pool': Pool, ts: seq<nat>)
    requires pool <= pool' && Below(ts, |pool|)
    ensures SumCounts(pool', ts) == SumCounts(pool, ts) && SomeUnbounded(pool', ts) == SomeUnbounded(pool, ts)
  {
    if ts != [] {
      SumCountsStays(pool, pool', ts[..|ts| - 1]);
    }
  }

  lemma CountOf(pool: Pool, t: nat)
    requires Good(pool) && t < |pool|
    ensures GetNbrElements(pool[t]) == if Bounded(pool, t) then |Leaves(pool, t)| else -1
  {
    assert Counted(pool, t);
  }

  lemma {:induction false} SumIsLeaves(pool: Pool, ts: seq<nat>, bound: nat)
    requires Good(pool) && bound <= |pool| && Below(ts, bound)
    ensures SomeUnbounded(pool, ts) <==> exists k :: 0 <= k < |ts| && !Bounded(pool, ts[k])
    ensures !SomeUnbounded(pool, ts) ==> SumCounts(pool, ts) == |AllLeaves(pool, ts, bound)|
  {
    forall k | 0 <= k < |ts| ensures GetNbrElements(pool[ts[k]]) == -1 <==> !Bounded(pool, ts[k]) {
      CountOf(pool, ts[k]);
    }
    if ts != [] {
      SumIsLeaves(pool, ts[..|ts| - 1], bound);
      CountOf(pool, ts[|ts| - 1]);
    }
  }

  /** An array subtype of a bounded element type. */
  lemma AddArray(pool: Pool, x: GhwType)
    requires Good(pool) && x.SubtypeArray? && x.base < |pool| && x.el < |pool|
    requires GetNbrElements(pool[x.el]) >= 0 && x.nbrScalars == Extent(x.rngs) * GetNbrElements(pool[x.el])
    ensures Good(pool + [x])
  {
    var n := |pool|;
    AddWellFounded(pool, x);
    CountOf(pool, x.el);
    BoundedStays(pool, x, x.el);
    LeavesStay(pool, x, x.el);
    ExtentIsCount(x.rngs);
    assert Parts((pool + [x])[n]) == [x.el];
    AddGood(pool, x);
  }

  /** A record type, or a subtype whose fields are all bounded. */
  lemma AddRecord(pool: Pool, x: GhwType)
    requires Good(pool) && (x.RecordType? || x.SubtypeRecord?) && Below(Refs(x), |pool|)
    requires Below(FieldTypes(x.els), |pool|)
    requires x.nbrScalars == if SomeUnbounded(pool, FieldTypes(x.els)) then -1 else SumCounts(pool, FieldTypes(x.els))
    requires x.SubtypeRecord? ==> !SomeUnbounded(pool, FieldTypes(x.els))
    ensures Good(pool + [x])
  {
    hide Bounded, Leaves, AllLeaves, WellFounded, SomeUnbounded, SumCounts;
    var n, ts := |pool|, FieldTypes(x.els);
    AddWellFounded(pool, x);
    RecordUnfold(pool + [x], n);
    SumIsLeaves(pool, ts, n);
    AllLeavesStay(pool, x, ts, n);
    forall k | 0 <= k < |ts| ensures Bounded(pool + [x], ts[k]) == Bounded(pool, ts[k]) {
      BoundedStays(pool, x, ts[k]);
    }
    AddGood(pool, x);
  }

  lemma RecordUnfold(pool: Pool, t: nat)
    requires WellFounded(pool) && t < |pool| && (pool[t].RecordType? || pool[t].SubtypeRecord?)
    ensures Below(FieldTypes(pool[t].els), t)
    ensures Bounded(pool, t)
            <==> forall k :: 0 <= k < |FieldTypes(pool[t].els)| ==> Bounded(pool, FieldTypes(pool[t].els)[k])
    ensures Leaves(pool, t) == AllLeaves(pool, FieldTypes(pool[t].els), t)
  {
    PartsBelow(pool, t);
    assert Parts(pool[t]) == FieldTypes(pool[t].els);
  }

  /** Scalars, array types and subtypes that add no bounds. */
  predicate Plain(x: GhwType) {
    || x.Enum? || x.Scalar? || x.Physical? || x.SubtypeScalar?
    || x.ArrayType? || x.SubtypeUnboundedArray? || x.SubtypeUnboundedRecord?
  }

  lemma AddPlain(pool: Pool, x: GhwType)
    requires Good(pool) && Below(Refs(x), |pool|) && Plain(x)
    ensures Good(pool + [x])
  {
    AddGood(pool, x);
  }

  datatype Option = None | Some(value: nat)

  /** ghw_get_base_type; it does not handle records. */
  function BaseType(pool: Pool, t: nat): (b: Option)
    requires WellFounded(pool) && t < |pool|
    ensures b.Some? ==> b.value <= t && (b.value < t ==> b.value in Refs(pool[t]))
  {
    assert Below(Refs(pool[t]), t);
    match pool[t]
    case Enum(_, _, _) => Some(t)
    case Scalar(_, _) => Some(t)
    case Physical(_, _, _) => Some(t)
    case ArrayType(_, _, _) => Some(t)
    case SubtypeScalar(_, base, _) => assert Refs(pool[t])[0] == base; Some(base)
    case SubtypeArray(_, base, _, _, _) => assert Refs(pool[t])[0] == base; Some(base)
    case SubtypeUnboundedArray(_, base) => assert Refs(pool[t])[0] == base; Some(base)
    case _ => None
  }

  /** The base of a scalar or array subtype; every other type is its own. */
  function BaseOf(pool: Pool, t: nat): (b: nat)
    requires WellFounded(pool) && t < |pool|
    ensures b <= t
  {
    if pool[t].SubtypeScalar? || pool[t].SubtypeArray? || pool[t].SubtypeUnboundedArray? then
      assert Below(Refs(pool[t]), t) && Refs(pool[t])[0] == pool[t].base;
      pool[t].base
    else t
  }

  /** The kind byte of a type. */
  function Tag(t: GhwType): nat {
    match t
    case Enum(k, _, _) => k
    case Scalar(k, _) => k
    case Physical(k, _, _) => k
    case SubtypeScalar(_, _, _) => SUBTYPE_SCALAR
    case ArrayType(_, _, _) => ARRAY
    case SubtypeArray(_, _, _, _, _) => SUBTYPE_ARRAY
    case SubtypeUnboundedArray(_, _) => SUBTYPE_UNBOUNDED_ARRAY
    case RecordType(_, _, _) => RECORD
    case SubtypeRecord(_, _, _, _) => SUBTYPE_RECORD
    case SubtypeUnboundedRecord(_, _) => SUBTYPE_UNBOUNDED_RECORD
  }

  lemma {:induction false} SumNonNegative(pool: Pool, ts: seq<nat>)
    requires Good(pool) && Below(ts, |pool|)
    ensures !SomeUnbounded(pool, ts) ==> SumCounts(pool, ts) >= 0
  {
    SumIsLeaves(pool, ts, |pool|);
  }

  lemma ElementBelow(pool: Pool, b: nat)
    requires WellFounded(pool) && b < |pool| && pool[b].ArrayType?
    ensures pool[b].el < b
  {
    assert Below(Refs(pool[b]), b);
    assert Refs(pool[b])[0] == pool[b].el;
  }

  lemma RecordBelow(pool: Pool, base: nat)
    requires WellFounded(pool) && base < |pool| && pool[base].RecordType?
    ensures Below(FieldTypes(pool[base].els), base)
  {
    assert Below(Refs(pool[base]), base);
  }

  lemma BoundedRecord(pool: Pool, base: nat)
    requires Good(pool) && base < |pool| && pool[base].RecordType? && pool[base].nbrScalars >= 0
    ensures Below(FieldTypes(pool[base].els), base) && !SomeUnbounded(pool, FieldTypes(pool[base].els))
    ensures pool[base].nbrScalars == SumCounts(pool, FieldTypes(pool[base].els))
  {
    var ts := FieldTypes(pool[base].els);
    RecordBelow(pool, base);
    CountOf(pool, base);
    assert Parts(pool[base]) == ts;
    SumIsLeaves(pool, ts, base);
  }

  lemma NoFields(pool: Pool)
    ensures FieldTypes([]) == [] && SumCounts(pool, []) == 0 && !SomeUnbounded(pool, [])
  {
  }

  lemma FieldSnoc(pool: Pool, els: seq<Field>, f: Field)
    requires Below(FieldTypes(els), |pool|) && f.ty < |pool|
    ensures FieldTypes(els + [f]) == FieldTypes(els) + [f.ty] && Below(FieldTypes(els + [f]), |pool|)
    ensures SumCounts(pool, FieldTypes(els + [f])) == SumCounts(pool, FieldTypes(els)) + GetNbrElements(pool[f.ty])
    ensures SomeUnbounded(pool, FieldTypes(els + [f]))
            <==> SomeUnbounded(pool, FieldTypes(els)) || GetNbrElements(pool[f.ty]) == -1
  {
    hide GetNbrElements;
    var ts := FieldTypes(els);
    assert FieldTypes(els + [f]) == ts + [f.ty];
    CountSnoc(pool, ts, f.ty);
  }

  lemma CountSnoc(pool: Pool, ts: seq<nat>, t: nat)
    requires Below(ts, |pool|) && t < |pool|
    ensures Below(ts + [t], |pool|)
    ensures SumCounts(pool, ts + [t]) == SumCounts(pool, ts) + GetNbrElements(pool[t])
    ensures SomeUnbounded(pool, ts + [t]) <==> SomeUnbounded(pool, ts) || GetNbrElements(pool[t]) == -1
  {
    hide GetNbrElements;
    assert (ts + [t])[..|ts|] == ts && (ts + [t])[|ts|] == t;
    if SomeUnbounded(pool, ts) {
      var k :| 0 <= k < |ts| && GetNbrElements(pool[ts[k]]) == -1;
      assert (ts + [t])[k] == ts[k];
    }
  }
}
