/** Reading the basic signals of a declared signal: a recursion over its type that amounts to
    reading one id for each leaf. */
module GhwSignals {
  import opened Vectors
  import opened GhwStream
  import opened GhwTypes

  // ---- Reading leaf by leaf ---------------------------------------------

  /** Only enumerations and scalar subtypes are accepted as basic signals. */
  predicate IsSignalType(t: GhwType) {
    t.Enum? || t.SubtypeScalar?
  }

  /** One id; it must be that of a signal, whose type is set when it is first met. */
  function ReadLeaf(pool: Pool, t: nat, data: seq<Byte>, pos: nat, st: seq<Option>): (out: Read<(nat, seq<Option>)>)
    requires WellFounded(pool) && t < |pool| && pos <= |data|
    ensures out.Ok? ==> pos <= out.pos <= |data| && |out.value.1| == |st|
  {
    if !IsSignalType(pool[t]) then Exit
    else
      match Uleb(data, pos)
      case Ok(id, p) =>
        if id == 0 || id >= |st| then Fail(p)
        else Ok((id, if st[id].None? then st[id := BaseType(pool, t)] else st), p)
      case Fail(p) => Fail(p)
      case Exit => Exit
      case Undefined => Undefined
  }

  /** One id for each leaf, in stream order. */
  function ReadLeaves(pool: Pool, leaves: seq<nat>, data: seq<Byte>, pos: nat,
        st: seq<Option>): (out: Read<(seq<nat>, seq<Option>)>)
    requires WellFounded(pool) && Below(leaves, |pool|) && pos <= |data|
    ensures out.Ok? ==> pos <= out.pos <= |data| && |out.value.0| == |leaves| && |out.value.1| == |st|
  {
    if leaves == [] then Ok(([], st), pos)
    else
      match ReadLeaves(pool, leaves[..|leaves| - 1], data, pos, st)
      case Ok((ids, st'), p) => (
        match ReadLeaf(pool, leaves[|leaves| - 1], data, p, st')
        case Ok((id, st''), p') => Ok((ids + [id], st''), p')
        case Fail(p') => Fail(p')
        case Exit => Exit
        case Undefined => Undefined)
      case Fail(p) => Fail(p)
      case Exit => Exit
      case Undefined => Undefined
  }

  /** Reading in two parts. */
  lemma {:induction false} ReadConcat(pool: Pool, a: seq<nat>, b: seq<nat>, data: seq<Byte>, pos: nat, st: seq<Option>)
    requires WellFounded(pool) && Below(a, |pool|) && Below(b, |pool|) && pos <= |data|
    ensures ReadLeaves(pool, a + b, data, pos, st) ==
            match ReadLeaves(pool, a, data, pos, st)
            case Ok((ids, st'), p) => (
              match ReadLeaves(pool, b, data, p, st')
              case Ok((ids', st''), p') => Ok((ids + ids', st''), p')
              case Fail(p') => Fail(p')
              case Exit => Exit
              case Undefined => Undefined)
            case Fail(p) => Fail(p)
            case Exit => Exit
            case Undefined => Undefined
  {
    hide ReadLeaf;
    if b == [] {
      assert a + b == a;
      ReadNone(pool, data, pos, st);
      var r := ReadLeaves(pool, a, data, pos, st);
      if r.Ok? {
        assert r.value.0 + [] == r.value.0;
        ReadNone(pool, data, r.pos, r.value.1);
      }
    } else {
      var b', t := b[..|b| - 1], b[|b| - 1];
      assert a + b == (a + b') + [t] && b == b' + [t];
      hide ReadLeaves;
      ReadConcat(pool, a, b', data, pos, st);
      ReadSnoc(pool, a + b', t, data, pos, st);
      var r := ReadLeaves(pool, a, data, pos, st);
      if r.Ok? {
        ReadSnoc(pool, b', t, data, r.pos, r.value.1);
        var rb := ReadLeaves(pool, b', data, r.pos, r.value.1);
        if rb.Ok? {
          var leaf := ReadLeaf(pool, t, data, rb.pos, rb.value.1);
          if leaf.Ok? {
            assert r.value.0 + rb.value.0 + [leaf.value.0] == r.value.0 + (rb.value.0 + [leaf.value.0]);
          }
        }
      }
    }
  }

  lemma ReadNone(pool: Pool, data: seq<Byte>, pos: nat, st: seq<Option>)
    requires WellFounded(pool) && pos <= |data|
    ensures ReadLeaves(pool, [], data, pos, st) == Ok(([], st), pos)
  {
  }

  lemma ReadSnoc(pool: Pool, a: seq<nat>, t: nat, data: seq<Byte>, pos: nat, st: seq<Option>)
    requires WellFounded(pool) && Below(a, |pool|) && t < |pool| && pos <= |data|
    ensures ReadLeaves(pool, a + [t], data, pos, st) ==
            match ReadLeaves(pool, a, data, pos, st)
            case Ok((ids, st'), p) => (
              match ReadLeaf(pool, t, data, p, st')
              case Ok((id, st''), p') => Ok((ids + [id], st''), p')
              case Fail(p') => Fail(p')
              case Exit => Exit
              case Undefined => Undefined)
            case Fail(p) => Fail(p)
            case Exit => Exit
            case Undefined => Undefined
  {
    assert (a + [t])[..|a|] == a;
  }

  lemma {:induction false} LeavesBelow(pool: Pool, t: nat)
    requires WellFounded(pool) && t < |pool|
    ensures Below(Leaves(pool, t), |pool|)
    decreases t, 1, 0
  {
    PartsBelow(pool, t);
    match pool[t]
    case SubtypeArray(_, _, _, rngs, el) =>
      assert Parts(pool[t])[0] == el;
      LeavesBelow(pool, el);
      RepeatBelow(Leaves(pool, el), |IndexTuples(rngs)|, |pool|);
    case RecordType(_, _, els) => AllLeavesBelow(pool, FieldTypes(els), t);
    case SubtypeRecord(_, _, _, els) => AllLeavesBelow(pool, FieldTypes(els), t);
    case _ =>
  }

  lemma {:induction false} AllLeavesBelow(pool: Pool, ts: seq<nat>, bound: nat)
    requires WellFounded(pool) && bound <= |pool| && Below(ts, bound)
    ensures Below(AllLeaves(pool, ts, bound), |pool|)
    decreases bound, 0, |ts|
  {
    if ts != [] {
      AllLeavesBelow(pool, ts[..|ts| - 1], bound);
      LeavesBelow(pool, ts[|ts| - 1]);
    }
  }

  lemma {:induction false} RepeatBelow(s: seq<nat>, n: nat, bound: nat)
    requires Below(s, bound)
    ensures Below(Repeat(s, n), bound)
  {
    if n != 0 { RepeatBelow(s, n - 1, bound); }
  }

  lemma {:induction false} RepeatPrefix(s: seq<nat>, k: nat, n: nat)
    requires k <= n
    ensures Repeat(s, k) <= Repeat(s, n)
  {
    if k < n { RepeatPrefix(s, k, n - 1); }
  }

  lemma {:induction false} AllLeavesPrefix(pool: Pool, ts: seq<nat>, bound: nat, j: nat)
    requires WellFounded(pool) && bound <= |pool| && Below(ts, bound) && j <= |ts|
    ensures AllLeaves(pool, ts[..j], bound) <= AllLeaves(pool, ts, bound)
    decreases |ts|
  {
    if j == |ts| {
      assert ts[..j] == ts;
    } else {
      AllLeavesPrefix(pool, ts[..|ts| - 1], bound, j);
      assert ts[..|ts| - 1][..j] == ts[..j];
    }
  }

  lemma AllLeavesSnoc(pool: Pool, ts: seq<nat>, bound: nat, j: nat)
    requires WellFounded(pool) && bound <= |pool| && Below(ts, bound) && j < |ts|
    ensures AllLeaves(pool, ts[..j + 1], bound) == AllLeaves(pool, ts[..j], bound) + Leaves(pool, ts[j])
  {
    assert ts[..j + 1][..j] == ts[..j];
  }

  /** What a signal reader changes: the stream, the signal types, and the array of ids. */
  datatype Snap = Snap(pos: nat, st: seq<Option>, sigs: seq<nat>)

  /** `v` with `ids` written from `off` on. */
  function Store(v: seq<nat>, off: nat, ids: seq<nat>): (w: seq<nat>)
    requires off + |ids| <= |v|
    ensures |w| == |v|
  {
    v[..off] + ids + v[off + |ids|..]
  }

  /** From `s0` to `s1` the ids of `leaves` are read and stored from `off` on, with result `out`. */
  ghost predicate Reads(pool: Pool, leaves: seq<nat>, data: seq<Byte>, s0: Snap, off: nat, out: Read<()>, s1: Snap) {
    && WellFounded(pool) && Below(leaves, |pool|) && s0.pos <= |data|
    && off + |leaves| <= |s0.sigs| == |s1.sigs|
    && match ReadLeaves(pool, leaves, data, s0.pos, s0.st)
       case Ok((ids, st), p) =>
         out == Ok((), p) && s1 == Snap(p, st, Store(s0.sigs, off, ids))
       case Fail(p) => out == Fail(p) && s1.pos == p
       case Exit => out == Exit
       case Undefined => out == Undefined
  }

  lemma ReadsNothing(pool: Pool, data: seq<Byte>, s0: Snap, off: nat)
    requires WellFounded(pool) && s0.pos <= |data| && off <= |s0.sigs|
    ensures Reads(pool, [], data, s0, off, Ok((), s0.pos), s0)
  {
    assert s0.sigs == Store(s0.sigs, off, []);
  }

  lemma ReadsThen(pool: Pool, a: seq<nat>, b: seq<nat>, data: seq<Byte>, s0: Snap, off: nat, mid: Read<()>,
        s1: Snap, out: Read<()>, s2: Snap)
    requires Reads(pool, a, data, s0, off, mid, s1) && mid.Ok?
    requires Reads(pool, b, data, s1, off + |a|, out, s2)
    requires off + |a| + |b| <= |s0.sigs|
    ensures Reads(pool, a + b, data, s0, off, out, s2)
  {
    hide ReadLeaves, Store;
    ReadConcat(pool, a, b, data, s0.pos, s0.st);
    if out.Ok? {
      Splice(s0.sigs, off, ReadLeaves(pool, a, data, s0.pos, s0.st).value.0,
        ReadLeaves(pool, b, data, s1.pos, s1.st).value.0);
    }
  }

  /** Storing one list behind another stores their concatenation. */
  lemma Splice(v: seq<nat>, off: nat, x: seq<nat>, y: seq<nat>)
    requires off + |x| + |y| <= |v|
    ensures Store(Store(v, off, x), off + |x|, y) == Store(v, off, x + y)
  {
  }

  /** A failure in a prefix is the failure of the whole. */
  lemma ReadsFails(pool: Pool, a: seq<nat>, leaves: seq<nat>, data: seq<Byte>, s0: Snap, off: nat, out: Read<()>,
        s1: Snap)
    requires Reads(pool, a, data, s0, off, out, s1) && !out.Ok?
    requires a <= leaves && Below(leaves, |pool|) && off + |leaves| <= |s0.sigs|
    ensures Reads(pool, leaves, data, s0, off, out, s1)
  {
    var b := leaves[|a|..];
    assert leaves == a + b;
    hide ReadLeaves;
    ReadConcat(pool, a, b, data, s0.pos, s0.st);
  }

  lemma ReadsOne(pool: Pool, t: nat, data: seq<Byte>, s0: Snap, off: nat, out: Read<()>, s1: Snap)
    requires WellFounded(pool) && t < |pool| && s0.pos <= |data| && off < |s0.sigs| == |s1.sigs|
    requires match ReadLeaf(pool, t, data, s0.pos, s0.st)
             case Ok((id, st), p) => out == Ok((), p) && s1 == Snap(p, st, s0.sigs[off := id])
             case Fail(p) => out == Fail(p) && s1.pos == p
             case Exit => out == Exit
             case Undefined => out == Undefined
    ensures Reads(pool, [t], data, s0, off, out, s1)
  {
    hide ReadLeaf;
    ReadNone(pool, data, s0.pos, s0.st);
    assert [] + [t] == [t];
    ReadSnoc(pool, [], t, data, s0.pos, s0.st);
    if out.Ok? {
      var id := s1.sigs[off];
      assert s0.sigs[off := id] == Store(s0.sigs, off, [id]);
      assert [] + [id] == [id];
    }
  }

  lemma ArrayUnfold(pool: Pool, t: nat)
    requires Good(pool) && t < |pool| && pool[t].SubtypeArray? && Bounded(pool, t)
    ensures pool[t].el < t && Bounded(pool, pool[t].el)
    ensures Leaves(pool, t) == Repeat(Leaves(pool, pool[t].el), |IndexTuples(pool[t].rngs)|)
    ensures GetNbrElements(pool[pool[t].el]) == |Leaves(pool, pool[t].el)|
    ensures pool[t].nbrScalars == |IndexTuples(pool[t].rngs)| * |Leaves(pool, pool[t].el)|
  {
    PartsBelow(pool, t);
    assert Parts(pool[t])[0] == pool[t].el;
    CountOf(pool, t);
    CountOf(pool, pool[t].el);
  }

  lemma RecordBounded(pool: Pool, t: nat, k: nat)
    requires Good(pool) && t < |pool| && (pool[t].RecordType? || pool[t].SubtypeRecord?) && Bounded(pool, t)
    requires k < |pool[t].els|
    ensures pool[t].els[k].ty < t && Bounded(pool, pool[t].els[k].ty)
    ensures GetNbrElements(pool[pool[t].els[k].ty]) == |Leaves(pool, pool[t].els[k].ty)|
  {
    RecordUnfold(pool, t);
    assert FieldTypes(pool[t].els)[k] == pool[t].els[k].ty;
    CountOf(pool, pool[t].els[k].ty);
  }

  /** Element k starts at k * stride, and is there as long as that is below the length. */
  lemma MoreElements(i: int, k: nat, stride: nat, total: nat)
    requires i == k * stride && i < total * stride && k <= total
    ensures stride > 0 && k < total && i + stride == (k + 1) * stride
  {
    NotPast(k, stride, total);
    RepeatLength(k + 1, stride);
  }

  lemma NotPast(k: nat, stride: nat, total: nat)
    requires k <= total
    ensures k * stride < total * stride <==> stride > 0 && k < total
  {
    var d := total - k;
    assert total * stride == k * stride + d * stride;
    if stride > 0 && d > 0 { MulGrows(d, stride); }
  }

  lemma LastElement(i: int, k: nat, stride: nat, total: nat)
    requires i == k * stride && i >= total * stride && k <= total
    ensures k == total || stride == 0
  {
    NotPast(k, stride, total);
  }

  lemma RepeatNothing(unit: seq<nat>, k: nat, total: nat)
    requires unit == []
    ensures Repeat(unit, k) == Repeat(unit, total) == []
  {
    assert |Repeat(unit, k)| == k * 0 && |Repeat(unit, total)| == total * 0;
  }

  class Signals {
    /** The type of each basic signal; the length is nbr_sigs. */
    const sigTypes: array<Option>

    constructor (sigTypes: array<Option>)
      ensures this.sigTypes == sigTypes
    {
      this.sigTypes := sigTypes;
    }

    ghost function Now(s: Stream, sigs: array<nat>): Snap
      reads s, sigs, sigTypes
    {
      Snap(s.pos, sigTypes[..], sigs[..])
    }

    /** ghw_read_signal: fills sigs[off ..] with the ids of the leaves of type t. */
    method ReadSignal(s: Stream, pool: Pool, sigs: array<nat>, off: nat, t: nat) returns (out: Read<()>)
      requires s.Valid() && Good(pool) && t < |pool| && Bounded(pool, t)
      requires off + |Leaves(pool, t)| <= sigs.Length
      modifies s, sigs, sigTypes
      ensures s.Valid() && Reads(pool, Leaves(pool, t), s.data, old(Now(s, sigs)), off, out, Now(s, sigs))
      decreases t, 1
    {
      if pool[t].SubtypeArray? {
        out := ReadElements(s, pool, sigs, off, t);
      } else if pool[t].RecordType? || pool[t].SubtypeRecord? {
        out := ReadFields(s, pool, sigs, off, t);
      } else {
        out := ReadBasic(s, pool, sigs, off, t);
      }
    }

    /** A basic signal: its id must be that of a signal, whose type is set when it is first met. */
    method ReadBasic(s: Stream, pool: Pool, sigs: array<nat>, off: nat, t: nat) returns (out: Read<()>)
      requires s.Valid() && WellFounded(pool) && t < |pool| && off < sigs.Length
      modifies s, sigs, sigTypes
      ensures s.Valid() && Reads(pool, [t], s.data, old(Now(s, sigs)), off, out, Now(s, sigs))
    {
      hide Reads;
      ghost var s0 := Now(s, sigs);
      if !IsSignalType(pool[t]) {
        out := Exit;
      } else {
        var id := ReadUleb128(s);
        if !id.Ok? {
          out := if id.Fail? then Fail(s.pos) else Undefined;
        } else {
          sigs[off] := id.value;
          if id.value == 0 || id.value >= sigTypes.Length {
            out := Fail(s.pos);
          } else {
            if sigTypes[id.value].None? {
              sigTypes[id.value] := BaseType(pool, t);
            }
            out := Ok((), s.pos);
          }
        }
      }
      ReadsOne(pool, t, s.data, s0, off, out, Now(s, sigs));
    }

    /** The loop over the elements of an array.  A stride of 0 comes with a length of 0. */
    method ReadElements(s: Stream, pool: Pool, sigs: array<nat>, off: nat, t: nat) returns (out: Read<()>)
      requires s.Valid() && Good(pool) && t < |pool| && pool[t].SubtypeArray? && Bounded(pool, t)
      requires off + |Leaves(pool, t)| <= sigs.Length
      modifies s, sigs, sigTypes
      ensures s.Valid() && Reads(pool, Leaves(pool, t), s.data, old(Now(s, sigs)), off, out, Now(s, sigs))
      decreases t, 0
    {
      hide Reads, Bounded, Leaves, IndexTuples;
      var el := pool[t].el;
      ArrayUnfold(pool, t);
      LeavesBelow(pool, t);
      ghost var unit, total, s0 := Leaves(pool, el), |IndexTuples(pool[t].rngs)|, Now(s, sigs);
      var len := pool[t].nbrScalars;
      var stride := GetNbrElements(pool[el]);
      var i := 0;
      ghost var k := 0;
      out := Ok((), s.pos);
      ReadsNothing(pool, s.data, s0, off);
      while i < len
        invariant s.Valid() && 0 <= k <= total && i == k * stride && out.Ok?
        invariant Reads(pool, Repeat(unit, k), s.data, s0, off, out, Now(s, sigs))
        decreases len - i
      {
        MoreElements(i, k, stride, total);
        RepeatPrefix(unit, k + 1, total);
        ghost var mid, s1 := out, Now(s, sigs);
        out := ReadSignal(s, pool, sigs, off + i, el);
        ReadsThen(pool, Repeat(unit, k), unit, s.data, s0, off, mid, s1, out, Now(s, sigs));
        if !out.Ok? {
          ReadsFails(pool, Repeat(unit, k + 1), Leaves(pool, t), s.data, s0, off, out, Now(s, sigs));
          return;
        }
        i := i + stride;
        k := k + 1;
      }
      LastElement(i, k, stride, total);
      if stride == 0 {
        RepeatNothing(unit, k, total);
      }
    }

    /** The loop over the fields of a record. */
    method ReadFields(s: Stream, pool: Pool, sigs: array<nat>, off: nat, t: nat) returns (out: Read<()>)
      requires s.Valid() && Good(pool) && t < |pool| && (pool[t].RecordType? || pool[t].SubtypeRecord?)
      requires Bounded(pool, t)
      requires off + |Leaves(pool, t)| <= sigs.Length
      modifies s, sigs, sigTypes
      ensures s.Valid() && Reads(pool, Leaves(pool, t), s.data, old(Now(s, sigs)), off, out, Now(s, sigs))
      decreases t, 0
    {
      hide Reads, Bounded, Leaves, Counted;
      var els := pool[t].els;
      ghost var ts, s0 := FieldTypes(els), Now(s, sigs);
      assert WellFounded(pool) && AllLeaves(pool, ts[..0], t) == [];
      hide AllLeaves, Good, WellFounded;
      RecordUnfold(pool, t);
      LeavesBelow(pool, t);
      var at := 0;
      out := Ok((), s.pos);
      ReadsNothing(pool, s.data, s0, off);
      for i := 0 to |els|
        invariant s.Valid() && out.Ok? && at == |AllLeaves(pool, ts[..i], t)|
        invariant Reads(pool, AllLeaves(pool, ts[..i], t), s.data, s0, off, out, Now(s, sigs))
      {
        var ty := els[i].ty;
        RecordBounded(pool, t, i);
        AllLeavesPrefix(pool, ts, t, i + 1);
        AllLeavesSnoc(pool, ts, t, i);
        ghost var mid, s1 := out, Now(s, sigs);
        out := ReadSignal(s, pool, sigs, off + at, ty);
        ReadsThen(pool, AllLeaves(pool, ts[..i], t), Leaves(pool, ty), s.data, s0, off, mid, s1, out, Now(s, sigs));
        if !out.Ok? {
          ReadsFails(pool, AllLeaves(pool, ts[..i + 1], t), Leaves(pool, t), s.data, s0, off, out, Now(s, sigs));
          return;
        }
        at := at + GetNbrElements(pool[ty]);
      }
      assert ts[..|els|] == ts;
    }
  }
}
