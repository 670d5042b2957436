/** Reading the hierarchy section of a GHW file (ghw_read_hie): names, iterators, and for each
    signal the ids of its basic signals. */
module GhwHieReader {
  import opened Vectors
  import opened GhwStream
  import opened GhwTypes
  import opened GhwTypeReader
  import opened GhwValues
  import opened GhwSignals
  import opened GhwCache
  import opened GhwHierarchy

  /** What the earlier sections have left: the number of strings, and the types. */
  datatype Tables = Tables(nbrStr: nat, pool: Pool, types: seq<nat>)

  ghost predicate Usable(tb: Tables) {
    ValidTable(tb.pool, tb.types)
  }

  // ---- One element ------------------------------------------------------

  /** The iterator of a generate loop: a type, and a value of its base type. */
  function LoopAt(tb: Tables, data: seq<Byte>, pos: nat, name: nat): (out: Read<Info>)
    requires WellFounded(tb.pool) && (forall t :: t in tb.types ==> t < |tb.pool|) && pos <= |data|
    ensures out.Ok? ==> pos <= out.pos <= |data|
  {
    var t :- TypeIdAt(data, pos, tb.types);
    var base := BaseType(tb.pool, t.v);
    if base.None? then Exit
    else
      var v :- ValueAt(data, t.pos, Tag(tb.pool[base.value]));
      Ok(LoopInfo(name, t.v, v.v), v.pos)
  }

  /** A signal: its type, which must have all its bounds, and one id for each leaf. */
  ghost function SignalAt(tb: Tables, data: seq<Byte>, pos: nat, name: nat,
        st: seq<Option>): (out: Read<(Info, seq<Option>)>)
    requires Usable(tb) && pos <= |data|
    ensures out.Ok? ==> pos <= out.pos <= |data| && |out.value.1| == |st|
  {
    var t :- TypeIdAt(data, pos, tb.types);
    CountOf(tb.pool, t.v);
    if GetNbrElements(tb.pool[t.v]) < 0 then Fail(t.pos)
    else
      LeavesBelow(tb.pool, t.v);
      var r :- ReadLeaves(tb.pool, Leaves(tb.pool, t.v), data, t.pos, st);
      Ok((SignalInfo(name, t.v, r.v.0 + [0]), r.v.1), r.pos)
  }

  /** What follows the kind byte. */
  ghost function InfoAt(tb: Tables, data: seq<Byte>, pos: nat, kind: nat,
        st: seq<Option>): (out: Read<(Info, seq<Option>)>)
    requires Usable(tb) && pos <= |data|
    ensures out.Ok? ==> pos <= out.pos <= |data| && |out.value.1| == |st|
  {
    var name :- Uleb(data, pos);
    if name.v >= tb.nbrStr then Exit
    else if kind == 5 then
      var r :- LoopAt(tb, data, name.pos, name.v);
      Ok((r.v, st), r.pos)
    else if kind in {3, 4, 6, 7, 13, 14} then Ok((ScopeInfo(name.v), st), name.pos)
    else if 16 <= kind <= 21 then SignalAt(tb, data, name.pos, name.v, st)
    else Exit
  }

  // ---- The section ------------------------------------------------------

  /** Reading on, after `items`, inside a scope of depth `cd`: 0 ends the hierarchy, 15 ends a scope, and
      what follows an element of kind 3 to 7 or 14 is inside it. */
  ghost function ScanAt(tb: Tables, data: seq<Byte>, pos: nat, st: seq<Option>, items: seq<Item>,
        cd: nat): (out: Read<(seq<Item>, seq<Option>)>)
    requires Usable(tb) && pos <= |data|
    ensures out.Ok? ==> pos < out.pos <= |data| && |out.value.1| == |st| && data[out.pos - 1] == 0
    decreases |data| - pos
  {
    hide InfoAt;
    if pos == |data| then Fail(pos)
    else if data[pos] == 0 then Ok((items, st), pos + 1)
    else if data[pos] == 15 then if cd == 0 then Exit else ScanAt(tb, data, pos + 1, st, items, cd - 1)
    else
      var r :- InfoAt(tb, data, pos + 1, data[pos], st);
      ScanAt(tb, data, r.pos, r.v.1, items + [Item(data[pos], r.v.0, cd + 1)],
             if data[pos] in {3, 4, 5, 6, 7, 14} then cd + 1 else cd)
  }

  lemma ScanStep(tb: Tables, data: seq<Byte>, pos: nat, st: seq<Option>, items: seq<Item>, cd: nat)
    requires Usable(tb) && pos < |data| && data[pos] != EOH && data[pos] != EOS
    ensures ScanAt(tb, data, pos, st, items, cd) ==
            match InfoAt(tb, data, pos + 1, data[pos], st)
            case Ok((info, st'), p) =>
              ScanAt(tb, data, p, st', items + [Item(data[pos], info, cd + 1)], if Opens(data[pos]) then cd + 1 else cd)
            case Fail(p) => Fail(p)
            case Exit => Exit
            case Undefined => Undefined
  {
    hide InfoAt;
  }

  lemma ScanMark(tb: Tables, data: seq<Byte>, pos: nat, st: seq<Option>, items: seq<Item>, cd: nat)
    requires Usable(tb) && pos <= |data|
    ensures pos == |data| ==> ScanAt(tb, data, pos, st, items, cd) == Fail(pos)
    ensures pos < |data| && data[pos] == EOH ==> ScanAt(tb, data, pos, st, items, cd) == Ok((items, st), pos + 1)
    ensures pos < |data| && data[pos] == EOS ==>
              ScanAt(tb, data, pos, st, items, cd) ==
                (if cd == 0 then Exit else ScanAt(tb, data, pos + 1, st, items, cd - 1))
  {
    hide InfoAt;
  }

  function NoTypes(n: nat): (st: seq<Option>)
    ensures |st| == n && forall i :: 0 <= i < n ==> st[i] == None
  {
    seq(n, i => None)
  }

  /** The header, of which only the number of basic signals is used, and the elements; there is no
      signal 0, so the table of signals has one entry more. */
  ghost function HieAt(tb: Tables, data: seq<Byte>, pos: nat, be: bool): (out: Read<(seq<Item>, seq<Option>)>)
    requires Usable(tb) && pos <= |data|
    ensures out.Ok? ==> At(data, pos, [0, 0, 0, 0]) && pos + 17 <= out.pos <= |data| && data[out.pos - 1] == 0
  {
    if pos + 16 > |data| then Fail(|data|)
    else
      var hdr := data[pos..pos + 16];
      HeaderStart(data, pos, 16);
      if hdr[..4] != [0, 0, 0, 0] then Fail(pos + 16)
      else if GetI32(hdr[12..], be) < 0 then Exit
      else ScanAt(tb, data, pos + 16, NoTypes(GetI32(hdr[12..], be) + 1), [ROOT], 0)
  }

  // ---- What every hierarchy that is read satisfies ------------------------

  /** The kind of the values of a type, 0 for those that have none. */
  function ScalarKind(pool: Pool, t: nat): nat
    requires WellFounded(pool) && t < |pool|
  {
    match pool[BaseOf(pool, t)]
    case Enum(k, _, _) => k
    case Scalar(k, _) => k
    case Physical(k, _, _) => k
    case _ => 0
  }

  /** The base type of the first of these leaves that has id i. */
  function FirstOf(pool: Pool, leaves: seq<nat>, ids: seq<nat>, i: nat): Option
    requires WellFounded(pool) && Below(leaves, |pool|) && |ids| == |leaves|
    decreases |leaves|
  {
    if leaves == [] then None
    else
      var n := |leaves| - 1;
      var first := FirstOf(pool, leaves[..n], ids[..n], i);
      if first.Some? then first else if ids[n] == i then Some(BaseOf(pool, leaves[n])) else None
  }

  /** One id of a basic signal for each leaf, ended by 0. */
  ghost predicate SignalOk(tb: Tables, n: nat, ty: nat, sigs: seq<nat>)
    requires Usable(tb)
  {
    && ty in tb.types && Bounded(tb.pool, ty)
    && var leaves := Leaves(tb.pool, ty);
       && |sigs| == |leaves| + 1 && sigs[|leaves|] == 0
       && forall k :: 0 <= k < |leaves| ==>
            && 0 < sigs[k] < n && leaves[k] < |tb.pool|
            && (tb.pool[leaves[k]].Enum? || tb.pool[leaves[k]].SubtypeScalar?)
  }

  /** What an element of this kind holds, with n entries in the table of basic signals: kind 5 is a
      loop, 16 to 21 are signals, and 13 is a process, which has a name only, as other scopes have. */
  ghost predicate InfoOk(tb: Tables, n: nat, kind: nat, info: Info)
    requires Usable(tb)
  {
    match info
    case NoInfo => false
    case ScopeInfo(name) => name < tb.nbrStr && kind in {3, 4, 6, 7, 13, 14}
    case LoopInfo(name, ty, _) =>
      && name < tb.nbrStr && kind == 5
      && ty in tb.types && ScalarKind(tb.pool, ty) in {22, 23, 25, 26, 27, 28, 29}
    case SignalInfo(name, ty, sigs) => name < tb.nbrStr && 16 <= kind <= 21 && SignalOk(tb, n, ty, sigs)
  }

  /** The type that an element gives to basic signal i. */
  ghost function TypeFrom(tb: Tables, info: Info, i: nat): Option
    requires Usable(tb)
  {
    if info.SignalInfo? && info.ty < |tb.pool| && |info.sigs| == |Leaves(tb.pool, info.ty)| + 1 then
      LeavesBelow(tb.pool, info.ty);
      FirstOf(tb.pool, Leaves(tb.pool, info.ty), info.sigs[..|info.sigs| - 1], i)
    else None
  }

  /** The type that the first element to name basic signal i gives to it. */
  ghost function FirstType(tb: Tables, its: seq<Item>, i: nat): Option
    requires Usable(tb)
    decreases |its|
  {
    if its == [] then None
    else
      var n := |its| - 1;
      var first := FirstType(tb, its[..n], i);
      if first.Some? then first else TypeFrom(tb, its[n].info, i)
  }

  ghost predicate ItemsOk(tb: Tables, n: nat, its: seq<Item>)
    requires Usable(tb)
  {
    forall k :: 0 < k < |its| ==> InfoOk(tb, n, its[k].kind, its[k].info)
  }

  ghost predicate Typed(tb: Tables, its: seq<Item>, st: seq<Option>)
    requires Usable(tb)
  {
    forall i :: 0 <= i < |st| ==> st[i] == FirstType(tb, its, i)
  }

  /** Ids of basic signals that take `st` to `st'`. */
  ghost predicate Gives(pool: Pool, leaves: seq<nat>, ids: seq<nat>, st: seq<Option>, st': seq<Option>)
    requires WellFounded(pool) && Below(leaves, |pool|)
  {
    && |ids| == |leaves| && |st'| == |st|
    && (forall k :: 0 <= k < |leaves| ==>
          0 < ids[k] < |st| && (pool[leaves[k]].Enum? || pool[leaves[k]].SubtypeScalar?))
    && forall i :: 0 <= i < |st| ==> st'[i] == if st[i].Some? then st[i] else FirstOf(pool, leaves, ids, i)
  }

  lemma GivesSnoc(pool: Pool, leaves: seq<nat>, ids: seq<nat>, st: seq<Option>, st': seq<Option>, t: nat, id: nat)
    requires WellFounded(pool) && Below(leaves, |pool|) && t < |pool| && Gives(pool, leaves, ids, st, st')
    requires 0 < id < |st| && IsSignalType(pool[t])
    ensures Below(leaves + [t], |pool|)
    ensures Gives(pool, leaves + [t], ids + [id], st, if st'[id].None? then st'[id := BaseType(pool, t)] else st')
  {
    assert (leaves + [t])[..|leaves|] == leaves && (ids + [id])[..|ids|] == ids;
  }

  lemma {:induction false} LeavesTyped(pool: Pool, leaves: seq<nat>, data: seq<Byte>, pos: nat, st: seq<Option>)
    requires WellFounded(pool) && Below(leaves, |pool|) && pos <= |data|
    requires ReadLeaves(pool, leaves, data, pos, st).Ok?
    ensures var (ids, st') := ReadLeaves(pool, leaves, data, pos, st).value;
            Gives(pool, leaves, ids, st, st')
    decreases |leaves|
  {
    if leaves == [] {
      ReadNone(pool, data, pos, st);
    } else {
      hide ReadLeaves, Gives, BaseType, Uleb, WellFounded;
      var before, t := leaves[..|leaves| - 1], leaves[|leaves| - 1];
      assert leaves == before + [t];
      ReadSnoc(pool, before, t, data, pos, st);
      LeavesTyped(pool, before, data, pos, st);
      var r := ReadLeaves(pool, before, data, pos, st);
      GivesSnoc(pool, before, r.value.0, st, r.value.1, t, ReadLeaf(pool, t, data, r.pos, r.value.1).value.0);
    }
  }

  lemma LoopTyped(tb: Tables, data: seq<Byte>, pos: nat, name: nat)
    requires Usable(tb) && pos <= |data| && LoopAt(tb, data, pos, name).Ok?
    ensures var info := LoopAt(tb, data, pos, name).value;
            && info.LoopInfo? && info.name == name && info.ty in tb.types
            && ScalarKind(tb.pool, info.ty) in {22, 23, 25, 26, 27, 28, 29}
  {
    hide Uleb, Good;
    TableWellFounded(tb.pool, tb.types);
  }

  lemma InfoTyped(tb: Tables, data: seq<Byte>, pos: nat, kind: nat, st: seq<Option>)
    requires Usable(tb) && pos <= |data| && InfoAt(tb, data, pos, kind, st).Ok?
    ensures var (info, st') := InfoAt(tb, data, pos, kind, st).value;
            && InfoOk(tb, |st|, kind, info)
            && forall i :: 0 <= i < |st| ==> st'[i] == if st[i].Some? then st[i] else TypeFrom(tb, info, i)
  {
    hide FirstOf, ReadLeaves, Bounded, Leaves, Uleb, Tag;
    if 16 <= kind <= 21 {
      var p := Uleb(data, pos).pos;
      var t := TypeIdAt(data, p, tb.types);
      CountOf(tb.pool, t.value);
      LeavesBelow(tb.pool, t.value);
      var leaves := Leaves(tb.pool, t.value);
      LeavesTyped(tb.pool, leaves, data, t.pos, st);
      var ids := ReadLeaves(tb.pool, leaves, data, t.pos, st).value.0;
      assert (ids + [0])[..|ids|] == ids;
    } else if kind == 5 {
      LoopTyped(tb, data, Uleb(data, pos).pos, Uleb(data, pos).value);
    }
  }

  lemma OneMoreTyped(tb: Tables, its: seq<Item>, st: seq<Option>, x: Item, st': seq<Option>)
    requires Usable(tb) && ItemsOk(tb, |st|, its) && Typed(tb, its, st) && InfoOk(tb, |st|, x.kind, x.info)
    requires |st'| == |st|
    requires forall i :: 0 <= i < |st| ==> st'[i] == if st[i].Some? then st[i] else TypeFrom(tb, x.info, i)
    ensures ItemsOk(tb, |st|, its + [x]) && Typed(tb, its + [x], st')
  {
    hide InfoOk, TypeFrom;
    assert (its + [x])[..|its|] == its;
  }

  lemma {:induction false} ScanTyped(tb: Tables, data: seq<Byte>, pos: nat, st: seq<Option>, items: seq<Item>, cd: nat)
    requires Usable(tb) && pos <= |data| && ItemsOk(tb, |st|, items) && Typed(tb, items, st)
    requires ScanAt(tb, data, pos, st, items, cd).Ok?
    ensures var (its, st') := ScanAt(tb, data, pos, st, items, cd).value;
            ItemsOk(tb, |st|, its) && Typed(tb, its, st')
    decreases |data| - pos
  {
    hide ScanAt, InfoAt, ItemsOk, Typed, InfoOk, TypeFrom;
    ScanMark(tb, data, pos, st, items, cd);
    if data[pos] == EOS {
      ScanTyped(tb, data, pos + 1, st, items, cd - 1);
    } else if data[pos] != EOH {
      var t := data[pos];
      ScanStep(tb, data, pos, st, items, cd);
      InfoTyped(tb, data, pos + 1, t, st);
      var r := InfoAt(tb, data, pos + 1, t, st);
      var x := Item(t, r.value.0, cd + 1);
      OneMoreTyped(tb, items, st, x, r.value.1);
      ScanTyped(tb, data, r.pos, r.value.1, items + [x], if Opens(t) then cd + 1 else cd);
    }
  }

  /** Whatever the bytes are: in a hierarchy that was read every element holds what its kind demands,
      each signal names one basic signal for each leaf of its type, and a basic signal has the base
      type of the first leaf that names it, or no type if none does. */
  lemma HieTyped(tb: Tables, data: seq<Byte>, pos: nat, be: bool)
    requires Usable(tb) && pos <= |data| && HieAt(tb, data, pos, be).Ok?
    ensures var (its, st) := HieAt(tb, data, pos, be).value;
            ItemsOk(tb, |st|, its) && Typed(tb, its, st)
  {
    hide GetI32;
    var n := GetI32(data[pos..pos + 16][12..], be) + 1;
    assert [ROOT][..0] == [];
    forall i | 0 <= i < n ensures FirstType(tb, [ROOT], i) == None {
      assert FirstType(tb, [], i) == None;
    }
    ScanTyped(tb, data, pos + 16, NoTypes(n), [ROOT], 0);
  }

  // ---- The reader -------------------------------------------------------

  ghost function TablesOf(tt: TypeTable): Tables
    reads tt
  {
    Tables(tt.nbrStr, tt.pool, tt.types)
  }

  /** A reader that returned an element and set types of signals as `r` says. */
  ghost predicate Noted(s: Stream, sg: Signals, out: Read<Info>, r: Read<(Info, seq<Option>)>)
    reads s, sg.sigTypes
  {
    s.Valid() && match r
    case Ok((info, st), p) => out == Ok(info, p) && s.pos == p && sg.sigTypes[..] == st
    case Fail(p) => out == Fail(p) && s.pos == p
    case Exit => out == Exit
    case Undefined => out == Undefined
  }

  method ReadLoop(s: Stream, tt: TypeTable, name: nat) returns (out: Read<Info>)
    requires s.Valid() && tt.Valid()
    modifies s
    ensures Left(s, out, LoopAt(TablesOf(tt), s.data, old(s.pos), name))
  {
    var id := tt.ReadTypeId(s);
    var t :- id;
    var base := BaseType(tt.pool, t.v);
    if base.None? {
      return Exit;
    }
    var value := ReadValue(s, Tag(tt.pool[base.value]));
    var v :- value;
    out := Ok(LoopInfo(name, t.v, v.v), v.pos);
  }

  /** Ids written over all but the last of n + 1 zeros. */
  lemma Ended(n: nat)
    ensures forall v: seq<nat>, ids: seq<nat> ::
              |v| == n + 1 && v[n] == 0 && |ids| == n ==> Store(v, 0, ids) == ids + [0]
  {
    forall v: seq<nat>, ids: seq<nat> | |v| == n + 1 && v[n] == 0 && |ids| == n ensures Store(v, 0, ids) == ids + [0] {
      assert v[n..] == [0];
    }
  }

  method ReadDeclaredSignal(s: Stream, tt: TypeTable, sg: Signals, name: nat) returns (out: Read<Info>)
    requires s.Valid() && tt.Valid()
    modifies s, sg.sigTypes
    ensures Noted(s, sg, out, SignalAt(TablesOf(tt), s.data, old(s.pos), name, old(sg.sigTypes[..])))
  {
    hide ReadLeaves, Leaves, Bounded, Good, Uleb;
    var id := tt.ReadTypeId(s);
    var t :- id;
    TableWellFounded(tt.pool, tt.types);
    CountOf(tt.pool, t.v);
    var n := GetNbrElements(tt.pool[t.v]);
    if n < 0 {
      return Fail(s.pos);
    }
    LeavesBelow(tt.pool, t.v);
    var sigs := new nat[n + 1](_ => 0);
    var done := sg.ReadSignal(s, tt.pool, sigs, 0, t.v);
    var d :- done;
    Ended(n);
    out := Ok(SignalInfo(name, t.v, sigs[..]), d.pos);
  }

  method ReadInfo(s: Stream, tt: TypeTable, sg: Signals, kind: nat) returns (out: Read<Info>)
    requires s.Valid() && tt.Valid()
    modifies s, sg.sigTypes
    ensures Noted(s, sg, out, InfoAt(TablesOf(tt), s.data, old(s.pos), kind, old(sg.sigTypes[..])))
  {
    hide SignalAt, LoopAt, Uleb, Good;
    var name := ReadUleb128(s);
    var n :- name;
    if n.v >= tt.nbrStr {
      out := Exit;
    } else if kind == GENERATE_FOR {
      out := ReadLoop(s, tt, n.v);
    } else if Opens(kind) || kind == PROCESS {
      out := Ok(ScopeInfo(n.v), n.pos);
    } else if IsSignal(kind) {
      out := ReadDeclaredSignal(s, tt, sg, n.v);
    } else {
      out := Exit;
    }
  }

  /** What the reader of the elements leaves behind, as `r` says; the nodes built so far are linked
      however it ends. */
  ghost predicate Built(s: Stream, sg: Signals, out: Read<()>, its: seq<Item>, r: Read<(seq<Item>, seq<Option>)>)
    reads s, sg.sigTypes
  {
    s.Valid() && match r
    case Ok((items, st), p) => out == Ok((), p) && its == items && s.pos == p && sg.sigTypes[..] == st
    case Fail(p) => out == Fail(p) && s.pos == p
    case Exit => out == Exit
    case Undefined => out == Undefined
  }

  /** The loop over the elements. */
  method ReadElements(s: Stream, tt: TypeTable, sg: Signals)
    returns (out: Read<()>, root: Hie, ghost nodes: seq<Hie>, ghost its: seq<Item>)
    requires s.Valid() && tt.Valid()
    modifies s, sg.sigTypes
    ensures Built(s, sg, out, its, ScanAt(TablesOf(tt), s.data, old(s.pos), old(sg.sigTypes[..]), [ROOT], 0))
    ensures Linked(nodes, its) && root == nodes[0] && fresh(nodes)
  {
    hide ParentOf, ChildOf, BrotherOf, FirstUp, LastAbove, Current, TailSlot, InfoAt, ScanAt, Good;
    ghost var tb, data := TablesOf(tt), s.data;
    ghost var all := ScanAt(tb, data, s.pos, sg.sigTypes[..], [ROOT], 0);
    root := new Hie(DESIGN, NoInfo, null);
    nodes, its := [root], [ROOT];
    var blk, last, isChild := root, root, true;
    ghost var cur: nat, cd: nat, at: nat := 0, 0, 0;
    Alone(nodes);
    while true
      invariant s.Valid() && Usable(tb) && tb == TablesOf(tt)
      invariant Linked(nodes, its) && fresh(nodes) && root == nodes[0]
      invariant Current(its, cur, cd) && cur < |nodes| && blk == nodes[cur]
      invariant TailSlot(its, cur, cd, at, isChild) && at < |nodes| && last == nodes[at]
      invariant ScanAt(tb, data, s.pos, sg.sigTypes[..], its, cd) == all
      decreases |data| - s.pos
    {
      ghost var pos, st := s.pos, sg.sigTypes[..];
      ScanMark(tb, data, pos, st, its, cd);
      var t := s.GetC();
      if t == -1 {
        return Fail(s.pos), root, nodes, its;
      }
      if t == EOH {
        return Ok((), s.pos), root, nodes, its;
      }
      if t == EOS {
        CurrentDepth(its, cur, cd);
        assert LinkedAt(nodes, its, cur);
        if blk.parent == null {
          return Exit, root, nodes, its;
        }
        Outer(its, cur, cd);
        blk := blk.parent;
        cur, cd := ParentOf(its, cur), cd - 1;
        last, at := LastOf(nodes, its, blk, cur, cd);
        isChild := false;
      } else {
        ScanStep(tb, data, pos, st, its, cd);
        var r := ReadInfo(s, tt, sg, t);
        if !r.Ok? {
          return r.PropagateFailure(), root, nodes, its;
        }
        ghost var n := |its|;
        AppendScopes(its, Item(t, r.value, cd + 1), cur, cd);
        var el;
        el, nodes, its := Attach(nodes, its, blk, cur, cd, last, isChild, at, t, r.value);
        last, at, isChild := el, n, Opens(t);
        if Opens(t) {
          blk, cur, cd := el, n, cd + 1;
        }
      }
    }
  }

  /** ghw_read_hie; `noNull` says whether all basic signals have a type. */
  method ReadHie(s: Stream, tt: TypeTable, be: bool)
    returns (out: Read<Signals>, root: Hie?, noNull: bool, ghost nodes: seq<Hie>, ghost its: seq<Item>)
    requires s.Valid() && tt.Valid()
    modifies s
    ensures s.Valid() && match HieAt(TablesOf(tt), s.data, old(s.pos), be)
            case Ok((items, st), p) =>
              && out.Ok? && out.pos == s.pos == p && its == items && out.value.sigTypes[..] == st
              && (noNull <==> NoNulls(st))
            case Fail(p) => out == Fail(p) && s.pos == p
            case Exit => out == Exit
            case Undefined => out == Undefined
    ensures out.Ok? ==> root != null
    ensures root != null ==> Linked(nodes, its) && root == nodes[0] && fresh(nodes)
  {
    hide ScanAt, Linked, Good, GetI32;
    root, noNull, nodes, its := null, false, [], [];
    var ok, hdr := s.FRead(16);
    if !ok || hdr[..4] != [0, 0, 0, 0] {
      return Fail(s.pos), root, noNull, nodes, its;
    }
    var n := GetI32(hdr[12..], be);
    if n < 0 {
      return Exit, root, noNull, nodes, its;
    }
    var sigTypes := new Option[n + 1](_ => None);
    assert sigTypes[..] == NoTypes(n + 1);
    var sg := new Signals(sigTypes);
    var r;
    r, root, nodes, its := ReadElements(s, tt, sg);
    var e :- r;
    noNull := HasNoNulls(sigTypes[..]);
    out := Ok(sg, e.pos);
  }
}
