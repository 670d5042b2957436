/** The format of the hierarchy section, and its round trip: from the encoding of any forest of
    scopes and signals the reader builds nodes that are walked through exactly that forest. */
module GhwHieFormat {
  import opened Sequences
  import opened Vectors
  import opened GhwStream
  import opened GhwTypes
  import opened GhwTypeReader
  import opened GhwTypeFormat
  import opened GhwValues
  import opened GhwSignals
  import opened GhwHierarchy
  import opened GhwHieReader

  /** A scope with what it contains, or an element that contains nothing. */
  datatype Tree = Leaf(kind: Byte, info: Info) | Scope(kind: Byte, info: Info, children: seq<Tree>)

  /** The id under which a type is entered. */
  function IdOf(types: seq<nat>, t: nat): (id: nat)
    ensures t in types ==> 1 <= id <= |types| && types[id - 1] == t
  {
    if types == [] then 0 else if types[0] == t then 1 else 1 + IdOf(types[1..], t)
  }

  predicate TypeEntered(tb: Tables, ty: nat) {
    ty in tb.types && TypeId(IdOf(tb.types, ty), |tb.types|)
  }

  /** What can be written: ids fit in 32 bits and a value is one of its type. */
  ghost predicate ValidInfo(tb: Tables, n: nat, kind: nat, info: Info)
    requires Usable(tb)
  {
    && InfoOk(tb, n, kind, info)
    && match info
       case NoInfo => false
       case ScopeInfo(name) => StrId(name, tb.nbrStr)
       case LoopInfo(name, ty, v) =>
         StrId(name, tb.nbrStr) && TypeEntered(tb, ty) && ValueFits(ScalarKind(tb.pool, ty), v)
       case SignalInfo(name, ty, sigs) => StrId(name, tb.nbrStr) && TypeEntered(tb, ty)
  }

  /** Scopes are of kinds 3 to 7 and 14, and everything else is a process, 13, or a signal. */
  ghost predicate ValidForest(tb: Tables, n: nat, f: seq<Tree>)
    requires Usable(tb)
    decreases f
  {
    f != [] ==>
      && ValidInfo(tb, n, f[0].kind, f[0].info)
      && (match f[0]
          case Leaf(kind, _) => kind == 13 || 16 <= kind <= 21
          case Scope(kind, _, children) => kind in {3, 4, 5, 6, 7, 14} && ValidForest(tb, n, children))
      && ValidForest(tb, n, f[1..])
  }

  function EncodeInfo(types: seq<nat>, info: Info): seq<Byte> {
    match info
    case NoInfo => []
    case ScopeInfo(name) => EncodeU(name)
    case LoopInfo(name, ty, v) => EncodeU(name) + (EncodeU(IdOf(types, ty)) + EncodeValue(v))
    case SignalInfo(name, ty, sigs) =>
      EncodeU(name) + (EncodeU(IdOf(types, ty)) + EncodeNats(if sigs == [] then [] else sigs[..|sigs| - 1]))
  }

  /** A scope is ended by 15. */
  function EncodeForest(types: seq<nat>, f: seq<Tree>): seq<Byte>
    decreases f
  {
    if f == [] then [] else EncodeTree(types, f[0]) + EncodeForest(types, f[1..])
  }

  function EncodeTree(types: seq<nat>, t: Tree): seq<Byte>
    decreases t
  {
    [t.kind] + EncodeInfo(types, t.info) + if t.Scope? then EncodeForest(types, t.children) + [15] else []
  }

  /** Two counts, which are not used, and the number of basic signals come first. */
  function EncodeHie(types: seq<nat>, f: seq<Tree>, counts: seq<Byte>, n: nat, be: bool): seq<Byte>
    requires n < 0x8000_0000
  {
    [0, 0, 0, 0] + counts + EncodeI32(n, be) + (EncodeForest(types, f) + [0])
  }

  /** The elements of a forest at depth d, in preorder. */
  function Items(f: seq<Tree>, d: nat): seq<Item>
    decreases f
  {
    if f == [] then [] else [Item(f[0].kind, f[0].info, d)] + Inside(f[0], d) + Items(f[1..], d)
  }

  function Inside(t: Tree, d: nat): seq<Item>
    decreases t
  {
    if t.Scope? then Items(t.children, d + 1) else []
  }

  // ---- Reading an element -----------------------------------------------

  /** Ids of leaves are read back, whatever types the basic signals have. */
  lemma {:induction false} LeavesAre(pool: Pool, leaves: seq<nat>, data: seq<Byte>, pos: nat, st: seq<Option>,
        ids: seq<nat>)
    requires WellFounded(pool) && Below(leaves, |pool|) && |ids| == |leaves| && |st| <= 0x1_0000_0000
    requires forall k :: 0 <= k < |leaves| ==>
               (pool[leaves[k]].Enum? || pool[leaves[k]].SubtypeScalar?) && 0 < ids[k] < |st|
    requires At(data, pos, EncodeNats(ids))
    ensures var r := ReadLeaves(pool, leaves, data, pos, st);
            r.Ok? && r.value.0 == ids && r.pos == pos + |EncodeNats(ids)|
    decreases |leaves|
  {
    hide EncodeU, Uleb, ReadLeaves;
    if leaves == [] {
      ReadNone(pool, data, pos, st);
    } else {
      AtSplit(data, pos, EncodeU(ids[0]), EncodeNats(ids[1..]));
      UlebIs(data, pos, ids[0]);
      var t, rest := leaves[0], leaves[1..];
      assert leaves == [t] + rest && [t] == [] + [t];
      ReadNone(pool, data, pos, st);
      ReadSnoc(pool, [], t, data, pos, st);
      ReadConcat(pool, [t], rest, data, pos, st);
      var one := ReadLeaf(pool, t, data, pos, st);
      LeavesAre(pool, rest, data, one.pos, one.value.1, ids[1..]);
      assert [] + [ids[0]] == [ids[0]] && [ids[0]] + ids[1..] == ids;
    }
  }

  lemma TypeIs(tb: Tables, data: seq<Byte>, pos: nat, ty: nat)
    requires TypeEntered(tb, ty) && At(data, pos, EncodeU(IdOf(tb.types, ty)))
    ensures TypeIdAt(data, pos, tb.types) == Ok(ty, pos + |EncodeU(IdOf(tb.types, ty))|)
  {
    hide IdOf;
    TypeIdIs(data, pos, IdOf(tb.types, ty), tb.types);
  }

  lemma SignalIs(tb: Tables, data: seq<Byte>, pos: nat, st: seq<Option>, name: nat, ty: nat, sigs: seq<nat>)
    requires Usable(tb) && SignalOk(tb, |st|, ty, sigs) && TypeEntered(tb, ty) && |st| <= 0x1_0000_0000
    requires At(data, pos, EncodeU(IdOf(tb.types, ty)) + EncodeNats(sigs[..|sigs| - 1]))
    ensures var r, len := SignalAt(tb, data, pos, name, st),
            |EncodeU(IdOf(tb.types, ty)) + EncodeNats(sigs[..|sigs| - 1])|;
            r.Ok? && r.value.0 == SignalInfo(name, ty, sigs) && r.pos == pos + len
  {
    hide EncodeU, EncodeNats, IdOf, ReadLeaves, Leaves, Bounded, TypeEntered;
    var id, ids := EncodeU(IdOf(tb.types, ty)), sigs[..|sigs| - 1];
    AtSplit(data, pos, id, EncodeNats(ids));
    TypeIs(tb, data, pos, ty);
    CountOf(tb.pool, ty);
    LeavesBelow(tb.pool, ty);
    LeavesAre(tb.pool, Leaves(tb.pool, ty), data, pos + |id|, st, ids);
    assert ids + [0] == sigs;
  }

  lemma LoopIs(tb: Tables, data: seq<Byte>, pos: nat, name: nat, ty: nat, v: Value)
    requires Usable(tb) && TypeEntered(tb, ty) && ValueFits(ScalarKind(tb.pool, ty), v)
    requires At(data, pos, EncodeU(IdOf(tb.types, ty)) + EncodeValue(v))
    ensures LoopAt(tb, data, pos, name) ==
            Ok(LoopInfo(name, ty, v), pos + |EncodeU(IdOf(tb.types, ty)) + EncodeValue(v)|)
  {
    hide EncodeU, IdOf, EncodeValue, ValueAt;
    var id := EncodeU(IdOf(tb.types, ty));
    AtSplit(data, pos, id, EncodeValue(v));
    TypeIs(tb, data, pos, ty);
    ValueIs(data, pos + |id|, ScalarKind(tb.pool, ty), v);
  }

  /** Reading on after a name that is known. */
  lemma InfoUnfold(tb: Tables, data: seq<Byte>, pos: nat, kind: nat, st: seq<Option>, name: nat, rest: seq<Byte>)
    returns (p: nat)
    requires Usable(tb) && StrId(name, tb.nbrStr) && At(data, pos, EncodeU(name) + rest)
    ensures p == pos + |EncodeU(name)| && At(data, p, rest)
    ensures kind in {3, 4, 6, 7, 13, 14} ==> InfoAt(tb, data, pos, kind, st) == Ok((ScopeInfo(name), st), p)
    ensures kind == 5 && LoopAt(tb, data, p, name).Ok? ==>
              var r := LoopAt(tb, data, p, name); InfoAt(tb, data, pos, kind, st) == Ok((r.value, st), r.pos)
    ensures 16 <= kind <= 21 ==> InfoAt(tb, data, pos, kind, st) == SignalAt(tb, data, p, name, st)
  {
    hide EncodeU, Uleb, Good, LoopAt, SignalAt;
    AtSplit(data, pos, EncodeU(name), rest);
    UlebIs(data, pos, name);
    p := pos + |EncodeU(name)|;
  }

  /** What follows the kind byte is read back. */
  lemma InfoIs(tb: Tables, data: seq<Byte>, pos: nat, kind: nat, st: seq<Option>, info: Info)
    requires Usable(tb) && ValidInfo(tb, |st|, kind, info) && |st| <= 0x1_0000_0000
    requires At(data, pos, EncodeInfo(tb.types, info))
    ensures var r := InfoAt(tb, data, pos, kind, st);
            r.Ok? && r.value.0 == info && r.pos == pos + |EncodeInfo(tb.types, info)|
  {
    hide EncodeU, IdOf, EncodeValue, EncodeNats, ValueFits, InfoAt, SignalAt, LoopAt, SignalOk, Good, ScalarKind;
    match info
    case ScopeInfo(name) =>
      assert EncodeU(name) + [] == EncodeU(name);
      var p := InfoUnfold(tb, data, pos, kind, st, name, []);
    case LoopInfo(name, ty, v) =>
      var p := InfoUnfold(tb, data, pos, kind, st, name, EncodeU(IdOf(tb.types, ty)) + EncodeValue(v));
      LoopIs(tb, data, p, name, ty, v);
    case SignalInfo(name, ty, sigs) =>
      NotEmpty(tb, |st|, ty, sigs);
      var p := InfoUnfold(tb, data, pos, kind, st, name, EncodeU(IdOf(tb.types, ty)) + EncodeNats(sigs[..|sigs| - 1]));
      SignalIs(tb, data, p, st, name, ty, sigs);
  }

  lemma NotEmpty(tb: Tables, n: nat, ty: nat, sigs: seq<nat>)
    requires Usable(tb) && SignalOk(tb, n, ty, sigs)
    ensures sigs != []
  {
  }

  // ---- Reading a forest -------------------------------------------------

  /** A valid forest, tree by tree. */
  lemma ForestUnfold(tb: Tables, n: nat, f: seq<Tree>)
    requires Usable(tb) && ValidForest(tb, n, f) && f != []
    ensures ValidInfo(tb, n, f[0].kind, f[0].info) && ValidForest(tb, n, f[1..])
    ensures f[0].Scope? <==> Opens(f[0].kind)
    ensures f[0].Scope? ==> ValidForest(tb, n, f[0].children)
  {
  }

  /** Encoding and elements of a forest, tree by tree. */
  lemma ForestCons(types: seq<nat>, f: seq<Tree>, d: nat)
    requires f != []
    ensures EncodeForest(types, f) == EncodeTree(types, f[0]) + EncodeForest(types, f[1..])
    ensures Items(f, d) == [Item(f[0].kind, f[0].info, d)] + Inside(f[0], d) + Items(f[1..], d)
  {
  }

  lemma InfoKind(tb: Tables, n: nat, kind: nat, info: Info)
    requires Usable(tb) && ValidInfo(tb, n, kind, info)
    ensures (Opens(kind) || kind == PROCESS || IsSignal(kind)) && kind != EOH && kind != EOS
  {
  }

  /** The element itself, and the scope it opens. */
  lemma OpenIs(tb: Tables, data: seq<Byte>, pos: nat, st: seq<Option>, items: seq<Item>, cd: nat, t: Tree)
    returns (st': seq<Option>)
    requires Usable(tb) && ValidInfo(tb, |st|, t.kind, t.info) && |st| <= 0x1_0000_0000
    requires At(data, pos, [t.kind] + EncodeInfo(tb.types, t.info))
    ensures |st'| == |st| && pos + 1 + |EncodeInfo(tb.types, t.info)| <= |data|
    ensures ScanAt(tb, data, pos, st, items, cd) ==
            ScanAt(tb, data, pos + 1 + |EncodeInfo(tb.types, t.info)|, st', items + [Item(t.kind, t.info, cd + 1)],
                   if Opens(t.kind) then cd + 1 else cd)
  {
    hide InfoAt, EncodeInfo, ValidInfo;
    AtSplit(data, pos, [t.kind], EncodeInfo(tb.types, t.info));
    OneByte(data, pos, t.kind);
    InfoKind(tb, |st|, t.kind, t.info);
    InfoIs(tb, data, pos + 1, t.kind, st, t.info);
    ScanStep(tb, data, pos, st, items, cd);
    st' := InfoAt(tb, data, pos + 1, t.kind, st).value.1;
  }

  /** Reading a forest adds its elements and leaves the current scope as it was; only the types of
      basic signals differ. */
  lemma {:induction false} ForestIs(tb: Tables, data: seq<Byte>, pos: nat, st: seq<Option>, items: seq<Item>,
        cd: nat, f: seq<Tree>) returns (st': seq<Option>)
    requires Usable(tb) && ValidForest(tb, |st|, f) && |st| <= 0x1_0000_0000
    requires At(data, pos, EncodeForest(tb.types, f))
    ensures |st'| == |st|
    ensures ScanAt(tb, data, pos, st, items, cd) ==
            ScanAt(tb, data, pos + |EncodeForest(tb.types, f)|, st', items + Items(f, cd + 1), cd)
    decreases f
  {
    hide ValidForest, ValidInfo, ScanAt, EncodeTree, Inside;
    if f == [] {
      assert items + Items(f, cd + 1) == items;
      st' := st;
    } else {
      hide EncodeForest, Items;
      ForestUnfold(tb, |st|, f);
      ForestCons(tb.types, f, cd + 1);
      var t, f' := f[0], f[1..];
      var a, b := EncodeTree(tb.types, t), EncodeForest(tb.types, f');
      var x, inside := [Item(t.kind, t.info, cd + 1)], Inside(t, cd + 1);
      AtSplit(data, pos, a, b);
      var st1 := TreeIs(tb, data, pos, st, items, cd, t);
      st' := ForestIs(tb, data, pos + |a|, st1, items + x + inside, cd, f');
      Assoc(items, x, inside, Items(f', cd + 1));
    }
  }

  lemma {:induction false} TreeIs(tb: Tables, data: seq<Byte>, pos: nat, st: seq<Option>, items: seq<Item>,
        cd: nat, t: Tree) returns (st': seq<Option>)
    requires Usable(tb) && ValidInfo(tb, |st|, t.kind, t.info) && |st| <= 0x1_0000_0000
    requires (t.Scope? <==> Opens(t.kind)) && (t.Scope? ==> ValidForest(tb, |st|, t.children))
    requires At(data, pos, EncodeTree(tb.types, t))
    ensures |st'| == |st|
    ensures ScanAt(tb, data, pos, st, items, cd) ==
            ScanAt(tb, data, pos + |EncodeTree(tb.types, t)|, st',
                   items + [Item(t.kind, t.info, cd + 1)] + Inside(t, cd + 1), cd)
    decreases t
  {
    hide ValidForest, ValidInfo, ScanAt, EncodeForest, EncodeInfo, Items;
    var head, tail := [t.kind] + EncodeInfo(tb.types, t.info),
      if t.Scope? then EncodeForest(tb.types, t.children) + [EOS] else [];
    AtSplit(data, pos, head, tail);
    st' := OpenIs(tb, data, pos, st, items, cd, t);
    var items' := items + [Item(t.kind, t.info, cd + 1)];
    if t.Scope? {
      var p, c := pos + |head|, EncodeForest(tb.types, t.children);
      AtSplit(data, p, c, [EOS]);
      st' := ForestIs(tb, data, p, st', items', cd + 1, t.children);
      OneByte(data, p + |c|, EOS);
      ScanMark(tb, data, p + |c|, st', items' + Items(t.children, cd + 2), cd + 1);
    } else {
      assert items' + [] == items';
    }
  }

  /** The whole section, wherever it stands in the stream. */
  lemma HieIs(tb: Tables, data: seq<Byte>, pos: nat, be: bool, f: seq<Tree>, counts: seq<Byte>, n: nat)
    requires Usable(tb) && n < 0x8000_0000 && |counts| == 8 && ValidForest(tb, n + 1, f)
    requires At(data, pos, EncodeHie(tb.types, f, counts, n, be))
    ensures var r := HieAt(tb, data, pos, be);
            && r.Ok? && r.value.0 == [Item(1, NoInfo, 0)] + Items(f, 1) && |r.value.1| == n + 1
            && r.pos == pos + |EncodeHie(tb.types, f, counts, n, be)|
  {
    hide ValidForest, ScanAt, EncodeForest, Items, GetI32, EncodeI32;
    var zeros, body := [0, 0, 0, 0], EncodeForest(tb.types, f);
    AtSplit(data, pos, zeros + counts + EncodeI32(n, be), body + [EOH]);
    AtSplit(data, pos + 16, body, [EOH]);
    OneByte(data, pos + 16 + |body|, EOH);
    var hdr := data[pos..pos + 16];
    assert hdr[..4] == zeros && hdr[12..] == EncodeI32(n, be);
    I32RoundTrip(n, be);
    var st' := ForestIs(tb, data, pos + 16, NoTypes(n + 1), [ROOT], 0, f);
    ScanMark(tb, data, pos + 16 + |body|, st', [ROOT] + Items(f, 1), 0);
  }

  // ---- The elements determine the forest ----------------------------------

  lemma {:induction false} ItemsDeep(f: seq<Tree>, d: nat)
    ensures forall k :: 0 <= k < |Items(f, d)| ==> Items(f, d)[k].depth >= d
    ensures f != [] ==> Items(f, d) != [] && Items(f, d)[0] == Item(f[0].kind, f[0].info, d)
    decreases f
  {
    if f != [] {
      InsideDeep(f[0], d);
      ItemsDeep(f[1..], d);
    }
  }

  /** A deeper part followed by a list that starts at depth d: the second begins at the first
      element that is not deeper. */
  lemma SplitAt(a: seq<Item>, b: seq<Item>, d: nat)
    requires (forall k :: 0 <= k < |a| ==> a[k].depth > d) && (b != [] ==> b[0].depth == d)
    ensures |a| == FirstUp(a + b, d, 0) && (a + b)[..|a|] == a && (a + b)[|a|..] == b
  {
    if b != [] { assert (a + b)[|a|] == b[0]; }
  }

  lemma ItemsParts(f: seq<Tree>, d: nat)
    requires f != []
    ensures Items(f, d) != [] && Items(f, d)[0] == Item(f[0].kind, f[0].info, d)
    ensures var rest := Items(f, d)[1..];
            var n := FirstUp(rest, d, 0);
            Inside(f[0], d) == rest[..n] && Items(f[1..], d) == rest[n..]
  {
    InsideDeep(f[0], d);
    ItemsDeep(f[1..], d);
    ForestCons([], f, d);
    hide Items, FirstUp, Inside;
    SplitAt(Inside(f[0], d), Items(f[1..], d), d);
    Behead(Item(f[0].kind, f[0].info, d), Inside(f[0], d), Items(f[1..], d));
  }

  lemma Behead<T>(x: T, a: seq<T>, b: seq<T>)
    ensures ([x] + a + b)[0] == x && ([x] + a + b)[1..] == a + b
  {
  }

  lemma {:induction false} InsideDeep(t: Tree, d: nat)
    ensures forall k :: 0 <= k < |Inside(t, d)| ==> Inside(t, d)[k].depth > d
    decreases t
  {
    if t.Scope? { ItemsDeep(t.children, d + 1); }
  }

  lemma NoItems(d: nat)
    ensures Items([], d) == []
  {
  }

  /** The elements with their depths determine the forest: nothing of its shape is lost. */
  lemma {:induction false} ItemsInjective(tb: Tables, n: nat, f: seq<Tree>, g: seq<Tree>, d: nat)
    requires Usable(tb) && ValidForest(tb, n, f) && ValidForest(tb, n, g) && Items(f, d) == Items(g, d)
    ensures f == g
    decreases f
  {
    hide Items, FirstUp, ValidForest, ValidInfo;
    ItemsDeep(f, d);
    ItemsDeep(g, d);
    if f == [] || g == [] {
      NoItems(d);
    } else {
      ForestUnfold(tb, n, f);
      ForestUnfold(tb, n, g);
      ItemsParts(f, d);
      ItemsParts(g, d);
      ItemsInjective(tb, n, f[1..], g[1..], d);
      if f[0].Scope? { ItemsInjective(tb, n, f[0].children, g[0].children, d + 1); }
      assert f == [f[0]] + f[1..] && g == [g[0]] + g[1..];
    }
  }

  // ---- From the bytes to the display --------------------------------------

  /** Round trip: from the encoding of any forest, the pointers that are built are walked through
      exactly the forest's elements, each node once, in preorder and with their depths; only a
      generic stops it. */
  method RoundTrip(s: Stream, tt: TypeTable, be: bool, f: seq<Tree>, counts: seq<Byte>, n: nat)
    returns (sigTypes: seq<Option>, visited: seq<(Hie, int)>, aborted: bool)
    requires s.Valid() && tt.Valid() && n < 0x8000_0000 && |counts| == 8 && ValidForest(TablesOf(tt), n + 1, f)
    requires At(s.data, s.pos, EncodeHie(tt.types, f, counts, n, be))
    modifies s
    ensures s.Valid() && s.pos == old(s.pos) + |EncodeHie(tt.types, f, counts, n, be)|
    ensures |sigTypes| == n + 1 && Typed(TablesOf(tt), [Item(1, NoInfo, 0)] + Items(f, 1), sigTypes)
    ensures aborted <==> exists k :: 0 <= k < |Items(f, 1)| && Items(f, 1)[k].kind == 14
    ensures !aborted ==> |visited| == 1 + |Items(f, 1)| && visited[0].1 == 0
    ensures !aborted ==> forall k :: 0 <= k < |Items(f, 1)| ==>
              var (h, indent) := visited[k + 1];
              Item(h.kind, h.info, Items(f, 1)[k].depth) == Items(f, 1)[k] && indent == Items(f, 1)[k].depth
    ensures !aborted ==> forall j, k :: 0 <= j < k < |visited| ==> visited[j].0 != visited[k].0
  {
    hide Items, EncodeHie, HieAt, ValidForest, Good, Preorder;
    ghost var tb := TablesOf(tt);
    HieIs(tb, s.data, s.pos, be, f, counts, n);
    HieTyped(tb, s.data, s.pos, be);
    var out, root, _, nodes, its := ReadHie(s, tt, be);
    sigTypes := out.value.sigTypes[..];
    visited, aborted := Walk(root, nodes, its);
    ShownItems(tb, n + 1, f, its);
    forall k | 0 <= k < |its| ensures nodes[k].kind == its[k].kind && nodes[k].info == its[k].info {
      assert LinkedAt(nodes, its, k);
    }
  }

  /** Of what a hierarchy can hold only generics are not displayed. */
  lemma ShownItems(tb: Tables, n: nat, f: seq<Tree>, its: seq<Item>)
    requires Usable(tb) && its == [ROOT] + Items(f, 1) && ItemsOk(tb, n, its)
    ensures (exists k :: 0 <= k < |its| && !Shown(its[k].kind))
       <==> exists k :: 0 <= k < |Items(f, 1)| && Items(f, 1)[k].kind == 14
  {
    hide Items, InfoOk;
    var inner := Items(f, 1);
    forall k | 0 <= k < |inner| ensures its[k + 1] == inner[k] && (!Shown(inner[k].kind) <==> inner[k].kind == 14) {
      ShownKind(tb, n, its[k + 1].kind, its[k + 1].info);
    }
    if k :| 0 <= k < |its| && !Shown(its[k].kind) {
      assert its[k] == inner[k - 1];
    }
  }

  lemma ShownKind(tb: Tables, n: nat, kind: nat, info: Info)
    requires Usable(tb) && InfoOk(tb, n, kind, info)
    ensures !Shown(kind) <==> kind == 14
  {
    hide Good, SignalOk, ScalarKind;
  }
}
