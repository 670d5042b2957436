/** Invalidation of dependent design units in the language server: the inverse dependency map of
    all analysed units, and the marking traversal that sends everything that depends on a
    document back to its source. */
module Invalidation {

  datatype Option<T> = None | Some(value: T)

  /** A design unit, by its node number. */
  type Unit = nat

  datatype DateState = Extern | Disk | Parse | Analyze

  /** An element of a dependence list: a design unit, an entity aspect (which stands for the design
      unit of its entity, None when what its name leads to is not a design unit), or a node of another
      kind. */
  datatype Dependence = OnUnit(unit: Unit) | OnEntityAspect(entityUnit: Option<Unit>) | OtherNode

  /** The element leads to a design unit. */
  predicate Resolves(d: Dependence) {
    d.OnUnit? || (d.OnEntityAspect? && d.entityUnit.Some?)
  }

  function Target(d: Dependence): Unit
    requires Resolves(d)
  {
    if d.OnUnit? then d.unit else d.entityUnit.value
  }

  /** For each unit the units that depend on it. */
  type Graph = map<Unit, seq<Unit>>

  /** The dictionary during the traversal: visited entries are overwritten with None. */
  type Marks = map<Unit, Option<seq<Unit>>>

  class AntiDeps {
    var m: Marks

    constructor (m: Marks)
      ensures this.m == m
    {
      this.m := m;
    }
  }

  // ---- Dependency graph -------------------------------------------------

  /** Unit u is recorded as depending on unit e. */
  predicate Edge(g: Graph, e: Unit, u: Unit) {
    e in g && u in g[e]
  }

  /** A chain of recorded dependencies, each unit depending on the one before it. */
  ghost predicate Chain(g: Graph, p: seq<Unit>) {
    |p| >= 2 && forall i :: 0 <= i < |p| - 1 ==> Edge(g, p[i], p[i + 1])
  }

  ghost predicate ChainFrom(g: Graph, roots: set<Unit>, p: seq<Unit>, u: Unit) {
    Chain(g, p) && p[0] in roots && p[|p| - 1] == u
  }

  /** u depends, directly or through other units, on a unit of `roots`. */
  ghost predicate Dependent(g: Graph, roots: set<Unit>, u: Unit) {
    exists p :: ChainFrom(g, roots, p, u)
  }

  lemma DependentStep(g: Graph, roots: set<Unit>, e: Unit, u: Unit)
    requires e in roots || Dependent(g, roots, e)
    requires Edge(g, e, u)
    ensures Dependent(g, roots, u)
  {
    if e in roots {
      assert ChainFrom(g, roots, [e, u], u);
    } else {
      var p :| ChainFrom(g, roots, p, e);
      assert ChainFrom(g, roots, p + [u], u);
    }
  }

  /** What one unit reaches, its own dependent reaches too. */
  lemma DependentTrans(g: Graph, e: Unit, v: Unit, u: Unit)
    requires Edge(g, e, v) && Dependent(g, {v}, u)
    ensures Dependent(g, {e}, u)
  {
    var p :| ChainFrom(g, {v}, p, u);
    assert ChainFrom(g, {e}, [e] + p, u);
  }

  lemma DependentMono(g: Graph, e: Unit, roots: set<Unit>, u: Unit)
    requires e in roots && Dependent(g, {e}, u)
    ensures Dependent(g, roots, u)
  {
    var p :| ChainFrom(g, {e}, p, u);
    assert ChainFrom(g, roots, p, u);
  }

  // ---- What the dependence lists record ---------------------------------

  /** u is analysed and lists e among its dependences. */
  predicate Records(state: map<Unit, DateState>, deps: map<Unit, Option<seq<Dependence>>>, u: Unit, e: Unit) {
    && u in state && state[u] == Analyze && u in deps && deps[u].Some?
    && Lists(deps[u].value, e)
  }

  /** The lists the source asserts to be well formed. */
  predicate WellFormed(state: map<Unit, DateState>, deps: map<Unit, Option<seq<Dependence>>>, u: Unit) {
    u in state && state[u] == Analyze ==>
      u in deps && deps[u].Some? && forall d :: d in deps[u].value ==> Resolves(d)
  }

  /** `g` is the inverse of the dependences of the units in `done`. */
  ghost predicate Inverse(g: Graph, state: map<Unit, DateState>, deps: map<Unit, Option<seq<Dependence>>>,
        done: set<Unit>) {
    forall e, u :: Edge(g, e, u) <==> u in done && Records(state, deps, u, e)
  }

  /** The i-th unit of a chain is one of `all`, is analysed and lists the one before it. */
  ghost predicate Link(state: map<Unit, DateState>, deps: map<Unit, Option<seq<Dependence>>>, all: set<Unit>,
        p: seq<Unit>, i: nat)
    requires 0 < i < |p|
  {
    p[i] in all && Records(state, deps, p[i], p[i - 1])
  }

  ghost predicate DependsChain(state: map<Unit, DateState>, deps: map<Unit, Option<seq<Dependence>>>, all: set<Unit>,
                               roots: set<Unit>, p: seq<Unit>, u: Unit) {
    && |p| >= 2 && p[0] in roots && p[|p| - 1] == u
    && forall i :: 0 < i < |p| ==> Link(state, deps, all, p, i)
  }

  /** u depends, directly or through other analysed units, on a unit of `roots`. */
  ghost predicate DependsOn(state: map<Unit, DateState>, deps: map<Unit, Option<seq<Dependence>>>,
        all: set<Unit>, roots: set<Unit>, u: Unit) {
    exists p :: DependsChain(state, deps, all, roots, p, u)
  }

  lemma InverseChains(g: Graph, state: map<Unit, DateState>, deps: map<Unit, Option<seq<Dependence>>>, all: set<Unit>,
                      roots: set<Unit>, p: seq<Unit>, u: Unit)
    requires Inverse(g, state, deps, all)
    ensures ChainFrom(g, roots, p, u) <==> DependsChain(state, deps, all, roots, p, u)
  {
    hide Edge, Records;
    if ChainFrom(g, roots, p, u) {
      forall i | 0 < i < |p| ensures Link(state, deps, all, p, i) {
        assert Edge(g, p[i - 1], p[i - 1 + 1]);
      }
    }
    if DependsChain(state, deps, all, roots, p, u) {
      forall i | 0 <= i < |p| - 1 ensures Edge(g, p[i], p[i + 1]) {
        assert Link(state, deps, all, p, i + 1);
      }
    }
  }

  lemma InverseDepends(g: Graph, state: map<Unit, DateState>, deps: map<Unit, Option<seq<Dependence>>>,
        all: set<Unit>, roots: set<Unit>, u: Unit)
    requires Inverse(g, state, deps, all)
    ensures Dependent(g, roots, u) <==> DependsOn(state, deps, all, roots, u)
  {
    hide Inverse, ChainFrom, DependsChain;
    forall p: seq<Unit> ensures ChainFrom(g, roots, p, u) <==> DependsChain(state, deps, all, roots, p, u) {
      InverseChains(g, state, deps, all, roots, p, u);
    }
  }

  lemma DependsExtend(state: map<Unit, DateState>, deps: map<Unit, Option<seq<Dependence>>>, all: set<Unit>,
        roots: set<Unit>, e: Unit, u: Unit)
    requires u in all && Records(state, deps, u, e)
    requires e in roots || DependsOn(state, deps, all, roots, e)
    ensures DependsOn(state, deps, all, roots, u)
  {
    hide Records;
    if e in roots {
      assert DependsChain(state, deps, all, roots, [e, u], u);
    } else {
      var p :| DependsChain(state, deps, all, roots, p, e);
      var q := p + [u];
      forall i | 0 < i < |q| ensures Link(state, deps, all, q, i) {
        if i < |p| { assert Link(state, deps, all, p, i); }
      }
      assert DependsChain(state, deps, all, roots, q, u);
    }
  }

  /** The point of the invalidation: afterwards no analysed unit lists a unit of the document, or
      a unit that was invalidated because of it. */
  lemma NothingStale(state: map<Unit, DateState>, deps: map<Unit, Option<seq<Dependence>>>,
                     state': map<Unit, DateState>, deps': map<Unit, Option<seq<Dependence>>>,
                     all: set<Unit>, roots: set<Unit>, u: Unit, e: Unit)
    requires state.Keys == state'.Keys == deps.Keys == deps'.Keys
    requires forall v :: v in state ==> state'[v] == if DependsOn(state, deps, all, roots, v) then Disk else state[v]
    requires forall v :: v in deps && deps'[v] != deps[v] ==> state'[v] == Disk
    requires u in all && Records(state', deps', u, e)
    ensures e !in roots && !DependsOn(state, deps, all, roots, e)
  {
    assert Records(state, deps, u, e);
    hide DependsOn;
    if e in roots || DependsOn(state, deps, all, roots, e) {
      DependsExtend(state, deps, all, roots, e, u);
    }
  }

  // ---- State of the traversal -------------------------------------------

  /** Entries are either still those of the graph or marked. */
  ghost predicate Marking(g: Graph, m: Marks) {
    m.Keys == g.Keys && forall e :: e in m && m[e].Some? ==> m[e].value == g[e]
  }

  ghost function Live(m: Marks): set<Unit> {
    set e | e in m && m[e].Some?
  }

  /** Nothing is left to do below e. */
  predicate Finished(m: Marks, e: Unit) {
    e in m ==> m[e].None?
  }

  /** The direct dependents of a marked unit are on disk and finished, unless the unit is still
      being processed. */
  ghost predicate Closed(g: Graph, m: Marks, state: map<Unit, DateState>, active: set<Unit>) {
    forall e, u :: e in m && m[e].None? && e !in active && Edge(g, e, u) ==>
      u in state && state[u] == Disk && Finished(m, u)
  }

  /** These dependents are on disk and finished. */
  ghost predicate Handled(m: Marks, state: map<Unit, DateState>, units: seq<Unit>) {
    forall u :: u in units ==> u in state && state[u] == Disk && Finished(m, u)
  }

  lemma AlreadyFinished(m: Marks, e: Unit)
    requires e in m ==> m[e].None?
    ensures Finished(m, e)
  {
  }

  lemma MarkUnit(g: Graph, m: Marks, state: map<Unit, DateState>, active: set<Unit>, unit: Unit)
    requires unit in m && m[unit].Some? && Closed(g, m, state, active)
    ensures Handled(m[unit := None], state, [])
    ensures Closed(g, m[unit := None], state, active + {unit})
  {
  }

  lemma DiskStays(g: Graph, m: Marks, state: map<Unit, DateState>, active: set<Unit>, u: Unit)
    requires Closed(g, m, state, active) && u in state
    ensures Closed(g, m, state[u := Disk], active)
  {
  }

  lemma HandledStep(m: Marks, state: map<Unit, DateState>, m': Marks, state': map<Unit, DateState>, units: seq<Unit>,
        i: nat)
    requires i < |units| && Handled(m, state, units[..i])
    requires m.Keys == m'.Keys && Live(m') <= Live(m) && state.Keys == state'.Keys
    requires forall u :: u in state && state'[u] != state[u] ==> state'[u] == Disk
    requires units[i] in state' && state'[units[i]] == Disk && Finished(m', units[i])
    ensures Handled(m', state', units[..i + 1])
  {
    forall u | u in units[..i + 1] ensures u in state' && state'[u] == Disk && Finished(m', u) {
      assert u in units[..i] || u == units[i];
      assert u !in Live(m) ==> u !in Live(m');
    }
  }

  lemma UnitClosed(g: Graph, m: Marks, state: map<Unit, DateState>, active: set<Unit>, unit: Unit)
    requires unit in g && Closed(g, m, state, active + {unit}) && Handled(m, state, g[unit])
    ensures Closed(g, m, state, active)
  {
  }

  /** What entering u under ent adds to the map. */
  lemma EdgeAdded(g: Graph, g': Graph, ent: Unit, u: Unit)
    requires g' == if ent in g && g[ent] != [] then g[ent := g[ent] + [u]] else g[ent := [u]]
    ensures forall e, v :: Edge(g', e, v) <==> Edge(g, e, v) || (e == ent && v == u)
  {
  }

  /** A list of dependences leads to unit e. */
  predicate Lists(list: seq<Dependence>, e: Unit) {
    OnUnit(e) in list || OnEntityAspect(Some(e)) in list
  }

  lemma ListsOneMore(list: seq<Dependence>, i: nat)
    requires i < |list| && Resolves(list[i])
    ensures forall e :: Lists(list[..i + 1], e) <==> Lists(list[..i], e) || e == Target(list[i])
  {
    assert list[..i + 1] == list[..i] + [list[i]];
    forall e ensures Lists(list[..i + 1], e) <==> Lists(list[..i], e) || e == Target(list[i]) {
      var d, d' := OnUnit(e), OnEntityAspect(Some(e));
      assert d in list[..i + 1] <==> d in list[..i] || d == list[i];
      assert d' in list[..i + 1] <==> d' in list[..i] || d' == list[i];
    }
  }

  class Workspace {
    /** Libraries, their design files, and the units of each file. */
    var libs: seq<seq<seq<Unit>>>
    var state: map<Unit, DateState>
    var deps: map<Unit, Option<seq<Dependence>>>
    var lastLinted: Option<Document>

    ghost predicate Valid()
      reads this
    {
      && state.Keys == deps.Keys
      && (forall u :: u in AllUnits(libs) ==> u in state)
    }

    /** Everything an edge of the graph leads to is a known unit. */
    ghost predicate Knows(g: Graph)
      reads this
    {
      forall e, u :: Edge(g, e, u) ==> u in state
    }

    /** Dependents of `unit` become obsolete; `antideps` is marked against infinite recursion.
        The marks persist between calls. */
    method ObsoleteDependentUnits(unit: Unit, antideps: AntiDeps, ghost g: Graph, ghost active: set<Unit>)
      requires Valid() && Knows(g) && Marking(g, antideps.m)
      requires Closed(g, antideps.m, state, active)
      requires active <= g.Keys && active !! Live(antideps.m)
      modifies this`state, this`deps, antideps
      ensures Valid() && Knows(g) && Marking(g, antideps.m)
      ensures Closed(g, antideps.m, state, active)
      ensures Live(antideps.m) <= old(Live(antideps.m))
      ensures Finished(antideps.m, unit)
      ensures state.Keys == old(state.Keys)
      ensures forall u :: u in state && state[u] != old(state)[u] ==> state[u] == Disk && Dependent(g, {unit}, u)
      ensures forall u :: u in deps ==> deps[u] == if state[u] != old(state)[u] then None else old(deps)[u]
      decreases Live(antideps.m), 0
    {
      hide Dependent, Finished, Handled, Closed;
      var udeps := if unit in antideps.m then antideps.m[unit] else None;
      if udeps.None? {
        AlreadyFinished(antideps.m, unit);
        return;
      }
      ghost var before := Live(antideps.m);
      MarkUnit(g, antideps.m, state, active, unit);
      antideps.m := antideps.m[unit := None];
      assert unit in before && unit !in Live(antideps.m);
      for i := 0 to |udeps.value|
        invariant Valid() && Knows(g) && Marking(g, antideps.m)
        invariant Closed(g, antideps.m, state, active + {unit})
        invariant Live(antideps.m) < before && unit in antideps.m && antideps.m[unit].None?
        invariant Handled(antideps.m, state, udeps.value[..i])
        invariant state.Keys == old(state.Keys)
        invariant forall u :: u in state && state[u] != old(state)[u] ==> state[u] == Disk && Dependent(g, {unit}, u)
        invariant forall u :: u in deps ==> deps[u] == if state[u] != old(state)[u] then None else old(deps)[u]
      {
        var un := udeps.value[i];
        assert Edge(g, unit, un);
        ghost var st, marks := state, antideps.m;
        ObsoleteDependent(un, antideps, g, active + {unit}, unit);
        HandledStep(marks, st, antideps.m, state, udeps.value, i);
      }
      assert udeps.value[..|udeps.value|] == udeps.value;
      UnitClosed(g, antideps.m, state, active, unit);
      AlreadyFinished(antideps.m, unit);
    }

    /** One iteration: the dependents of `un`, then `un` itself unless it is obsolete already. */
    method ObsoleteDependent(un: Unit, antideps: AntiDeps, ghost g: Graph, ghost active: set<Unit>, ghost unit: Unit)
      requires Valid() && Knows(g) && Marking(g, antideps.m) && Edge(g, unit, un)
      requires Closed(g, antideps.m, state, active)
      requires active <= g.Keys && active !! Live(antideps.m)
      modifies this`state, this`deps, antideps
      ensures Valid() && Knows(g) && Marking(g, antideps.m)
      ensures Closed(g, antideps.m, state, active)
      ensures Live(antideps.m) <= old(Live(antideps.m))
      ensures un in state && state[un] == Disk && Finished(antideps.m, un)
      ensures state.Keys == old(state.Keys)
      ensures forall u :: u in state && state[u] != old(state)[u] ==> state[u] == Disk && Dependent(g, {unit}, u)
      ensures forall u :: u in deps ==> deps[u] == if state[u] != old(state)[u] then None else old(deps)[u]
      decreases Live(antideps.m), 1
    {
      hide Dependent, Finished, Closed;
      ghost var st := state;
      ObsoleteDependentUnits(un, antideps, g, active);
      forall u | u in state && state[u] != st[u] ensures Dependent(g, {unit}, u) {
        DependentTrans(g, unit, un, u);
      }
      if state[un] != Disk {
        DependentStep(g, {unit}, unit, un);
        DiskStays(g, antideps.m, state, active, un);
        state := state[un := Disk];
        deps := deps[un := None];
      }
    }

    /** The inverse dependency map over all units that are analysed.  The three assertions
        of the source are the case None. */
    method ComputeAntiDependences() returns (res: Option<Graph>)
      requires Valid()
      ensures res.Some? <==> forall u :: u in AllUnits(libs) ==> WellFormed(state, deps, u)
      ensures res.Some? ==> Inverse(res.value, state, deps, AllUnits(libs)) && Knows(res.value)
    {
      var g: Graph := map[];
      ghost var done: set<Unit> := {};
      for i := 0 to |libs|
        invariant done == AllUnits(libs[..i]) && Inverse(g, state, deps, done)
        invariant forall u :: u in done ==> WellFormed(state, deps, u)
      {
        var files := libs[i];
        for j := 0 to |files|
          invariant done == AllUnits(libs[..i]) + FileUnits(files[..j]) && Inverse(g, state, deps, done)
          invariant forall u :: u in done ==> WellFormed(state, deps, u)
        {
          var units := files[j];
          for k := 0 to |units|
            invariant done == AllUnits(libs[..i]) + FileUnits(files[..j]) + UnitSet(units[..k])
            invariant Inverse(g, state, deps, done)
            invariant forall u :: u in done ==> WellFormed(state, deps, u)
          {
            InLibs(libs, i, j, k);
            var r := RecordUnit(g, units[k], done);
            if r.None? {
              return None;
            }
            g := r.value;
            done := done + {units[k]};
            assert units[..k + 1] == units[..k] + [units[k]];
          }
          FileUnitsSnoc(files, j);
          assert units[..|units|] == units;
        }
        AllUnitsSnoc(libs, i);
        assert files[..|files|] == files;
      }
      assert libs[..|libs|] == libs;
      res := Some(g);
    }

    /** Enter the dependences of one unit into the map. */
    method RecordUnit(g: Graph, u: Unit, ghost done: set<Unit>) returns (res: Option<Graph>)
      requires Valid() && u in state && Inverse(g, state, deps, done)
      ensures res.Some? <==> WellFormed(state, deps, u)
      ensures res.Some? ==> Inverse(res.value, state, deps, done + {u})
    {
      var r := g;
      if state[u] == Analyze {
        if deps[u].None? {
          return None;
        }
        var list := deps[u].value;
        for i := 0 to |list|
          invariant forall j :: 0 <= j < i ==> Resolves(list[j])
          invariant forall e, v :: Edge(r, e, v) <==> Edge(g, e, v) || (v == u && Lists(list[..i], e))
        {
          hide Edge, Lists;
          assert list[i] in list;
          if list[i].OtherNode? {
            return None;
          }
          if list[i].OnEntityAspect? && list[i].entityUnit.None? {
            return None;
          }
          var ent := Target(list[i]);
          ghost var before := r;
          r := if ent in r && r[ent] != [] then r[ent := r[ent] + [u]] else r[ent := [u]];
          EdgeAdded(before, r, ent, u);
          ListsOneMore(list, i);
        }
        assert list[..|list|] == list;
      }
      res := Some(r);
    }

    /** Send every unit that depends on the document back to its source, and drop the tree.
        Nothing is invalidated for the document that was linted last. */
    method ObsoleteDoc(doc: Document) returns (raised: bool)
      requires Valid()
      modifies this`state, this`deps, doc
      ensures Valid() && state.Keys == old(state.Keys)
      ensures old(doc.tree).None? ==> !raised && state == old(state) && deps == old(deps) && doc.tree.None?
      ensures raised ==> state == old(state) && deps == old(deps) && doc.tree == old(doc.tree)
      ensures old(doc.tree).Some? && !raised ==> doc.tree.None?
      ensures old(doc.tree).Some? && lastLinted == Some(doc) ==> !raised && state == old(state) && deps == old(deps)
      ensures old(doc.tree).Some? && lastLinted != Some(doc) ==>
                (raised <==> exists u :: u in AllUnits(libs) && !WellFormed(old(state), old(deps), u))
      ensures old(doc.tree).Some? && lastLinted != Some(doc) && !raised ==>
                forall u :: u in state ==>
                  state[u] == if DependsOn(old(state), old(deps), AllUnits(libs), UnitSet(old(doc.tree).value), u)
                              then Disk else old(state)[u]
      ensures old(doc.tree).Some? && lastLinted != Some(doc) && !raised ==>
                forall u :: u in deps ==>
                  deps[u] == if DependsOn(old(state), old(deps), AllUnits(libs), UnitSet(old(doc.tree).value), u)
                                && old(state)[u] != Disk
                             then None else old(deps)[u]
      ensures forall u :: u in deps ==> deps[u] == if state[u] != old(state)[u] then None else old(deps)[u]
    {
      hide Dependent, DependsOn, Inverse, Closed, WellFormed;
      raised := false;
      if doc.tree.None? {
        return;
      }
      var units := doc.tree.value;
      if lastLinted != Some(doc) {
        var graph := ComputeAntiDependences();
        if graph.None? {
          return true;
        }
        var g := graph.value;
        var antideps := new AntiDeps(map e | e in g :: Some(g[e]));
        ghost var roots := UnitSet(units);
        NothingMarked(g, antideps.m, state);
        for i := 0 to |units|
          invariant Valid() && Knows(g) && Marking(g, antideps.m) && Closed(g, antideps.m, state, {})
          invariant state.Keys == old(state.Keys)
          invariant forall j :: 0 <= j < i ==> Finished(antideps.m, units[j])
          invariant forall u :: u in state && state[u] != old(state)[u] ==> state[u] == Disk && Dependent(g, roots, u)
          invariant forall u :: u in deps ==> deps[u] == if state[u] != old(state)[u] then None else old(deps)[u]
        {
          ghost var st := state;
          ghost var marks := antideps.m;
          ObsoleteDependentUnits(units[i], antideps, g, {});
          forall u | u in state && state[u] != st[u] ensures Dependent(g, roots, u) {
            DependentMono(g, units[i], roots, u);
          }
          FinishedStays(marks, antideps.m, units[..i]);
        }
        forall u | u in state
          ensures state[u] == if DependsOn(old(state), old(deps), AllUnits(libs), roots, u) then Disk else old(state)[u]
        {
          InverseDepends(g, old(state), old(deps), AllUnits(libs), roots, u);
          if Dependent(g, roots, u) {
            RootsObsolete(g, antideps.m, state, roots, u);
          }
        }
      }
      doc.tree := None;
    }
  }

  class Document {
    /** The units of the document's design file, when it has been parsed. */
    var tree: Option<seq<Unit>>
  }

  function UnitSet(units: seq<Unit>): set<Unit> {
    set u | u in units
  }

  function FileUnits(files: seq<seq<Unit>>): set<Unit> {
    set f, u | f in files && u in f :: u
  }

  function AllUnits(libs: seq<seq<seq<Unit>>>): set<Unit> {
    set l, f, u | l in libs && f in l && u in f :: u
  }

  lemma InLibs(libs: seq<seq<seq<Unit>>>, i: nat, j: nat, k: nat)
    requires i < |libs| && j < |libs[i]| && k < |libs[i][j]|
    ensures libs[i][j][k] in AllUnits(libs)
  {
    var f := libs[i][j];
    assert libs[i] in libs && f in libs[i] && f[k] in f;
  }

  lemma FileUnitsSnoc(files: seq<seq<Unit>>, j: nat)
    requires j < |files|
    ensures FileUnits(files[..j + 1]) == FileUnits(files[..j]) + UnitSet(files[j])
  {
    assert files[..j + 1] == files[..j] + [files[j]];
  }

  lemma AllUnitsSnoc(libs: seq<seq<seq<Unit>>>, i: nat)
    requires i < |libs|
    ensures AllUnits(libs[..i + 1]) == AllUnits(libs[..i]) + FileUnits(libs[i])
  {
    assert libs[..i + 1] == libs[..i] + [libs[i]];
  }

  /** Marks are never taken back. */
  lemma FinishedStays(m: Marks, m': Marks, units: seq<Unit>)
    requires m.Keys == m'.Keys && Live(m') <= Live(m)
    requires forall j :: 0 <= j < |units| ==> Finished(m, units[j])
    ensures forall j :: 0 <= j < |units| ==> Finished(m', units[j])
  {
    forall e | e in m' && m[e].None? ensures m'[e].None? {
      assert e !in Live(m);
      assert e !in Live(m');
    }
  }

  /** Along a chain from a finished unit, every unit is on disk and finished. */
  lemma {:induction false} ChainObsolete(g: Graph, m: Marks, state: map<Unit, DateState>, p: seq<Unit>, i: nat)
    requires Marking(g, m) && Closed(g, m, state, {}) && Chain(g, p) && Finished(m, p[0])
    requires 0 < i < |p|
    ensures p[i] in state && state[p[i]] == Disk && Finished(m, p[i])
  {
    if i > 1 {
      ChainObsolete(g, m, state, p, i - 1);
    }
    assert Edge(g, p[i - 1], p[i - 1 + 1]);
  }

  lemma NothingMarked(g: Graph, m: Marks, state: map<Unit, DateState>)
    requires m == map e | e in g :: Some(g[e])
    ensures Marking(g, m) && Closed(g, m, state, {})
  {
  }

  lemma RootsObsolete(g: Graph, m: Marks, state: map<Unit, DateState>, roots: set<Unit>, u: Unit)
    requires Marking(g, m) && Closed(g, m, state, {}) && forall e :: e in roots ==> Finished(m, e)
    requires Dependent(g, roots, u)
    ensures u in state && state[u] == Disk
  {
    var p :| ChainFrom(g, roots, p, u);
    ChainObsolete(g, m, state, p, |p| - 1);
  }
}
