/** The hierarchy of a GHW file: elements in stream order become nodes linked by first-child and
    brother pointers, which are then walked without a stack. */
module GhwHierarchy {
  import opened GhwValues

  // Values of enum ghw_hie_kind.
  const EOH := 0
  const DESIGN := 1
  const BLOCK := 3
  const GENERATE_IF := 4
  const GENERATE_FOR := 5
  const INSTANCE := 6
  const PACKAGE := 7
  const PROCESS := 13
  const GENERIC := 14
  const EOS := 15
  const SIGNAL := 16
  const PORT_LINKAGE := 21

  /** What belongs to an element: its name, the type and value of an iterator, or the type and the
      basic signals of a signal, ended by 0.  Names are ids of strings, types are entered types. */
  datatype Info =
    | NoInfo
    | ScopeInfo(name: nat)
    | LoopInfo(name: nat, ty: nat, value: Value)
    | SignalInfo(name: nat, ty: nat, sigs: seq<nat>)

  /** Kinds that open a scope. */
  predicate Opens(kind: nat) {
    kind in {BLOCK, GENERATE_IF, GENERATE_FOR, INSTANCE, GENERIC, PACKAGE}
  }

  predicate IsSignal(kind: nat) {
    SIGNAL <= kind <= PORT_LINKAGE
  }

  class Hie {
    var kind: nat
    var info: Info
    var parent: Hie?
    var brother: Hie?
    var child: Hie?

    constructor (kind: nat, info: Info, parent: Hie?)
      ensures this.kind == kind && this.info == info && this.parent == parent && brother == null && child == null
    {
      this.kind, this.info, this.parent := kind, info, parent;
      brother, child := null, null;
    }
  }

  // ---- The hierarchy as a list of elements with their depths ------------

  datatype Item = Item(kind: nat, info: Info, depth: nat)

  const ROOT := Item(DESIGN, NoInfo, 0)

  /** Elements in preorder: only an element that opens a scope is followed by a deeper one. */
  ghost predicate Preorder(its: seq<Item>) {
    && its != [] && its[0] == ROOT
    && forall k :: 0 < k < |its| ==>
         1 <= its[k].depth <= its[k - 1].depth + (if k == 1 || Opens(its[k - 1].kind) then 1 else 0)
  }

  /** The first element from j on that is at depth d or above it. */
  function FirstUp(its: seq<Item>, d: nat, j: nat): (i: nat)
    requires j <= |its|
    ensures j <= i <= |its| && (i < |its| ==> its[i].depth <= d)
    ensures forall x :: j <= x < i ==> its[x].depth > d
    decreases |its| - j
  {
    if j == |its| || its[j].depth <= d then j else FirstUp(its, d, j + 1)
  }

  /** The last element before j that is above depth d. */
  function LastAbove(its: seq<Item>, d: nat, j: nat): (i: nat)
    requires 0 < j <= |its|
    requires its[0].depth < d
    ensures i < j && its[i].depth < d
    ensures forall x :: i < x < j ==> its[x].depth >= d
  {
    if its[j - 1].depth < d then j - 1 else LastAbove(its, d, j - 1)
  }

  // Where the pointers of element k lead; 0, the root, stands for no element.

  function ParentOf(its: seq<Item>, k: nat): (p: nat)
    requires 0 < k < |its| && its[0].depth < its[k].depth
    ensures p < k && its[p].depth < its[k].depth && forall x :: p < x < k ==> its[x].depth >= its[k].depth
  {
    LastAbove(its, its[k].depth, k)
  }

  function ChildOf(its: seq<Item>, k: nat): (c: nat)
    requires k < |its|
    ensures c < |its|
  {
    if k + 1 < |its| && its[k + 1].depth > its[k].depth then k + 1 else 0
  }

  function BrotherOf(its: seq<Item>, k: nat): (b: nat)
    requires k < |its|
    ensures b < |its|
  {
    var j := FirstUp(its, its[k].depth, k + 1);
    if j < |its| && its[j].depth == its[k].depth then j else 0
  }

  function Link(nodes: seq<Hie>, i: nat): Hie?
    requires i < |nodes|
  {
    if i == 0 then null else nodes[i]
  }

  ghost predicate LinkedAt(nodes: seq<Hie>, its: seq<Item>, k: nat)
    requires |nodes| == |its| && Preorder(its) && k < |its|
    reads nodes
  {
    && nodes[k].kind == its[k].kind && nodes[k].info == its[k].info
    && nodes[k].parent == (if k == 0 then null else nodes[ParentOf(its, k)])
    && nodes[k].child == Link(nodes, ChildOf(its, k))
    && nodes[k].brother == Link(nodes, BrotherOf(its, k))
  }

  /** The nodes, in stream order, are linked as their depths say. */
  ghost predicate Linked(nodes: seq<Hie>, its: seq<Item>)
    reads nodes
  {
    && |nodes| == |its| && Preorder(its)
    && (forall i, j :: 0 <= i < j < |nodes| ==> nodes[i] != nodes[j])
    && forall k :: 0 <= k < |nodes| ==> LinkedAt(nodes, its, k)
  }

  // ---- The state of the reader ------------------------------------------

  /** Element `cur` is the scope that is open, at depth cd: everything after it is inside it. */
  ghost predicate Current(its: seq<Item>, cur: nat, cd: nat) {
    && cur < |its| && its[cur].depth == cd
    && (forall j :: cur < j < |its| ==> its[j].depth > cd)
    && (cur == 0 || Opens(its[cur].kind))
  }

  /** The slot behind `last`: the child pointer of the current scope while it is empty, then the
      brother pointer of its last child. */
  ghost predicate TailSlot(its: seq<Item>, cur: nat, cd: nat, at: nat, isChild: bool) {
    if cur + 1 == |its| then isChild && at == cur
    else !isChild && cur < at < |its| && its[at].depth == cd + 1 && forall j :: at < j < |its| ==> its[j].depth > cd + 1
  }

  lemma AppendPreorder(its: seq<Item>, x: Item, cur: nat, cd: nat)
    requires Preorder(its) && Current(its, cur, cd) && x.depth == cd + 1
    ensures Preorder(its + [x])
  {
    var its' := its + [x];
    assert forall k :: 0 <= k < |its| ==> its'[k] == its[k];
  }

  lemma AppendParents(its: seq<Item>, x: Item, cur: nat, cd: nat)
    requires Preorder(its) && Preorder(its + [x]) && Current(its, cur, cd) && x.depth == cd + 1
    ensures ParentOf(its + [x], |its|) == cur
    ensures forall k :: 0 < k < |its| ==> ParentOf(its + [x], k) == ParentOf(its, k)
  {
    var its' := its + [x];
    forall k | 0 < k < |its| ensures ParentOf(its', k) == ParentOf(its, k) {
      SameLast(its, its', its[k].depth, k);
    }
    SameLast(its, its', cd + 1, |its|);
  }

  lemma AppendChildren(its: seq<Item>, x: Item, cur: nat, cd: nat, at: nat, isChild: bool)
    requires Preorder(its) && Current(its, cur, cd) && TailSlot(its, cur, cd, at, isChild) && x.depth == cd + 1
    ensures ChildOf(its + [x], |its|) == 0 && (isChild ==> ChildOf(its, at) == 0)
    ensures forall k :: 0 <= k < |its| ==>
              ChildOf(its + [x], k) == if isChild && k == at then |its| else ChildOf(its, k)
  {
    var its' := its + [x];
    forall k | 0 <= k < |its| ensures ChildOf(its', k) == if isChild && k == at then |its| else ChildOf(its, k) {
      if k + 1 < |its| { assert its'[k + 1] == its[k + 1]; }
    }
  }

  lemma AppendBrothers(its: seq<Item>, x: Item, cur: nat, cd: nat, at: nat, isChild: bool)
    requires Preorder(its) && Current(its, cur, cd) && TailSlot(its, cur, cd, at, isChild) && x.depth == cd + 1
    ensures BrotherOf(its + [x], |its|) == 0 && (!isChild ==> BrotherOf(its, at) == 0)
    ensures forall k :: 0 <= k < |its| ==>
              BrotherOf(its + [x], k) == if !isChild && k == at then |its| else BrotherOf(its, k)
  {
    forall k | 0 <= k < |its|
      ensures BrotherOf(its + [x], k) == if !isChild && k == at then |its| else BrotherOf(its, k)
    {
      AppendBrother(its, x, cur, cd, at, isChild, k);
    }
    if !isChild {
      assert FirstUp(its, cd + 1, at + 1) == |its|;
    }
  }

  lemma AppendBrother(its: seq<Item>, x: Item, cur: nat, cd: nat, at: nat, isChild: bool, k: nat)
    requires Current(its, cur, cd) && TailSlot(its, cur, cd, at, isChild) && x.depth == cd + 1 && k < |its|
    ensures BrotherOf(its + [x], k) == if !isChild && k == at then |its| else BrotherOf(its, k)
  {
    var d, its' := its[k].depth, its + [x];
    var j := FirstUp(its, d, k + 1);
    AppendUp(its, x, d, k + 1);
    assert its'[k] == its[k];
    if j < |its| {
      assert its'[j] == its[j];
    } else if d == cd + 1 {
      assert k >= cur;
      assert !isChild;
      assert k >= at;
    }
  }

  lemma {:induction false} SameLast(its: seq<Item>, its': seq<Item>, d: nat, j: nat)
    requires its <= its' && 0 < j <= |its| && its[0].depth < d
    ensures LastAbove(its', d, j) == LastAbove(its, d, j)
  {
    if its[j - 1].depth >= d { SameLast(its, its', d, j - 1); }
  }

  lemma {:induction false} AppendUp(its: seq<Item>, x: Item, d: nat, j: nat)
    requires j <= |its|
    ensures FirstUp(its + [x], d, j) ==
            if FirstUp(its, d, j) < |its| then FirstUp(its, d, j) else if x.depth <= d then |its| else |its| + 1
    decreases |its| - j
  {
    if j < |its| && its[j].depth > d { AppendUp(its, x, d, j + 1); }
  }

  // ---- Building -----------------------------------------------------------

  /** Link a new element into the slot behind `last`. */
  method Attach(ghost nodes: seq<Hie>, ghost its: seq<Item>, blk: Hie, ghost cur: nat, ghost cd: nat,
        last: Hie, isChild: bool, ghost at: nat, kind: nat, info: Info)
    returns (el: Hie, ghost nodes': seq<Hie>, ghost its': seq<Item>)
    requires Linked(nodes, its) && Current(its, cur, cd) && TailSlot(its, cur, cd, at, isChild)
    requires blk == nodes[cur] && last == nodes[at]
    modifies nodes
    ensures fresh(el) && nodes' == nodes + [el] && its' == its + [Item(kind, info, cd + 1)]
    ensures Linked(nodes', its')
  {
    hide ParentOf, ChildOf, BrotherOf, Preorder;
    ghost var x, n := Item(kind, info, cd + 1), |its|;
    its' := its + [x];
    AppendPreorder(its, x, cur, cd);
    AppendParents(its, x, cur, cd);
    AppendChildren(its, x, cur, cd, at, isChild);
    AppendBrothers(its, x, cur, cd, at, isChild);
    el := new Hie(kind, info, blk);
    if isChild {
      last.child := el;
    } else {
      last.brother := el;
    }
    nodes' := nodes + [el];
    forall k | 0 <= k < |nodes'| ensures LinkedAt(nodes', its', k) {
      if k < n {
        assert old(LinkedAt(nodes, its, k));
        assert nodes'[k] == nodes[k] && its'[k] == its[k];
      } else {
        assert nodes'[k] == el && its'[k] == x;
      }
    }
  }

  /** The scope around the current one, after an end of scope. */
  lemma Outer(its: seq<Item>, cur: nat, cd: nat)
    requires Preorder(its) && Current(its, cur, cd) && cd > 0
    ensures cur > 0 && Current(its, ParentOf(its, cur), cd - 1)
    ensures ChildOf(its, ParentOf(its, cur)) == ParentOf(its, cur) + 1
    ensures its[ParentOf(its, cur) + 1].depth == cd
  {
    var p := ParentOf(its, cur);
    assert its[p + 1].depth >= cd;
    assert its[p + 1].depth <= its[p].depth + 1;
  }

  lemma Alone(nodes: seq<Hie>)
    requires |nodes| == 1 && nodes[0].kind == DESIGN && nodes[0].info == NoInfo
    requires nodes[0].parent == nodes[0].child == nodes[0].brother == null
    ensures Linked(nodes, [ROOT]) && Current([ROOT], 0, 0) && TailSlot([ROOT], 0, 0, 0, true)
  {
    assert LinkedAt(nodes, [ROOT], 0);
  }

  lemma CurrentDepth(its: seq<Item>, cur: nat, cd: nat)
    requires Preorder(its) && Current(its, cur, cd)
    ensures cur < |its| && its[cur].depth == cd && (cur == 0 <==> cd == 0)
  {
  }

  /** The scope and the slot after an element has been appended. */
  lemma AppendScopes(its: seq<Item>, x: Item, cur: nat, cd: nat)
    requires Current(its, cur, cd) && x.depth == cd + 1
    ensures Opens(x.kind) ==> Current(its + [x], |its|, cd + 1) && TailSlot(its + [x], |its|, cd + 1, |its|, true)
    ensures Current(its + [x], cur, cd) && TailSlot(its + [x], cur, cd, |its|, false)
  {
  }

  /** Child y of scope `cur` is the last one when it has no brother. */
  lemma LastChild(its: seq<Item>, cur: nat, cd: nat, y: nat)
    requires Preorder(its) && Current(its, cur, cd) && cur < y < |its| && its[y].depth == cd + 1
    ensures ParentOf(its, y) == cur
    ensures BrotherOf(its, y) == 0 ==> TailSlot(its, cur, cd, y, false)
    ensures BrotherOf(its, y) != 0 ==> y < BrotherOf(its, y) && its[BrotherOf(its, y)].depth == cd + 1
  {
  }

  /** After an end of scope: the last child of the scope that is open again.  It has one, the scope
      that has just been closed. */
  method LastOf(ghost nodes: seq<Hie>, ghost its: seq<Item>, blk: Hie, ghost cur: nat, ghost cd: nat)
    returns (l: Hie, ghost y: nat)
    requires Linked(nodes, its) && Current(its, cur, cd) && blk == nodes[cur]
    requires ChildOf(its, cur) == cur + 1 && its[cur + 1].depth == cd + 1
    ensures y < |its| && TailSlot(its, cur, cd, y, false) && l == nodes[y]
    ensures l.parent == blk && l.brother == null
  {
    hide TailSlot, Current, Preorder, ParentOf, BrotherOf, ChildOf;
    CurrentDepth(its, cur, cd);
    assert LinkedAt(nodes, its, cur);
    l, y := blk.child, cur + 1;
    LastChild(its, cur, cd, y);
    assert LinkedAt(nodes, its, y);
    while l.brother != null
      invariant cur < y < |its| && its[y].depth == cd + 1 && l == nodes[y]
      invariant LinkedAt(nodes, its, y)
      decreases |its| - y
    {
      LastChild(its, cur, cd, y);
      l, y := l.brother, BrotherOf(its, y);
      assert LinkedAt(nodes, its, y);
    }
    LastChild(its, cur, cd, y);
  }

  // ---- The walk ---------------------------------------------------------

  ghost function Visits(nodes: seq<Hie>, its: seq<Item>, m: nat): seq<(Hie, int)>
    requires |nodes| == |its| && m <= |nodes|
  {
    seq(m, k requires 0 <= k < m => (nodes[k], its[k].depth))
  }

  predicate Displayable(kind: nat) {
    kind in {DESIGN, BLOCK, GENERATE_IF, GENERATE_FOR, INSTANCE, PROCESS, PACKAGE}
  }

  /** Kinds that are displayed; the program aborts at any other. */
  predicate Shown(kind: nat) {
    kind in {1, 3, 4, 5, 6, 7, 13} || 16 <= kind <= 21
  }

  /** Climbing from element k, the first brother pointer that is set leads to element k + 1. */
  lemma NextUp(its: seq<Item>, y: nat, k: nat)
    requires y <= k < |its| && (forall z :: y < z <= k ==> its[z].depth > its[y].depth)
    requires k + 1 == |its| || its[k + 1].depth <= its[y].depth
    ensures BrotherOf(its, y) == if k + 1 < |its| && its[k + 1].depth == its[y].depth then k + 1 else 0
  {
    var j := FirstUp(its, its[y].depth, y + 1);
    assert j > k;
  }

  /** ghw_disp_hie: visits every element once, in stream order, with its depth as indentation.  The
      program aborts at the first element of a kind that is not displayed, such as a generic. */
  method Walk(top: Hie, ghost nodes: seq<Hie>, ghost its: seq<Item>) returns (visited: seq<(Hie, int)>, aborted: bool)
    requires Linked(nodes, its) && top == nodes[0]
    ensures aborted <==> exists k :: 0 <= k < |its| && !Shown(its[k].kind)
    ensures !aborted ==> visited == Visits(nodes, its, |its|)
    ensures aborted ==> 0 < |visited| <= |its| && visited == Visits(nodes, its, |visited|)
                        && !Shown(its[|visited| - 1].kind) && forall j :: 0 <= j < |visited| - 1 ==> Shown(its[j].kind)
  {
    var hie, indent := top, 0;
    ghost var k: nat := 0;
    visited := [];
    while true
      invariant k < |its| && hie == nodes[k] && indent == its[k].depth
      invariant visited == Visits(nodes, its, k) && forall j :: 0 <= j < k ==> Shown(its[j].kind)
      decreases |its| - k
    {
      visited := visited + [(hie, indent)];
      assert LinkedAt(nodes, its, k);
      var n: Hie?;
      if Displayable(hie.kind) {
        n := hie.child;
        if n == null {
          n := hie.brother;
        } else {
          indent := indent + 1;
        }
      } else if IsSignal(hie.kind) {
        n := hie.brother;
      } else {
        return visited, true;
      }
      if n == null {
        BrotherNull(nodes, its, k);
        n, indent := Climb(hie, indent, nodes, its, k);
        if n == null {
          return visited, false;
        }
      } else {
        NextNode(nodes, its, k, n);
      }
      hie := n;
      k := k + 1;
    }
  }

  /** The pointers of element k: to element k + 1, or to nothing. */
  lemma NextNode(nodes: seq<Hie>, its: seq<Item>, k: nat, n: Hie?)
    requires Linked(nodes, its) && k < |its| && n != null
    requires n == nodes[k].child || (nodes[k].child == null && n == nodes[k].brother)
          || (!Opens(its[k].kind) && k > 0 && n == nodes[k].brother)
    ensures k + 1 < |its| && n == nodes[k + 1]
    ensures its[k + 1].depth == if n == nodes[k].child then its[k].depth + 1 else its[k].depth
  {
    assert LinkedAt(nodes, its, k);
    if k + 1 == |its| || its[k + 1].depth <= its[k].depth {
      NextUp(its, k, k);
    }
  }

  lemma BrotherNull(nodes: seq<Hie>, its: seq<Item>, k: nat)
    requires Linked(nodes, its) && k < |its| && nodes[k].brother == null
    requires nodes[k].child == null || (!Opens(its[k].kind) && k > 0)
    ensures k + 1 == |its| || its[k + 1].depth < its[k].depth
  {
    assert LinkedAt(nodes, its, k);
    if k + 1 == |its| || its[k + 1].depth <= its[k].depth {
      NextUp(its, k, k);
    }
  }

  /** The inner loop: climb to the next element, or past the root. */
  method Climb(start: Hie, startIndent: int, ghost nodes: seq<Hie>, ghost its: seq<Item>, ghost k: nat)
    returns (n: Hie?, indent: int)
    requires Linked(nodes, its) && k < |its| && start == nodes[k] && startIndent == its[k].depth
    requires k + 1 == |its| || its[k + 1].depth < its[k].depth
    ensures n == null <==> k + 1 == |its|
    ensures n != null ==> n == nodes[k + 1] && indent == its[k + 1].depth
  {
    var hie := start;
    ghost var y: nat := k;
    n, indent := null, startIndent;
    while n == null
      invariant y <= k && hie == nodes[y]
      invariant n == null ==> indent == its[y].depth && (k + 1 == |its| || its[k + 1].depth < its[y].depth)
      invariant n == null ==> forall z :: y < z <= k ==> its[z].depth > its[y].depth
      invariant n != null ==> k + 1 < |its| && n == nodes[k + 1] && indent == its[k + 1].depth
      decreases y, n == null
    {
      assert LinkedAt(nodes, its, y);
      if hie.parent == null {
        return;
      }
      ParentDepth(its, y);
      y := ParentOf(its, y);
      hie := hie.parent;
      indent := indent - 1;
      assert LinkedAt(nodes, its, y);
      NextUp(its, y, k);
      n := hie.brother;
    }
  }

  lemma ParentDepth(its: seq<Item>, k: nat)
    requires Preorder(its) && 0 < k < |its|
    ensures its[ParentOf(its, k)].depth == its[k].depth - 1
  {
    var p := ParentOf(its, k);
    assert its[p + 1].depth >= its[k].depth;
    assert its[p + 1].depth <= its[p].depth + 1;
  }
}
