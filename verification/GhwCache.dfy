/** The index cache of the cycle reader: signals without a type are skipped by lookup instead of by
    walking (ghw_read_hie, ghw_read_cycle_cont). */
module GhwCache {
  import opened GhwTypes

  /** The signals below n that have a type, except signal 0, in order. */
  function NonNull(types: seq<Option>, n: nat): (ids: seq<nat>)
    requires n <= |types|
    ensures |ids| <= (if n == 0 then 0 else n - 1) && forall q :: 0 <= q < |ids| ==> 0 < ids[q] < n
  {
    if n <= 1 then []
    else if types[n - 1].Some? then NonNull(types, n - 1) + [n - 1]
    else NonNull(types, n - 1)
  }

  /** The cache: entry p is the p-th signal with a type, entries beyond the last are 0. */
  function CacheOf(types: seq<Option>): (c: seq<nat>)
    requires types != []
    ensures |c| == |types| && forall q :: 0 <= q < |c| ==> c[q] < |types|
  {
    [0] + NonNull(types, |types|) + seq(|types| - 1 - |NonNull(types, |types|)|, _ => 0)
  }

  /** No signal but 0 lacks a type. */
  predicate NoNulls(types: seq<Option>) {
    forall i :: 0 < i < |types| ==> types[i].Some?
  }

  datatype Selection = Selected(i: nat, p: nat) | Invalid | OutOfCache

  /** One step of the delta coding, in 32-bit arithmetic: by adding to the index when every
      signal has a type, through the cache otherwise.  The cache is indexed without a check. */
  function Select(types: seq<Option>, i: nat, p: nat, d: nat): (sel: Selection)
    requires types != []
    ensures sel.Selected? ==> 0 < sel.i < |types|
  {
    if NoNulls(types) then
      var i' := (i + d) % 0x1_0000_0000;
      if i' >= |types| || i' == 0 then Invalid else Selected(i', p)
    else
      var p' := (p + d) % 0x1_0000_0000;
      if p' >= |types| then OutOfCache
      else if CacheOf(types)[p'] == 0 then Invalid
      else Selected(CacheOf(types)[p'], p')
  }

  /** The next signal with a type, 0 when there is none. */
  function NextSignal(types: seq<Option>, i: nat): (j: nat)
    ensures j == 0 || (i < j < |types| && types[j].Some? && forall k :: i < k < j ==> types[k].None?)
    ensures j == 0 ==> forall k :: i < k < |types| ==> types[k].None?
    decreases |types| - i
  {
    if i + 1 >= |types| then 0 else if types[i + 1].Some? then i + 1 else NextSignal(types, i + 1)
  }

  /** Walking d signals with a type forward; 0 when the walk falls off the end. */
  function Advance(types: seq<Option>, i: nat, d: nat): nat
    decreases d
  {
    if d == 0 then i
    else
      var j := NextSignal(types, i);
      if j == 0 then 0 else Advance(types, j, d - 1)
  }

  lemma {:induction false} NonNullAt(types: seq<Option>, n: nat, q: nat)
    requires n <= |types| && q < |NonNull(types, n)|
    ensures var ids := NonNull(types, n);
            && q < ids[q] < n && types[ids[q]].Some?
            && (q == 0 ==> forall k :: 0 < k < ids[q] ==> types[k].None?)
            && (q > 0 ==> ids[q - 1] < ids[q] && forall k :: ids[q - 1] < k < ids[q] ==> types[k].None?)
  {
    if types[n - 1].Some? && q == |NonNull(types, n)| - 1 {
      NonNullTop(types, n - 1);
    } else {
      NonNullAt(types, n - 1, q);
    }
  }

  /** After the last of them there is none. */
  lemma {:induction false} NonNullTop(types: seq<Option>, n: nat)
    requires n <= |types|
    ensures var ids := NonNull(types, n);
            var top := if ids == [] then 0 else ids[|ids| - 1];
            (n > 0 ==> top < n) && |ids| <= top && forall k :: top < k < n ==> types[k].None?
  {
    if n > 1 { NonNullTop(types, n - 1); }
  }

  lemma CacheAt(types: seq<Option>, p: nat)
    requires p < |types|
    ensures var ids := NonNull(types, |types|);
            CacheOf(types)[p] == if p == 0 then 0 else if p <= |ids| then ids[p - 1] else 0
  {
  }

  lemma NextIs(types: seq<Option>, i: nat, j: nat)
    requires if j == 0 then forall k :: i < k < |types| ==> types[k].None?
             else i < j < |types| && types[j].Some? && forall k :: i < k < j ==> types[k].None?
    ensures NextSignal(types, i) == j
  {
  }

  /** Entry p + 1 of the cache is the next signal after entry p. */
  lemma CacheStep(types: seq<Option>, p: nat)
    requires p + 1 < |types| && (p == 0 || CacheOf(types)[p] != 0)
    ensures CacheOf(types)[p + 1] == NextSignal(types, CacheOf(types)[p])
  {
    hide CacheOf, NonNull, NextSignal;
    var ids := NonNull(types, |types|);
    CacheAt(types, p);
    CacheAt(types, p + 1);
    if p < |ids| {
      NonNullAt(types, |types|, p);
    } else {
      NonNullTop(types, |types|);
    }
    NextIs(types, CacheOf(types)[p], CacheOf(types)[p + 1]);
  }

  /** An entry is 0 only beyond the last signal with a type. */
  lemma CacheZero(types: seq<Option>, p: nat, q: nat)
    requires types != [] && 0 < p <= q < |types| && CacheOf(types)[p] == 0
    ensures CacheOf(types)[q] == 0
  {
    CacheAt(types, p);
    CacheAt(types, q);
  }

  /** Looking up p + d agrees with walking d signals forward from entry p. */
  lemma {:induction false} CacheIsWalk(types: seq<Option>, p: nat, d: nat)
    requires types != [] && p + d < |types| && (p == 0 || CacheOf(types)[p] != 0)
    ensures CacheOf(types)[p + d] == Advance(types, CacheOf(types)[p], d)
    decreases d
  {
    hide CacheOf;
    if d > 0 {
      CacheStep(types, p);
      if CacheOf(types)[p + 1] == 0 {
        CacheZero(types, p + 1, p + d);
      } else {
        CacheIsWalk(types, p + 1, d - 1);
      }
    }
  }

  /** Without signals that lack a type, walking is adding. */
  lemma {:induction false} WalkIsSum(types: seq<Option>, i: nat, d: nat)
    requires NoNulls(types) && i < |types|
    ensures Advance(types, i, d) == if i + d < |types| then i + d else 0
    decreases d
  {
    if d > 0 && i + 1 < |types| {
      WalkIsSum(types, i + 1, d - 1);
    }
  }

  /** Where the reader of a cycle stands: at signal i, which is at position p of the cache. */
  ghost predicate InStep(types: seq<Option>, i: nat, p: nat) {
    if NoNulls(types) then i < |types| else p < |types| && i == CacheOf(types)[p] && (p == 0 || i != 0)
  }

  /** Whether one step selects the signal that is d signals with a type further on, or none when there
      is no such signal. */
  ghost predicate SelectsWalk(types: seq<Option>, i: nat, p: nat, d: nat)
    requires types != []
  {
    var j := Advance(types, i, d);
    Select(types, i, p, d) == if j == 0 then Invalid else Selected(j, if NoNulls(types) then p else p + d)
  }

  /** No wrap-around past 0 on the fast path, no lookup beyond the cache on the other. */
  predicate InReach(types: seq<Option>, i: nat, p: nat, d: nat) {
    if NoNulls(types) then i + d <= 0x1_0000_0000 else p + d < |types| || p + d == 0x1_0000_0000
  }

  /** Both paths select the signal that the walk finds exactly when the delta is in reach: other
      deltas wrap around to an earlier signal or index the cache out of bounds. */
  lemma SelectIsWalk(types: seq<Option>, i: nat, p: nat, d: nat)
    requires types != [] && |types| <= 0x1_0000_0000 && 0 < d < 0x1_0000_0000 && InStep(types, i, p)
    ensures SelectsWalk(types, i, p, d) <==> InReach(types, i, p, d)
  {
    hide CacheOf, NonNull, Advance;
    if NoNulls(types) {
      WalkIsSum(types, i, d);
      Wraps(i + d);
    } else {
      Wraps(p + d);
      CacheAt(types, 0);
      if p + d < |types| {
        CacheIsWalk(types, p, d);
      } else {
        WalkEnds(types, p, d);
        if p + d > 0x1_0000_0000 && CacheOf(types)[p + d - 0x1_0000_0000] == 0 {
          CacheZero(types, p + d - 0x1_0000_0000, p);
        }
      }
    }
  }

  /** Such deltas exist: from the last of two signals, 2^32 - 1 leads back to the first. */
  lemma WrapExample()
    ensures var types := [None, Some(E8), Some(E8)];
            InStep(types, 2, 0) && Select(types, 2, 0, 0xFFFF_FFFF) == Selected(1, 0)
              && Advance(types, 2, 0xFFFF_FFFF) == 0
  {
    WalkIsSum([None, Some(E8), Some(E8)], 2, 0xFFFF_FFFF);
  }

  /** After a step the reader still knows where it stands, and has moved forward. */
  lemma StaysInStep(types: seq<Option>, i: nat, p: nat, d: nat)
    requires types != [] && |types| <= 0x1_0000_0000 && 0 < d < 0x1_0000_0000 && InStep(types, i, p)
    requires InReach(types, i, p, d) && Advance(types, i, d) != 0
    ensures Advance(types, i, d) > i && InStep(types, Advance(types, i, d), if NoNulls(types) then p else p + d)
  {
    hide CacheOf, NonNull, Advance;
    AdvanceLater(types, i, d);
    if !NoNulls(types) {
      if p + d < |types| {
        CacheIsWalk(types, p, d);
      } else {
        WalkEnds(types, p, d);
      }
    }
  }

  lemma Wraps(x: nat)
    requires x < 0x2_0000_0000
    ensures x % 0x1_0000_0000 == if x < 0x1_0000_0000 then x else x - 0x1_0000_0000
  {
  }

  lemma {:induction false} AdvanceLater(types: seq<Option>, i: nat, d: nat)
    requires d > 0
    ensures Advance(types, i, d) == 0 || (i + d <= Advance(types, i, d) < |types| && types[Advance(types, i, d)].Some?)
    decreases d
  {
    var j := NextSignal(types, i);
    if j != 0 && d > 1 { AdvanceLater(types, j, d - 1); }
  }

  /** Beyond the end of the cache there are no signals to walk over. */
  lemma WalkEnds(types: seq<Option>, p: nat, d: nat)
    requires p < |types| <= p + d && d > 0 && (p == 0 || CacheOf(types)[p] != 0)
    ensures Advance(types, CacheOf(types)[p], d) == 0
  {
    hide CacheOf, NonNull, Advance;
    CacheAt(types, p);
    if p > 0 { NonNullAt(types, |types|, p - 1); }
    AdvanceLater(types, CacheOf(types)[p], d);
  }

  /** The warning of ghw_read_hie: whether the fast path may be taken. */
  method HasNoNulls(types: seq<Option>) returns (noNull: bool)
    ensures noNull <==> NoNulls(types)
    ensures noNull <==> forall i :: 0 < i < |types| ==> types[i].Some?
  {
    noNull := true;
    for i := 0 to |types|
      invariant noNull <==> forall k :: 0 < k < i ==> types[k].Some?
    {
      if types[i].None? && i > 0 && noNull {
        noNull := false;
      }
    }
  }

  /** The lazy build of the cache. */
  method BuildCache(types: seq<Option>) returns (cache: array<nat>)
    requires types != []
    ensures fresh(cache) && cache[..] == CacheOf(types)
  {
    cache := new nat[|types|](_ => 0);
    var k := 1;
    for j := 1 to |types|
      invariant k == 1 + |NonNull(types, j)| <= j
      invariant cache[0] == 0 && cache[1..k] == NonNull(types, j)
      invariant forall q :: k <= q < |types| ==> cache[q] == 0
    {
      if types[j].Some? {
        cache[k] := j;
        assert cache[1..k + 1] == cache[1..k] + [j];
        k := k + 1;
      }
    }
  }
}
