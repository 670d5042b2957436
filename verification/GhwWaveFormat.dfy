/** The format of the cycles of a GHW file, and their round trip: the encoding of any changes of
    values over time is read back as these changes. */
module GhwWaveFormat {
  import opened Vectors
  import opened GhwStream
  import opened GhwTypes
  import opened GhwValues
  import opened GhwCache
  import opened GhwWaves

  /** A signal gets a value. */
  datatype Change = Change(id: nat, v: Value)

  /** The number of signals with a type from i + 1 up to j. */
  function Gap(types: seq<Option>, i: nat, j: nat): (d: nat)
    requires j < |types|
    ensures d <= (if i < j then j - i else 0)
    decreases j - i
  {
    if i >= j then 0 else (if types[i + 1].Some? then 1 else 0) + Gap(types, i + 1, j)
  }

  /** Changes of signals after i, in increasing order and each with a value of its kind. */
  ghost predicate ValidChanges(types: seq<Option>, i: nat, cs: seq<Change>)
    decreases |cs|
  {
    cs != [] ==>
      && i < cs[0].id < |types| && types[cs[0].id].Some? && ValueFits(types[cs[0].id].value, cs[0].v)
      && ValidChanges(types, cs[0].id, cs[1..])
  }

  function EncodeChanges(types: seq<Option>, i: nat, cs: seq<Change>): seq<Byte>
    requires ValidChanges(types, i, cs)
    decreases |cs|
  {
    if cs == [] then EncodeU(0)
    else EncodeU(Gap(types, i, cs[0].id)) + (EncodeValue(cs[0].v) + EncodeChanges(types, cs[0].id, cs[1..]))
  }

  function Updates(cs: seq<Change>): seq<Event> {
    if cs == [] then [] else [Update(cs[0].id, cs[0].v)] + Updates(cs[1..])
  }

  lemma {:induction false} AdvanceGap(types: seq<Option>, i: nat, j: nat)
    requires i < j < |types| && types[j].Some?
    ensures Gap(types, i, j) > 0 && Advance(types, i, Gap(types, i, j)) == j
    decreases j - i
  {
    if i + 1 < j {
      AdvanceGap(types, i + 1, j);
    }
    if types[i + 1].None? {
      SkipNull(types, i, Gap(types, i, j));
    }
  }

  lemma SkipNull(types: seq<Option>, i: nat, d: nat)
    requires i + 1 < |types| && types[i + 1].None? && d > 0
    ensures Advance(types, i, d) == Advance(types, i + 1, d)
  {
  }

  lemma SignalValueIs(env: Env, st: St, id: nat, v: Value)
    requires Ready(env, st) && id < |env.types| && env.types[id].Some? && ValueFits(env.types[id].value, v)
    requires At(env.data, st.pos, EncodeValue(v))
    ensures SignalValue(env, st, id) == Updated(st, id, v, st.pos + |EncodeValue(v)|)
  {
    hide ValueAt, EncodeValue, ValueFits;
    ValueIs(env.data, st.pos, env.types[id].value, v);
  }

  /** Gaps are in reach, and lead to the next signal. */
  lemma GapSelects(types: seq<Option>, i: nat, p: nat, j: nat)
    requires InStep(types, i, p) && i < j < |types| <= 0x8000_0000 && types[j].Some?
    ensures var sel := Select(types, i, p, Gap(types, i, j)); sel.Selected? && sel.i == j && InStep(types, j, sel.p)
  {
    hide Select, Advance, CacheOf, NoNulls;
    var d := Gap(types, i, j);
    AdvanceGap(types, i, j);
    if !InReach(types, i, p, d) {
      WalkEnds(types, p, d);
    }
    SelectIsWalk(types, i, p, d);
    StaysInStep(types, i, p, d);
  }

  /** Reading one change leaves the reader in step for the next. */
  lemma ChangeIs(env: Env, st: St, i: nat, p: nat, c: Change, rest: seq<Byte>) returns (q: nat)
    requires Ready(env, st) && InStep(env.types, i, p) && i < c.id < |env.types| <= 0x8000_0000
    requires env.types[c.id].Some? && ValueFits(env.types[c.id].value, c.v)
    requires At(env.data, st.pos, EncodeU(Gap(env.types, i, c.id)) + (EncodeValue(c.v) + rest))
    ensures InStep(env.types, c.id, q)
    ensures var len := |EncodeU(Gap(env.types, i, c.id))| + |EncodeValue(c.v)|;
            var st' := st.(pos := st.pos + len, log := st.log + [Update(c.id, c.v)]);
            && Ready(env, st') && At(env.data, st'.pos, rest)
            && CycleContFrom(env, st, i, p) == CycleContFrom(env, st', c.id, q)
  {
    hide Uleb, EncodeU, Select, SignalValue, InStep, EncodeValue, ValueFits;
    var d := Gap(env.types, i, c.id);
    AtSplit(env.data, st.pos, EncodeU(d), EncodeValue(c.v) + rest);
    UlebIs(env.data, st.pos, d);
    var st1 := st.(pos := st.pos + |EncodeU(d)|);
    AtSplit(env.data, st1.pos, EncodeValue(c.v), rest);
    GapSelects(env.types, i, p, c.id);
    AdvanceGap(env.types, i, c.id);
    SignalValueIs(env, st1, c.id, c.v);
    q := Select(env.types, i, p, d).p;
  }

  /** The encoding of any changes is read back by either path: exactly these signals get exactly
      these values, and exactly the encoding is consumed. */
  lemma {:induction false} ChangesAre(env: Env, st: St, i: nat, p: nat, cs: seq<Change>)
    requires Ready(env, st) && InStep(env.types, i, p) && |env.types| <= 0x8000_0000
    requires ValidChanges(env.types, i, cs) && At(env.data, st.pos, EncodeChanges(env.types, i, cs))
    ensures CycleContFrom(env, st, i, p)
         == Ret(0, st.(pos := st.pos + |EncodeChanges(env.types, i, cs)|, log := st.log + Updates(cs)))
    decreases |cs|
  {
    hide EncodeU, InStep, EncodeValue, ValueFits, CycleContFrom, At, Ready, Gap;
    if cs == [] {
      NoMoreChanges(env, st, i, p);
      assert st.log + Updates(cs) == st.log;
    } else {
      var c := cs[0];
      ChangesCons(env.types, i, cs);
      hide ValidChanges, EncodeChanges, Updates;
      var q := ChangeIs(env, st, i, p, c, EncodeChanges(env.types, c.id, cs[1..]));
      var len := |EncodeU(Gap(env.types, i, c.id))| + |EncodeValue(c.v)|;
      var log' := st.log + [Update(c.id, c.v)];
      ChangesAre(env, st.(pos := st.pos + len, log := log'), c.id, q, cs[1..]);
      assert log' + Updates(cs[1..]) == st.log + Updates(cs);
    }
  }

  lemma ChangesCons(types: seq<Option>, i: nat, cs: seq<Change>)
    requires cs != [] && ValidChanges(types, i, cs)
    ensures i < cs[0].id < |types| && types[cs[0].id].Some? && ValueFits(types[cs[0].id].value, cs[0].v)
    ensures ValidChanges(types, cs[0].id, cs[1..])
    ensures EncodeChanges(types, i, cs) ==
            EncodeU(Gap(types, i, cs[0].id)) + (EncodeValue(cs[0].v) + EncodeChanges(types, cs[0].id, cs[1..]))
    ensures Updates(cs) == [Update(cs[0].id, cs[0].v)] + Updates(cs[1..])
  {
  }

  lemma NoMoreChanges(env: Env, st: St, i: nat, p: nat)
    requires Ready(env, st) && At(env.data, st.pos, EncodeU(0))
    ensures CycleContFrom(env, st, i, p) == Ret(0, st.(pos := st.pos + |EncodeU(0)|))
  {
    hide Uleb, EncodeU;
    UlebIs(env.data, st.pos, 0);
  }

  /** Further cycles: the time that has passed, which is never -1, and the changes. */
  datatype Tick = Tick(dt: int, cs: seq<Change>)

  ghost predicate ValidTicks(types: seq<Option>, ts: seq<Tick>)
    decreases |ts|
  {
    ts != [] ==>
      InWidth(ts[0].dt, 64) && ts[0].dt != -1 && ValidChanges(types, 0, ts[0].cs) && ValidTicks(types, ts[1..])
  }

  function EncodeTicks(types: seq<Option>, ts: seq<Tick>): seq<Byte>
    requires ValidTicks(types, ts)
    decreases |ts|
  {
    if ts == [] then EncodeS(-1) + [69, 67, 89, 0]
    else EncodeS(ts[0].dt) + (EncodeChanges(types, 0, ts[0].cs) + EncodeTicks(types, ts[1..]))
  }

  /** What the ticks do: each moves the time on and then changes values. */
  function Play(st: St, ts: seq<Tick>): St
    decreases |ts|
  {
    if ts == [] then st
    else
      var now := st.time + ts[0].dt;
      Play(st.(time := now, log := st.log + [Time(now)] + Updates(ts[0].cs)), ts[1..])
  }

  /** The state after one tick. */
  function AfterTick(st: St, t: Tick, len: nat): St {
    var st' := SetTime(st, st.time + t.dt);
    st'.(pos := st.pos + len, log := st'.log + Updates(t.cs))
  }

  lemma TickIs(env: Env, st: St, t: Tick, rest: seq<Byte>)
    requires Ready(env, st) && |env.types| <= 0x8000_0000 && InWidth(t.dt, 64) && t.dt != -1
    requires ValidChanges(env.types, 0, t.cs)
    requires At(env.data, st.pos, EncodeS(t.dt) + (EncodeChanges(env.types, 0, t.cs) + rest))
    ensures var st' := AfterTick(st, t, |EncodeS(t.dt)| + |EncodeChanges(env.types, 0, t.cs)|);
            && Ready(env, st') && At(env.data, st'.pos, rest) && CycleRest(env, st) == CycleRest(env, st')
            && var n := CycleNext(env, st); n.Ret? && n.code == 1 && CycleCont(env, n.st) == Ret(0, st')
  {
    hide Sleb, EncodeS, CycleContFrom, EncodeChanges, InStep, Updates, ValidChanges;
    var now := EncodeChanges(env.types, 0, t.cs);
    AtSplit(env.data, st.pos, EncodeS(t.dt), now + rest);
    SlebIs(env.data, st.pos, t.dt, 64);
    var st1 := CycleNext(env, st).st;
    AtSplit(env.data, st1.pos, now, rest);
    StartInStep(env.types);
    ChangesAre(env, st1, 0, 0, t.cs);
  }

  /** The encoding of a cycle section's ticks is played back, and nothing else is consumed. */
  lemma {:induction false} TicksAre(env: Env, st: St, ts: seq<Tick>)
    requires Ready(env, st) && |env.types| <= 0x8000_0000
    requires ValidTicks(env.types, ts) && At(env.data, st.pos, EncodeTicks(env.types, ts))
    ensures CycleRest(env, st) == Ret(0, Play(st, ts).(pos := st.pos + |EncodeTicks(env.types, ts)|))
    decreases |ts|
  {
    hide Sleb, EncodeS, CycleRest, EncodeChanges, Ready, At;
    if ts == [] {
      NoMoreTicks(env, st);
    } else {
      var t := ts[0];
      var st' := AfterTick(st, t, |EncodeS(t.dt)| + |EncodeChanges(env.types, 0, t.cs)|);
      TickIs(env, st, t, EncodeTicks(env.types, ts[1..]));
      TicksAre(env, st', ts[1..]);
      PlayPos(st', st'.(pos := st.pos), ts[1..]);
    }
  }

  lemma NoMoreTicks(env: Env, st: St)
    requires Ready(env, st) && At(env.data, st.pos, EncodeS(-1) + [69, 67, 89, 0])
    ensures var end := Ret(0, st.(pos := st.pos + |EncodeS(-1)| + 4));
            && CycleRest(env, st) == end
            && var n := CycleNext(env, st); n.Ret? && n.code == 0 && CycleEnd(env, n.st) == end
  {
    hide Sleb, EncodeS;
    AtSplit(env.data, st.pos, EncodeS(-1), [69, 67, 89, 0]);
    SlebIs(env.data, st.pos, -1, 64);
  }

  lemma StartInStep(types: seq<Option>)
    requires types != []
    ensures InStep(types, 0, 0)
  {
  }

  /** Playing does not depend on the position. */
  lemma {:induction false} PlayPos(a: St, b: St, ts: seq<Tick>)
    requires a == b.(pos := a.pos)
    ensures Play(a, ts) == Play(b, ts).(pos := a.pos)
    decreases |ts|
  {
    if ts != [] {
      var now := a.time + ts[0].dt;
      var log' := a.log + [Time(now)] + Updates(ts[0].cs);
      PlayPos(a.(time := now, log := log'), b.(time := now, log := log'), ts[1..]);
    }
  }
}
