/** The format of the whole value part of a GHW file, and its round trip: from the encoding of any
    snapshots and cycles both readers play back exactly their times and values. */
module GhwDumpFormat {
  import opened Sequences
  import opened Vectors
  import opened GhwStream
  import opened GhwTypes
  import opened GhwValues
  import opened GhwCache
  import opened GhwWaves
  import opened GhwWaveFormat

  /** A snapshot with a value for each signal, of which only those of signals with a type are there;
      a first cycle with the ticks that follow; a directory; a tailer. */
  datatype Part =
    | SnapshotPart(time: int, vals: seq<Value>)
    | CyclePart(time: int, cs: seq<Change>, ts: seq<Tick>)
    | DirectoryPart(head: seq<Byte>, entries: seq<seq<Byte>>)
    | TailerPart(bytes: seq<Byte>)

  /** A time that is read back. */
  predicate ValidTime(t: int) {
    InWidth(t, 64) && (t % 0x1_0000_0000 < 0x8000_0000 || -0x8000_0000 <= t < 0)
  }

  predicate ValidValues(types: seq<Option>, vals: seq<Value>) {
    |vals| == |types| && forall i :: 0 <= i < |types| && types[i].Some? ==> ValueFits(types[i].value, vals[i])
  }

  ghost predicate ValidPart(types: seq<Option>, x: Part) {
    match x
    case SnapshotPart(t, vals) => ValidTime(t) && ValidValues(types, vals)
    case CyclePart(t, cs, ts) => ValidTime(t) && ValidChanges(types, 0, cs) && ValidTicks(types, ts)
    case DirectoryPart(head, entries) =>
      |head| == 4 && |entries| < 0x8000_0000 && forall k :: 0 <= k < |entries| ==> |entries[k]| == 8
    case TailerPart(bytes) => |bytes| == 8
  }

  ghost predicate ValidParts(types: seq<Option>, xs: seq<Part>) {
    forall k :: 0 <= k < |xs| ==> ValidPart(types, xs[k])
  }

  function EncodeValues(types: seq<Option>, i: nat, vals: seq<Value>): seq<Byte>
    requires i <= |types| == |vals|
    decreases |types| - i
  {
    if i == |types| then [69, 83, 78, 0]
    else if types[i].None? then EncodeValues(types, i + 1, vals)
    else EncodeValue(vals[i]) + EncodeValues(types, i + 1, vals)
  }

  function EncodeEntries(entries: seq<seq<Byte>>): seq<Byte> {
    if entries == [] then [69, 79, 68, 0] else entries[0] + EncodeEntries(entries[1..])
  }

  function EncodePart(env: Env, x: Part): seq<Byte>
    requires ValidPart(env.types, x)
  {
    match x
    case SnapshotPart(t, vals) =>
      [83, 78, 80, 0] + ([0, 0, 0, 0] + EncodeI64(t, env.be) + EncodeValues(env.types, 0, vals))
    case CyclePart(t, cs, ts) =>
      [67, 89, 67, 0] + (EncodeI64(t, env.be) + (EncodeChanges(env.types, 0, cs) + EncodeTicks(env.types, ts)))
    case DirectoryPart(head, entries) =>
      [68, 73, 82, 0] + (head + EncodeI32(|entries|, env.be) + EncodeEntries(entries))
    case TailerPart(bytes) => [84, 65, 73, 0] + bytes
  }

  function EncodeParts(env: Env, xs: seq<Part>): seq<Byte>
    requires ValidParts(env.types, xs)
  {
    if xs == [] then [] else EncodePart(env, xs[0]) + EncodeParts(env, xs[1..])
  }

  // ---- What the parts do ------------------------------------------------

  /** The values of a snapshot from signal i on. */
  function Values(types: seq<Option>, i: nat, vals: seq<Value>): seq<Event>
    requires i <= |types| == |vals|
    decreases |types| - i
  {
    if i == |types| then []
    else if types[i].None? then Values(types, i + 1, vals)
    else [Update(i, vals[i])] + Values(types, i + 1, vals)
  }

  /** The state after a part; the position is not affected. */
  function PlayPart(types: seq<Option>, st: St, x: Part): St
    requires ValidPart(types, x)
  {
    match x
    case SnapshotPart(t, vals) => st.(time := t, log := st.log + [Time(t)] + Values(types, 0, vals))
    case CyclePart(t, cs, ts) => Play(st.(time := t, log := st.log + [Time(t)] + Updates(cs)), ts)
    case _ => st
  }

  function PlayParts(types: seq<Option>, st: St, xs: seq<Part>): St
    requires ValidParts(types, xs)
    decreases |xs|
  {
    if xs == [] then st else PlayParts(types, PlayPart(types, st, xs[0]), xs[1..])
  }

  lemma PlayPartPos(types: seq<Option>, a: St, b: St, x: Part)
    requires ValidPart(types, x) && a == b.(pos := a.pos)
    ensures PlayPart(types, a, x) == PlayPart(types, b, x).(pos := a.pos)
  {
    if x.CyclePart? {
      var log' := a.log + [Time(x.time)] + Updates(x.cs);
      PlayPos(a.(time := x.time, log := log'), b.(time := x.time, log := log'), x.ts);
      PlayKeepsPos(a.(time := x.time, log := log'), x.ts);
    }
  }

  lemma {:induction false} PlayKeepsPos(a: St, ts: seq<Tick>)
    ensures Play(a, ts).pos == a.pos
    decreases |ts|
  {
    if ts != [] {
      var now := a.time + ts[0].dt;
      PlayKeepsPos(a.(time := now, log := a.log + [Time(now)] + Updates(ts[0].cs)), ts[1..]);
    }
  }

  lemma {:induction false} PlayPartsPos(types: seq<Option>, a: St, b: St, xs: seq<Part>)
    requires ValidParts(types, xs) && a == b.(pos := a.pos)
    ensures PlayParts(types, a, xs) == PlayParts(types, b, xs).(pos := a.pos)
    decreases |xs|
  {
    hide ValidPart, PlayPart;
    if xs != [] {
      PlayPartPos(types, a, b, xs[0]);
      PlayPartsPos(types, PlayPart(types, a, xs[0]), PlayPart(types, b, xs[0]), xs[1..]);
    }
  }

  // ---- Reading the parts ------------------------------------------------

  lemma TimeIs(data: seq<Byte>, pos: nat, t: int, be: bool)
    requires ValidTime(t) && At(data, pos, EncodeI64(t, be))
    ensures GetI64(data[pos..pos + 8], be) == t
  {
    I64RoundTrip(t, be);
  }

  lemma {:induction false} ValuesAre(env: Env, st: St, i: nat, vals: seq<Value>)
    requires Ready(env, st) && ValidValues(env.types, vals) && i <= |env.types|
    requires At(env.data, st.pos, EncodeValues(env.types, i, vals))
    ensures SnapshotFrom(env, st, i)
         == Ret(0, st.(pos := st.pos + |EncodeValues(env.types, i, vals)|, log := st.log + Values(env.types, i, vals)))
    decreases |env.types| - i
  {
    hide SignalValue, EncodeValue, ValueFits;
    if i == |env.types| {
      assert st.log + Values(env.types, i, vals) == st.log;
    } else if env.types[i].None? {
      ValuesAre(env, st, i + 1, vals);
    } else {
      AtSplit(env.data, st.pos, EncodeValue(vals[i]), EncodeValues(env.types, i + 1, vals));
      SignalValueIs(env, st, i, vals[i]);
      ValuesAre(env, SignalValue(env, st, i).st, i + 1, vals);
      assert st.log + [Update(i, vals[i])] + Values(env.types, i + 1, vals) == st.log + Values(env.types, i, vals);
    }
  }

  lemma SnapshotIs(env: Env, st: St, x: Part)
    requires Ready(env, st) && x.SnapshotPart? && ValidPart(env.types, x)
    requires At(env.data, st.pos, [0, 0, 0, 0] + EncodeI64(x.time, env.be) + EncodeValues(env.types, 0, x.vals))
    ensures Snapshot(env, st) ==
            Ret(0, PlayPart(env.types, st, x).(pos := st.pos + 12 + |EncodeValues(env.types, 0, x.vals)|))
  {
    hide SnapshotFrom, EncodeValues, Values, GetI64, EncodeI64;
    var time := EncodeI64(x.time, env.be);
    AtSplit(env.data, st.pos, [0, 0, 0, 0] + time, EncodeValues(env.types, 0, x.vals));
    AtSplit(env.data, st.pos, [0, 0, 0, 0], time);
    TimeIs(env.data, st.pos + 4, x.time, env.be);
    assert env.data[st.pos..st.pos + 12][..4] == env.data[st.pos..st.pos + 4];
    assert env.data[st.pos..st.pos + 12][4..] == env.data[st.pos + 4..st.pos + 12];
    ValuesAre(env, SetTime(Skip(env, st, 12), x.time), 0, x.vals);
  }

  /** The first cycle of a section, and what follows it. */
  lemma FirstIs(env: Env, st: St, x: Part)
    requires Ready(env, st) && |env.types| <= 0x8000_0000 && x.CyclePart? && ValidPart(env.types, x)
    requires At(env.data, st.pos,
                EncodeI64(x.time, env.be) + (EncodeChanges(env.types, 0, x.cs) + EncodeTicks(env.types, x.ts)))
    ensures var pos := st.pos + 8 + |EncodeChanges(env.types, 0, x.cs)|;
            var st' := St(pos, x.time, st.log + [Time(x.time)] + Updates(x.cs));
            CycleFirst(env, st) == Ret(0, st') && Ready(env, st') && At(env.data, st'.pos, EncodeTicks(env.types, x.ts))
  {
    hide CycleContFrom, EncodeChanges, EncodeTicks, Updates, GetI64, EncodeI64, InStep;
    var time, now, later := EncodeI64(x.time, env.be), EncodeChanges(env.types, 0, x.cs), EncodeTicks(env.types, x.ts);
    AtSplit(env.data, st.pos, time, now + later);
    AtSplit(env.data, st.pos + 8, now, later);
    TimeIs(env.data, st.pos, x.time, env.be);
    StartInStep(env.types);
    ChangesAre(env, St(st.pos + 8, x.time, st.log + [Time(x.time)]), 0, 0, x.cs);
  }

  lemma CycleIs(env: Env, st: St, x: Part)
    requires Ready(env, st) && |env.types| <= 0x8000_0000 && x.CyclePart? && ValidPart(env.types, x)
    requires At(env.data, st.pos,
                EncodeI64(x.time, env.be) + (EncodeChanges(env.types, 0, x.cs) + EncodeTicks(env.types, x.ts)))
    ensures WholeCycle(env, st) == Ret(0, PlayPart(env.types, st, x).(
              pos := st.pos + 8 + |EncodeChanges(env.types, 0, x.cs)| + |EncodeTicks(env.types, x.ts)|))
  {
    hide CycleFirst, CycleRest, EncodeChanges, EncodeTicks, Updates, Play, GetI64, EncodeI64;
    FirstIs(env, st, x);
    var st' := CycleFirst(env, st).st;
    TicksAre(env, st', x.ts);
    PlayPos(st', st'.(pos := st.pos), x.ts);
  }

  lemma {:induction false} EntriesSkipped(env: Env, st: St, entries: seq<seq<Byte>>)
    requires Ready(env, st) && (forall k :: 0 <= k < |entries| ==> |entries[k]| == 8)
    requires At(env.data, st.pos, EncodeEntries(entries))
    ensures DirectoryEntries(env, st, |entries|) == Ret(0, st.(pos := st.pos + |EncodeEntries(entries)|))
    decreases |entries|
  {
    if entries != [] {
      AtSplit(env.data, st.pos, entries[0], EncodeEntries(entries[1..]));
      EntriesSkipped(env, st.(pos := st.pos + 8), entries[1..]);
    }
  }

  lemma DirectoryIs(env: Env, st: St, x: Part)
    requires Ready(env, st) && x.DirectoryPart? && ValidPart(env.types, x)
    requires At(env.data, st.pos, x.head + EncodeI32(|x.entries|, env.be) + EncodeEntries(x.entries))
    ensures Directory(env, st) == Ret(0, st.(pos := st.pos + 8 + |EncodeEntries(x.entries)|))
  {
    hide DirectoryEntries, EncodeEntries, GetI32, EncodeI32;
    var count := EncodeI32(|x.entries|, env.be);
    AtSplit(env.data, st.pos, x.head + count, EncodeEntries(x.entries));
    assert env.data[st.pos..st.pos + 8][4..] == count;
    I32RoundTrip(|x.entries|, env.be);
    EntriesSkipped(env, st.(pos := st.pos + 8), x.entries);
  }

  /** What follows the mark of a part. */
  function Mark(x: Part): seq<Byte> {
    match x
    case SnapshotPart(_, _) => SNP
    case CyclePart(_, _, _) => CYC
    case DirectoryPart(_, _) => DIR
    case TailerPart(_) => TAI
  }

  lemma MarkIs(env: Env, st: St, x: Part)
    requires Ready(env, st) && ValidPart(env.types, x) && At(env.data, st.pos, EncodePart(env, x))
    ensures Available(env, st, 4) && Bytes(env, st, 4) == Mark(x) && At(env.data, st.pos + 4, EncodePart(env, x)[4..])
    ensures EncodePart(env, x) == Mark(x) + EncodePart(env, x)[4..]
  {
    hide EncodeValues, EncodeChanges, EncodeTicks, EncodeEntries, EncodeI64, EncodeI32, ValidPart;
    var rest := EncodePart(env, x)[4..];
    assert EncodePart(env, x) == Mark(x) + rest;
    AtSplit(env.data, st.pos, Mark(x), rest);
  }

  lemma PartIs(env: Env, st: St, x: Part)
    requires Ready(env, st) && |env.types| <= 0x8000_0000 && ValidPart(env.types, x)
    requires At(env.data, st.pos, EncodePart(env, x))
    ensures Available(env, st, 4)
    ensures Section(env, st) == Ret(0, PlayPart(env.types, st, x).(pos := st.pos + |EncodePart(env, x)|))
  {
    hide Snapshot, WholeCycle, Directory, EncodeValues, EncodeChanges, EncodeTicks, EncodeEntries, EncodeI64, EncodeI32;
    MarkIs(env, st, x);
    var st1, rest := Skip(env, st, 4), EncodePart(env, x)[4..];
    PlayPartPos(env.types, st1, st, x);
    match x
    case SnapshotPart(t, vals) =>
      assert rest == [0, 0, 0, 0] + EncodeI64(t, env.be) + EncodeValues(env.types, 0, vals);
      SnapshotIs(env, st1, x);
    case CyclePart(t, cs, ts) =>
      assert rest == EncodeI64(t, env.be) + (EncodeChanges(env.types, 0, cs) + EncodeTicks(env.types, ts));
      CycleIs(env, st1, x);
    case DirectoryPart(head, entries) =>
      assert rest == head + EncodeI32(|entries|, env.be) + EncodeEntries(entries);
      DirectoryIs(env, st1, x);
    case TailerPart(bytes) =>
  }

  /** From the encoding of any parts at the end of a file, ghw_read_dump plays back exactly their times
      and values in order, and succeeds at the end of the file. */
  lemma {:induction false} DumpIs(env: Env, st: St, xs: seq<Part>)
    requires Ready(env, st) && |env.types| <= 0x8000_0000 && ValidParts(env.types, xs)
    requires At(env.data, st.pos, EncodeParts(env, xs)) && st.pos + |EncodeParts(env, xs)| == |env.data|
    ensures Dump(env, st) == Ret(0, PlayParts(env.types, st, xs).(pos := |env.data|))
    decreases |xs|
  {
    hide Section, EncodePart, ValidPart, PlayPart;
    if xs != [] {
      AtSplit(env.data, st.pos, EncodePart(env, xs[0]), EncodeParts(env, xs[1..]));
      PartIs(env, st, xs[0]);
      var st' := Section(env, st).st;
      DumpIs(env, st', xs[1..]);
      PlayPartsPos(env.types, st', PlayPart(env.types, st, xs[0]), xs[1..]);
    }
  }

  /** So does calling ghw_read_sm until the end of the file. */
  lemma StepsAre(env: Env, st: St, xs: seq<Part>)
    requires Ready(env, st) && |env.types| <= 0x8000_0000 && ValidParts(env.types, xs)
    requires At(env.data, st.pos, EncodeParts(env, xs)) && st.pos + |EncodeParts(env, xs)| == |env.data|
    ensures Steps(env, st, Init) == Ret(EOF, PlayParts(env.types, st, xs).(pos := |env.data|))
  {
    hide Steps, Dump, PlayParts, EncodeParts;
    DumpIs(env, st, xs);
    StepsDump(env, st, Init);
  }

  // ---- Call by call -----------------------------------------------------

  /** What a call of ghw_read_sm returns, and what it does. */
  datatype Call = Call(code: int, events: seq<Event>)

  /** One call for each tick; its time is the one before plus what has passed. */
  function TickCalls(now: int, ts: seq<Tick>): seq<Call>
    decreases |ts|
  {
    if ts == [] then []
    else
      var later := now + ts[0].dt;
      [Call(2, [Time(later)] + Updates(ts[0].cs))] + TickCalls(later, ts[1..])
  }

  /** One call for a snapshot, one for each cycle, and none for a directory or a tailer. */
  function PartCalls(types: seq<Option>, x: Part): seq<Call>
    requires ValidPart(types, x)
  {
    match x
    case SnapshotPart(t, vals) => [Call(1, [Time(t)] + Values(types, 0, vals))]
    case CyclePart(t, cs, ts) => [Call(2, [Time(t)] + Updates(cs))] + TickCalls(t, ts)
    case _ => []
  }

  function AllCalls(types: seq<Option>, xs: seq<Part>): seq<Call>
    requires ValidParts(types, xs)
  {
    if xs == [] then [] else PartCalls(types, xs[0]) + AllCalls(types, xs[1..])
  }

  /** The successive calls are these, and then the end of the file is reached. */
  ghost predicate CallsAre(env: Env, st: St, mode: Mode, calls: seq<Call>)
    requires Ready(env, st)
    decreases |calls|
  {
    var s := Sm(env, st, mode);
    if calls == [] then s.r == Ret(-2, st.(pos := |env.data|))
    else
      && s.r.Ret? && s.r.code == calls[0].code && s.r.st.log == st.log + calls[0].events
      && CallsAre(env, s.r.st, s.mode, calls[1..])
  }

  /** The next call starts somewhere else, or in another mode, without any other difference. */
  lemma CallsFrom(env: Env, st: St, mode: Mode, st': St, mode': Mode, calls: seq<Call>)
    requires Ready(env, st) && Ready(env, st') && Sm(env, st, mode) == Sm(env, st', mode')
    requires st == st'.(pos := st.pos) && CallsAre(env, st', mode', calls)
    ensures CallsAre(env, st, mode, calls)
  {
    hide Sm;
  }

  lemma CallsCons(env: Env, st: St, mode: Mode, st': St, mode': Mode, code: int, events: seq<Event>, calls: seq<Call>)
    requires Ready(env, st) && Ready(env, st') && Sm(env, st, mode) == Step(Ret(code, st'), mode')
    requires st'.log == st.log + events && CallsAre(env, st', mode', calls)
    ensures CallsAre(env, st, mode, [Call(code, events)] + calls)
  {
    hide Sm;
    assert ([Call(code, events)] + calls)[1..] == calls;
  }

  /** The call for a tick. */
  lemma TickCalled(env: Env, st: St, t: Tick, rest: seq<Byte>)
    requires Ready(env, st) && |env.types| <= 0x8000_0000 && InWidth(t.dt, 64) && t.dt != -1
    requires ValidChanges(env.types, 0, t.cs)
    requires At(env.data, st.pos, EncodeS(t.dt) + (EncodeChanges(env.types, 0, t.cs) + rest))
    ensures var now := st.time + t.dt;
            var pos := st.pos + |EncodeS(t.dt)| + |EncodeChanges(env.types, 0, t.cs)|;
            var st' := St(pos, now, st.log + ([Time(now)] + Updates(t.cs)));
            Sm(env, st, Cycle) == Step(Ret(2, st'), Cycle) && Ready(env, st') && At(env.data, pos, rest)
  {
    hide EncodeS, EncodeChanges, CycleNext, CycleCont, CycleRest, Updates;
    TickIs(env, st, t, rest);
    var now := st.time + t.dt;
    assert st.log + ([Time(now)] + Updates(t.cs)) == st.log + [Time(now)] + Updates(t.cs);
  }

  /** The end of the ticks: the next section is read in the same call. */
  lemma LastTickCalled(env: Env, st: St, more: seq<Byte>)
    requires Ready(env, st) && At(env.data, st.pos, EncodeTicks(env.types, []) + more)
    ensures var st' := st.(pos := st.pos + |EncodeTicks(env.types, [])|);
            Ready(env, st') && At(env.data, st'.pos, more) && Sm(env, st, Cycle) == Sm(env, st', Sect)
  {
    hide EncodeS, CycleNext, CycleEnd, CycleRest;
    AtSplit(env.data, st.pos, EncodeS(-1) + [69, 67, 89, 0], more);
    NoMoreTicks(env, st);
  }

  lemma TicksCons(types: seq<Option>, ts: seq<Tick>, more: seq<Byte>)
    requires ts != [] && ValidTicks(types, ts)
    ensures InWidth(ts[0].dt, 64) && ts[0].dt != -1 && ValidChanges(types, 0, ts[0].cs) && ValidTicks(types, ts[1..])
    ensures var t, now, rest := EncodeS(ts[0].dt), EncodeChanges(types, 0, ts[0].cs), EncodeTicks(types, ts[1..]);
            && EncodeTicks(types, ts) + more == t + (now + (rest + more))
            && |EncodeTicks(types, ts)| == |t| + |now| + |rest|
  {
    hide EncodeS, EncodeChanges, ValidChanges;
    Assoc(EncodeS(ts[0].dt), EncodeChanges(types, 0, ts[0].cs), EncodeTicks(types, ts[1..]), more);
  }

  lemma {:induction false} TicksCalled(env: Env, st: St, ts: seq<Tick>, xs: seq<Part>)
    requires Ready(env, st) && |env.types| <= 0x8000_0000 && ValidTicks(env.types, ts) && ValidParts(env.types, xs)
    requires At(env.data, st.pos, EncodeTicks(env.types, ts) + EncodeParts(env, xs))
    requires st.pos + |EncodeTicks(env.types, ts)| + |EncodeParts(env, xs)| == |env.data|
    ensures CallsAre(env, st, Cycle, TickCalls(st.time, ts) + AllCalls(env.types, xs))
    decreases |xs|, 1, |ts|
  {
    hide Sm, EncodeS, EncodeChanges, EncodeTicks, EncodeParts, AllCalls, CallsAre, Updates, ValidPart, ValidTicks;
    var more := EncodeParts(env, xs);
    if ts == [] {
      LastTickCalled(env, st, more);
      var st' := st.(pos := st.pos + |EncodeTicks(env.types, [])|);
      PartsCalled(env, st', Sect, xs);
      CallsFrom(env, st, Cycle, st', Sect, AllCalls(env.types, xs));
      assert TickCalls(st.time, ts) + AllCalls(env.types, xs) == AllCalls(env.types, xs);
    } else {
      var t, ts' := ts[0], ts[1..];
      TicksCons(env.types, ts, more);
      TickCalled(env, st, t, EncodeTicks(env.types, ts') + more);
      var st', events := Sm(env, st, Cycle).r.st, [Time(st.time + t.dt)] + Updates(t.cs);
      TicksCalled(env, st', ts', xs);
      CallsCons(env, st, Cycle, st', Cycle, 2, events, TickCalls(st'.time, ts') + AllCalls(env.types, xs));
      Assoc([Call(2, events)], TickCalls(st'.time, ts'), AllCalls(env.types, xs), []);
    }
  }

  lemma AtJoin(data: seq<Byte>, pos: nat, a: seq<Byte>, b: seq<Byte>)
    requires At(data, pos, a) && At(data, pos + |a|, b)
    ensures At(data, pos, a + b)
  {
    assert data[pos..pos + |a + b|] == data[pos..pos + |a|] + data[pos + |a|..pos + |a| + |b|];
  }

  /** A call at a part that is not a cycle: it returns after a snapshot and goes on after the others. */
  lemma HdrIs(env: Env, st: St, mode: Mode, x: Part)
    requires Ready(env, st) && |env.types| <= 0x8000_0000 && ValidPart(env.types, x) && !x.CyclePart? && !mode.Cycle?
    requires At(env.data, st.pos, EncodePart(env, x))
    ensures Available(env, st, 4) && Section(env, st).Ret?
    ensures x.SnapshotPart? ==>
              && Sm(env, st, mode) == Step(Ret(1, Section(env, st).st), Sect) && |x.vals| == |env.types|
              && Section(env, st).st.log == st.log + ([Time(x.time)] + Values(env.types, 0, x.vals))
    ensures !x.SnapshotPart? ==> Sm(env, st, mode) == Sm(env, Section(env, st).st, mode)
  {
    hide Snapshot, Directory, Tailer, EncodePart, Values;
    MarkIs(env, st, x);
    PartIs(env, st, x);
    if x.SnapshotPart? {
      Assoc(st.log, [Time(x.time)], Values(env.types, 0, x.vals), []);
    }
  }

  /** The call at the start of a cycle section. */
  lemma StartIs(env: Env, st: St, mode: Mode, x: Part)
    requires Ready(env, st) && |env.types| <= 0x8000_0000 && ValidPart(env.types, x) && x.CyclePart? && !mode.Cycle?
    requires At(env.data, st.pos, EncodePart(env, x))
    ensures var now := |EncodeChanges(env.types, 0, x.cs)|;
            var st' := St(st.pos + 12 + now, x.time, st.log + [Time(x.time)] + Updates(x.cs));
            && Sm(env, st, mode) == Step(Ret(2, st'), Cycle)
            && Ready(env, st') && At(env.data, st'.pos, EncodeTicks(env.types, x.ts))
            && |EncodePart(env, x)| == 12 + now + |EncodeTicks(env.types, x.ts)|
  {
    hide CycleFirst, EncodeChanges, EncodeTicks, Updates, EncodeI64;
    MarkIs(env, st, x);
    assert EncodePart(env, x)[4..] == EncodeI64(x.time, env.be)
        + (EncodeChanges(env.types, 0, x.cs) + EncodeTicks(env.types, x.ts));
    FirstIs(env, Skip(env, st, 4), x);
  }

  lemma {:induction false} CycleCalled(env: Env, st: St, mode: Mode, x: Part, xs: seq<Part>)
    requires Ready(env, st) && |env.types| <= 0x8000_0000 && ValidPart(env.types, x) && ValidParts(env.types, xs)
    requires x.CyclePart? && !mode.Cycle? && At(env.data, st.pos, EncodePart(env, x))
    requires At(env.data, st.pos + |EncodePart(env, x)|, EncodeParts(env, xs))
    requires st.pos + |EncodePart(env, x)| + |EncodeParts(env, xs)| == |env.data|
    ensures CallsAre(env, st, mode, PartCalls(env.types, x) + AllCalls(env.types, xs))
    decreases |xs|, 2, 0
  {
    hide Sm, EncodePart, EncodeParts, EncodeTicks, EncodeChanges, AllCalls, TickCalls, CallsAre, Updates, ValidPart;
    CycleTicks(env.types, x);
    StartIs(env, st, mode, x);
    var st', events := Sm(env, st, mode).r.st, [Time(x.time)] + Updates(x.cs);
    AtJoin(env.data, st'.pos, EncodeTicks(env.types, x.ts), EncodeParts(env, xs));
    TicksCalled(env, st', x.ts, xs);
    assert st'.log == st.log + events;
    CallsCons(env, st, mode, st', Cycle, 2, events, TickCalls(x.time, x.ts) + AllCalls(env.types, xs));
    Assoc([Call(2, events)], TickCalls(x.time, x.ts), AllCalls(env.types, xs), []);
  }

  lemma CycleTicks(types: seq<Option>, x: Part)
    requires ValidPart(types, x) && x.CyclePart?
    ensures ValidTicks(types, x.ts)
  {
  }

  lemma EndCalled(env: Env, st: St, mode: Mode)
    requires Ready(env, st) && !mode.Cycle? && st.pos == |env.data|
    ensures CallsAre(env, st, mode, [])
  {
  }

  /** From the encoding of any parts at the end of a file, the successive calls of ghw_read_sm are one
      for each snapshot, first cycle and tick, each with its own events, until the end of the file. */
  lemma {:induction false} PartsCalled(env: Env, st: St, mode: Mode, xs: seq<Part>)
    requires Ready(env, st) && |env.types| <= 0x8000_0000 && ValidParts(env.types, xs) && !mode.Cycle?
    requires At(env.data, st.pos, EncodeParts(env, xs)) && st.pos + |EncodeParts(env, xs)| == |env.data|
    ensures CallsAre(env, st, mode, AllCalls(env.types, xs))
    decreases |xs|, 0, 0
  {
    hide Sm, CallsAre, EncodePart, ValidPart, TickCalls, Section, Values;
    if xs == [] {
      EndCalled(env, st, mode);
    } else {
      var x, xs', part, more := xs[0], xs[1..], EncodePart(env, xs[0]), EncodeParts(env, xs[1..]);
      AtSplit(env.data, st.pos, part, more);
      if x.CyclePart? {
        CycleCalled(env, st, mode, x, xs');
      } else {
        HdrIs(env, st, mode, x);
        PartIs(env, st, x);
        var st', calls := Section(env, st).st, AllCalls(env.types, xs');
        if x.SnapshotPart? {
          var events := [Time(x.time)] + Values(env.types, 0, x.vals);
          PartsCalled(env, st', Sect, xs');
          CallsCons(env, st, mode, st', Sect, 1, events, calls);
        } else {
          PartsCalled(env, st', mode, xs');
          CallsFrom(env, st, mode, st', mode, calls);
          assert PartCalls(env.types, x) + calls == calls;
        }
      }
    }
  }
}
