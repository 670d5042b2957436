/** The value part of a GHW file: snapshots and cycles, read section by section by a state machine
    (ghw_read_sm) or all at once (ghw_read_dump). */
module GhwWaves {
  import opened Vectors
  import opened GhwStream
  import opened GhwTypes
  import opened GhwValues
  import opened GhwCache

  /** What a reader does to the handler, in order: values of signals and times. */
  datatype Event = Update(id: nat, v: Value) | Time(t: int)

  /** What does not change while values are read: the file, its byte order, and the kind of the base
      type of each basic signal, None for those without a type.  Signal 0 does not exist. */
  datatype Env = Env(data: seq<Byte>, be: bool, types: seq<Option>)

  /** What does: the position, the time, and everything done so far. */
  datatype St = St(pos: nat, time: int, log: seq<Event>)

  /** How a reader ends: with a C return code, by ghw_error_exit, or outside the C language. */
  datatype Res = Ret(code: int, st: St) | ExitAt(st: St) | UndefinedAt(st: St)

  predicate Ready(env: Env, st: St) {
    st.pos <= |env.data| && |env.types| >= 1
  }

  /** Readers never move backwards. */
  predicate Forward(env: Env, st: St, r: Res) {
    st.pos <= r.st.pos <= |env.data|
  }

  // Section marks.
  const SNP: seq<Byte> := [83, 78, 80, 0]
  const CYC: seq<Byte> := [67, 89, 67, 0]
  const DIR: seq<Byte> := [68, 73, 82, 0]
  const TAI: seq<Byte> := [84, 65, 73, 0]
  const ESN: seq<Byte> := [69, 83, 78, 0]
  const ECY: seq<Byte> := [69, 67, 89, 0]
  const EOD: seq<Byte> := [69, 79, 68, 0]

  // ---- What the readers do, on values -----------------------------------

  /** The bytes of an fread, if they are all there. */
  predicate Available(env: Env, st: St, n: nat) {
    st.pos + n <= |env.data|
  }

  function Bytes(env: Env, st: St, n: nat): seq<Byte>
    requires Available(env, st, n)
  {
    env.data[st.pos..st.pos + n]
  }

  function Skip(env: Env, st: St, n: nat): St {
    st.(pos := FReadEnd(env.data, st.pos, n))
  }

  /** What has been read ends with these bytes. */
  predicate Ended(env: Env, r: Res, mark: seq<Byte>) {
    |mark| <= r.st.pos && At(env.data, r.st.pos - |mark|, mark)
  }

  predicate Succeeded(r: Res) {
    r.Ret? && r.code == 0
  }

  /** An end mark: 0 when it is there. */
  function EndMark(env: Env, st: St, mark: seq<Byte>): (r: Res)
    requires Ready(env, st)
    ensures Forward(env, st, r) && (r.Ret? ==> -1 <= r.code <= 0)
    ensures |mark| == 4 ==> (Succeeded(r) <==> At(env.data, st.pos, mark)) && (Succeeded(r) ==> Ended(env, r, mark))
  {
    Ret(if Available(env, st, 4) && Bytes(env, st, 4) == mark then 0 else -1, Skip(env, st, 4))
  }

  function Updated(st: St, id: nat, v: Value, pos: nat): Res {
    Ret(0, st.(pos := pos, log := st.log + [Update(id, v)]))
  }

  /** ghw_read_signal_value */
  function SignalValue(env: Env, st: St, id: nat): (r: Res)
    requires Ready(env, st) && id < |env.types|
    ensures Forward(env, st, r) && (r.Ret? ==> -1 <= r.code <= 0)
  {
    if env.types[id].None? then ExitAt(st)
    else
      match ValueAt(env.data, st.pos, env.types[id].value)
      case Ok(v, p) => Updated(st, id, v, p)
      case Fail(p) => Ret(-1, st.(pos := p))
      case Exit => ExitAt(st)
      case Undefined => UndefinedAt(st)
  }

  /** The values of all signals with a type, from signal i on. */
  function SnapshotFrom(env: Env, st: St, i: nat): (r: Res)
    requires Ready(env, st) && i <= |env.types|
    ensures Forward(env, st, r) && (r.Ret? ==> -1 <= r.code <= 0)
    ensures Succeeded(r) ==> Ended(env, r, [69, 83, 78, 0])
    decreases |env.types| - i
  {
    if i == |env.types| then EndMark(env, st, ESN)
    else if env.types[i].None? then SnapshotFrom(env, st, i + 1)
    else
      var r := SignalValue(env, st, i);
      if r.Ret? && r.code == 0 then SnapshotFrom(env, r.st, i + 1) else r
  }

  function SetTime(st: St, t: int): St {
    st.(time := t, log := st.log + [Time(t)])
  }

  function Snapshot(env: Env, st: St): (r: Res)
    requires Ready(env, st)
    ensures Forward(env, st, r) && (r.Ret? ==> -1 <= r.code <= 0)
    ensures Succeeded(r) ==> At(env.data, st.pos, [0, 0, 0, 0]) && Ended(env, r, [69, 83, 78, 0])
  {
    if !Available(env, st, 12) || Bytes(env, st, 12)[..4] != [0, 0, 0, 0] then Ret(-1, Skip(env, st, 12))
    else
      HeaderStart(env.data, st.pos, 12);
      SnapshotFrom(env, SetTime(Skip(env, st, 12), GetI64(Bytes(env, st, 12)[4..], env.be)), 0)
  }

  function CycleStart(env: Env, st: St): (r: Res)
    requires Ready(env, st)
    ensures Forward(env, st, r) && (r.Ret? ==> -1 <= r.code <= 0)
  {
    if !Available(env, st, 8) then Ret(-1, Skip(env, st, 8))
    else Ret(0, SetTime(Skip(env, st, 8), GetI64(Bytes(env, st, 8), env.be)))
  }

  /** Error and abort pass through; success becomes `code`. */
  function OnSuccess(r: Res, code: int): Res {
    if Succeeded(r) then Ret(code, r.st) else r
  }

  /** The changes of one cycle, after signal i at cache position p. */
  function CycleContFrom(env: Env, st: St, i: nat, p: nat): (r: Res)
    requires Ready(env, st)
    ensures Forward(env, st, r) && (r.Ret? ==> -1 <= r.code <= 0) && (Succeeded(r) ==> st.pos < r.st.pos)
    decreases |env.data| - st.pos
  {
    match Uleb(env.data, st.pos)
    case Fail(q) => Ret(-1, st.(pos := q))
    case Ok(d, q) => (
      var st' := st.(pos := q);
      if d == 0 then Ret(0, st')
      else
        match Select(env.types, i, p, d)
        case Invalid => Ret(-1, st')
        case OutOfCache => UndefinedAt(st')
        case Selected(j, p') =>
          var r := SignalValue(env, st', j);
          if Succeeded(r) then CycleContFrom(env, r.st, j, p') else r)
    case _ => UndefinedAt(st)
  }

  function CycleCont(env: Env, st: St): (r: Res)
    requires Ready(env, st)
    ensures Forward(env, st, r) && (r.Ret? ==> -1 <= r.code <= 0) && (Succeeded(r) ==> st.pos < r.st.pos)
  {
    CycleContFrom(env, st, 0, 0)
  }

  /** 1: another cycle follows, at a later time; 0: there is none. */
  function CycleNext(env: Env, st: St): (r: Res)
    requires Ready(env, st)
    ensures Forward(env, st, r) && (r.Ret? ==> -1 <= r.code <= 1) && (r.Ret? && r.code >= 0 ==> st.pos < r.st.pos)
  {
    match Sleb(env.data, st.pos, 64)
    case Fail(q) => Ret(-1, st.(pos := q))
    case Ok(d, q) => if d == -1 then Ret(0, st.(pos := q)) else Ret(1, SetTime(st.(pos := q), st.time + d))
    case _ => UndefinedAt(st)
  }

  function CycleEnd(env: Env, st: St): (r: Res)
    requires Ready(env, st)
    ensures Forward(env, st, r) && (r.Ret? ==> -1 <= r.code <= 0)
    ensures Succeeded(r) ==> Ended(env, r, [69, 67, 89, 0])
  {
    EndMark(env, st, ECY)
  }

  function DirectoryEntries(env: Env, st: St, n: int): (r: Res)
    requires Ready(env, st)
    ensures Forward(env, st, r) && (r.Ret? ==> -1 <= r.code <= 0)
    ensures Succeeded(r) ==> Ended(env, r, [69, 79, 68, 0])
    decreases n
  {
    if n <= 0 then EndMark(env, st, EOD)
    else if !Available(env, st, 8) then Ret(-1, Skip(env, st, 8))
    else DirectoryEntries(env, Skip(env, st, 8), n - 1)
  }

  function Directory(env: Env, st: St): (r: Res)
    requires Ready(env, st)
    ensures Forward(env, st, r) && (r.Ret? ==> -1 <= r.code <= 0)
    ensures Succeeded(r) ==> Ended(env, r, [69, 79, 68, 0])
  {
    if !Available(env, st, 8) then Ret(-1, Skip(env, st, 8))
    else DirectoryEntries(env, Skip(env, st, 8), GetI32(Bytes(env, st, 8)[4..], env.be))
  }

  function Tailer(env: Env, st: St): (r: Res)
    requires Ready(env, st)
    ensures Forward(env, st, r) && (r.Ret? ==> -1 <= r.code <= 0)
  {
    Ret(if Available(env, st, 8) then 0 else -1, Skip(env, st, 8))
  }

  // ---- A cycle, without the cache ----------------------------------------

  /** The cycle reader as the format means it: each delta walks over that many signals with a type. */
  function CycleByWalk(env: Env, st: St, i: nat): (r: Res)
    requires Ready(env, st)
    ensures Forward(env, st, r)
    decreases |env.data| - st.pos
  {
    match Uleb(env.data, st.pos)
    case Fail(q) => Ret(-1, st.(pos := q))
    case Ok(d, q) => (
      var st', j := st.(pos := q), Advance(env.types, i, d);
      if d == 0 then Ret(0, st')
      else if j == 0 || j >= |env.types| then Ret(-1, st')
      else
        var r := SignalValue(env, st', j);
        if Succeeded(r) then CycleByWalk(env, r.st, j) else r)
    case _ => UndefinedAt(st)
  }

  /** All deltas of a cycle are in reach, as far as it is read. */
  predicate DeltasInReach(env: Env, st: St, i: nat, p: nat)
    requires Ready(env, st)
    decreases |env.data| - st.pos
  {
    match Uleb(env.data, st.pos)
    case Ok(d, q) => d > 0 ==> (
      && InReach(env.types, i, p, d)
      && var sel := Select(env.types, i, p, d);
         sel.Selected? ==>
           var r := SignalValue(env, st.(pos := q), sel.i);
           Succeeded(r) ==> DeltasInReach(env, r.st, sel.i, sel.p))
    case _ => true
  }

  /** A whole cycle through the fast path or the cache is the cycle that walks. */
  lemma {:induction false} CacheRefinesWalk(env: Env, st: St, i: nat, p: nat)
    requires Ready(env, st) && |env.types| <= 0x1_0000_0000 && DeltasInReach(env, st, i, p)
    requires InStep(env.types, i, p)
    ensures CycleContFrom(env, st, i, p) == CycleByWalk(env, st, i)
    decreases |env.data| - st.pos
  {
    hide SignalValue, Select, NoNulls, CacheOf, Advance, Uleb, InReach, InStep;
    var u := Uleb(env.data, st.pos);
    if u.Ok? && u.value > 0 {
      UlebWord(env.data, st.pos);
      SelectIsWalk(env.types, i, p, u.value);
      if Advance(env.types, i, u.value) != 0 {
        StaysInStep(env.types, i, p, u.value);
        AdvanceLater(env.types, i, u.value);
      }
      var sel, st' := Select(env.types, i, p, u.value), st.(pos := u.pos);
      if sel.Selected? {
        var r := SignalValue(env, st', sel.i);
        if Succeeded(r) { CacheRefinesWalk(env, r.st, sel.i, sel.p); }
      }
    }
  }

  /** What a cycle does to the log: values of signals with types, in strictly increasing order. */
  ghost predicate Ordered(types: seq<Option>, before: seq<Event>, after: seq<Event>, i: nat) {
    && before <= after
    && (forall k :: |before| <= k < |after| ==>
          after[k].Update? && i < after[k].id < |types| && types[after[k].id].Some?)
    && (forall k, k' :: |before| <= k < k' < |after| ==>
        after[k].Update? && after[k'].Update? && after[k].id < after[k'].id)
  }

  lemma {:induction false} WalkOrdered(env: Env, st: St, i: nat)
    requires Ready(env, st)
    ensures Ordered(env.types, st.log, CycleByWalk(env, st, i).st.log, i)
    decreases |env.data| - st.pos
  {
    hide SignalValue, Advance, Uleb;
    var u := Uleb(env.data, st.pos);
    if u.Ok? && u.value > 0 {
      AdvanceLater(env.types, i, u.value);
      var j, st' := Advance(env.types, i, u.value), st.(pos := u.pos);
      if j != 0 {
        SignalLogs(env, st', j);
        var r := SignalValue(env, st', j);
        if Succeeded(r) { WalkOrdered(env, r.st, j); }
      }
    }
  }

  lemma SignalLogs(env: Env, st: St, id: nat)
    requires Ready(env, st) && id < |env.types|
    ensures var r := SignalValue(env, st, id);
            if Succeeded(r) then
              r.st.log == st.log + [r.st.log[|st.log|]] && r.st.log[|st.log|].Update? && r.st.log[|st.log|].id == id
            else r.st.log == st.log
  {
  }

  // ---- Section by section -----------------------------------------------

  // Return codes of the state machine.
  const EOF := -2
  const SNAPSHOT := 1
  const CYCLE := 2
  const OTHER := 3

  datatype Mode = Init | Sect | Cycle

  datatype Step = Step(r: Res, mode: Mode)

  function CycleFirst(env: Env, st: St): (r: Res)
    requires Ready(env, st)
    ensures Forward(env, st, r) && (r.Ret? ==> -1 <= r.code <= 0)
  {
    var r := CycleStart(env, st);
    if Succeeded(r) then CycleCont(env, r.st) else r
  }

  function SmHdr(env: Env, st: St): (r: Res)
    requires Ready(env, st)
    ensures Forward(env, st, r)
    ensures r.Ret? ==> r.code in {-2, -1, 1, 2, 3} && (r.code > 0 ==> st.pos < r.st.pos)
  {
    var st1 := Skip(env, st, 4);
    if !Available(env, st, 4) then Ret(EOF, st1)
    else
      var mark := Bytes(env, st, 4);
      if mark == SNP then OnSuccess(Snapshot(env, st1), SNAPSHOT)
      else if mark == CYC then OnSuccess(CycleFirst(env, st1), CYCLE)
      else if mark == DIR then OnSuccess(Directory(env, st1), OTHER)
      else if mark == TAI then OnSuccess(Tailer(env, st1), OTHER)
      else Ret(-1, st1)
  }

  /** One call of ghw_read_sm.  On every stream a positive code is 1 for a snapshot, and the next call
      starts at a section, or 2 for a cycle, and the next call goes on in its section. */
  function Sm(env: Env, st: St, mode: Mode): (s: Step)
    requires Ready(env, st)
    ensures Forward(env, st, s.r)
    ensures s.r.Ret? ==> s.r.code in {-2, -1, 1, 2} && (s.r.code > 0 ==> st.pos < s.r.st.pos)
    ensures s.r.Ret? && s.r.code == 1 ==> s.mode == Sect
    ensures s.r.Ret? && s.r.code == 2 ==> s.mode == Cycle
    decreases |env.data| - st.pos
  {
    if mode.Cycle? then
      var n := CycleNext(env, st);
      if !n.Ret? || n.code < 0 then Step(n, mode)
      else if n.code == 1 then Step(OnSuccess(CycleCont(env, n.st), CYCLE), mode)
      else
        var e := CycleEnd(env, n.st);
        if Succeeded(e) then Sm(env, e.st, Sect) else Step(e, mode)
    else
      var r := SmHdr(env, st);
      if r.Ret? && r.code == OTHER then Sm(env, r.st, mode)
      else Step(r, if r.Ret? && r.code == SNAPSHOT then Sect else if r.Ret? && r.code == CYCLE then Cycle else mode)
  }

  /** Calling ghw_read_sm until its first result that is not positive. */
  function Steps(env: Env, st: St, mode: Mode): (r: Res)
    requires Ready(env, st)
    ensures Forward(env, st, r) && (r.Ret? ==> -2 <= r.code < 0)
    decreases |env.data| - st.pos
  {
    var s := Sm(env, st, mode);
    if s.r.Ret? && s.r.code > 0 then Steps(env, s.r.st, s.mode) else s.r
  }

  // ---- All at once ------------------------------------------------------

  /** ghw_read_cycle after its first cycle. */
  function CycleRest(env: Env, st: St): (r: Res)
    requires Ready(env, st)
    ensures Forward(env, st, r) && (r.Ret? ==> -1 <= r.code <= 0)
    ensures Succeeded(r) ==> Ended(env, r, [69, 67, 89, 0])
    decreases |env.data| - st.pos
  {
    var n := CycleNext(env, st);
    if !n.Ret? || n.code < 0 then n
    else if n.code == 0 then CycleEnd(env, n.st)
    else
      var r := CycleCont(env, n.st);
      if Succeeded(r) then CycleRest(env, r.st) else r
  }

  function WholeCycle(env: Env, st: St): (r: Res)
    requires Ready(env, st)
    ensures Forward(env, st, r) && (r.Ret? ==> -1 <= r.code <= 0)
    ensures Succeeded(r) ==> Ended(env, r, [69, 67, 89, 0])
  {
    var r := CycleFirst(env, st);
    if Succeeded(r) then CycleRest(env, r.st) else r
  }

  /** One section of ghw_read_dump.  It succeeds at one of four marks only, and with the end mark that
      belongs to it. */
  function Section(env: Env, st: St): (r: Res)
    requires Ready(env, st) && Available(env, st, 4)
    ensures Forward(env, st, r) && (r.Ret? ==> -1 <= r.code <= 0) && st.pos < r.st.pos
    ensures Succeeded(r) ==>
              || (Bytes(env, st, 4) == [83, 78, 80, 0] && Ended(env, r, [69, 83, 78, 0]))
              || (Bytes(env, st, 4) == [67, 89, 67, 0] && Ended(env, r, [69, 67, 89, 0]))
              || (Bytes(env, st, 4) == [68, 73, 82, 0] && Ended(env, r, [69, 79, 68, 0]))
              || Bytes(env, st, 4) == [84, 65, 73, 0]
  {
    var st1, mark := Skip(env, st, 4), Bytes(env, st, 4);
    if mark == SNP then Snapshot(env, st1)
    else if mark == CYC then WholeCycle(env, st1)
    else if mark == DIR then Directory(env, st1)
    else if mark == TAI then Tailer(env, st1)
    else Ret(-1, st1)
  }

  function Dump(env: Env, st: St): (r: Res)
    requires Ready(env, st)
    ensures Forward(env, st, r) && (r.Ret? ==> -1 <= r.code <= 0)
    decreases |env.data| - st.pos
  {
    if !Available(env, st, 4) then Ret(0, Skip(env, st, 4))
    else
      var r := Section(env, st);
      if Succeeded(r) then Dump(env, r.st) else r
  }

  // ---- They agree -------------------------------------------------------

  /** End of file is an error code of the one and success of the other. */
  function Batched(r: Res): Res {
    if r.Ret? && r.code == EOF then Ret(0, r.st) else r
  }

  /** Dump, continued from the middle of a cycle section. */
  function DumpFrom(env: Env, st: St, mode: Mode): Res
    requires Ready(env, st)
  {
    if mode.Cycle? then
      var r := CycleRest(env, st);
      if Succeeded(r) then Dump(env, r.st) else r
    else Dump(env, st)
  }

  /** Reading a file section by section does what reading it all at once does: the same updates of
      signals and times in the same order, the same bytes consumed, the same success, error or
      abort; and this from every state the state machine can be in. */
  lemma {:induction false} StepsDump(env: Env, st: St, mode: Mode)
    requires Ready(env, st)
    ensures Batched(Steps(env, st, mode)) == DumpFrom(env, st, mode)
    decreases |env.data| - st.pos
  {
    hide SmHdr, CycleNext, CycleCont, CycleEnd, CycleFirst, Section;
    if mode.Cycle? {
      var n := CycleNext(env, st);
      if n.Ret? && n.code == 0 {
        var e := CycleEnd(env, n.st);
        if Succeeded(e) { StepsDump(env, e.st, Sect); }
      } else if n.Ret? && n.code == 1 {
        var r := CycleCont(env, n.st);
        if Succeeded(r) { StepsDump(env, r.st, mode); }
      }
    } else {
      var r := SmHdr(env, st);
      HdrSection(env, st);
      if r.Ret? && r.code > 0 {
        StepsDump(env, r.st, if r.code == CYCLE then Cycle else if r.code == SNAPSHOT then Sect else mode);
      }
    }
  }

  lemma HdrSection(env: Env, st: St)
    requires Ready(env, st)
    ensures var r := SmHdr(env, st);
            if !Available(env, st, 4) then r == Ret(EOF, Skip(env, st, 4))
            else if !r.Ret? || r.code < 0 then Section(env, st) == r && (r.Ret? ==> r.code != EOF)
            else if r.code == CYCLE then Section(env, st) == CycleRest(env, r.st)
            else (r.code == SNAPSHOT || r.code == OTHER) && Section(env, st) == Ret(0, r.st)
  {
  }
}
