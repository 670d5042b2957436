/** The readers of the value part of a GHW file, on a stream and a handler that they update in
    place. */
module GhwWaveReader {
  import opened Vectors
  import opened GhwStream
  import opened GhwTypes
  import opened GhwValues
  import opened GhwCache
  import opened GhwWaves

  datatype End = Returned(code: int) | Exited | Meaningless

  /** The values of the signals after the events of a log. */
  function Replay(init: seq<Value>, log: seq<Event>): (vals: seq<Value>)
    ensures |vals| == |init|
    decreases |log|
  {
    if log == [] then init
    else
      var vals := Replay(init, log[..|log| - 1]);
      match log[|log| - 1]
      case Update(id, v) => if id < |vals| then vals[id := v] else vals
      case Time(_) => vals
  }

  lemma ReplayMore(init: seq<Value>, log: seq<Event>, e: Event)
    ensures Replay(init, log + [e]) ==
            if e.Update? && e.id < |init| then Replay(init, log)[e.id := e.v] else Replay(init, log)
  {
    assert (log + [e])[..|log|] == log;
  }

  /** Each signal has the value of its last update, event k, or its first value if there is none. */
  lemma {:induction false} ReplayLast(init: seq<Value>, log: seq<Event>, id: nat, k: int)
    requires id < |init| && -1 <= k < |log| && (k >= 0 ==> log[k].Update? && log[k].id == id)
    requires forall j :: k < j < |log| && log[j].Update? ==> log[j].id != id
    ensures Replay(init, log)[id] == if k == -1 then init[id] else log[k].v
    decreases |log|
  {
    if log != [] && k < |log| - 1 {
      ReplayLast(init, log[..|log| - 1], id, k);
    }
  }

  class Waves {
    const s: Stream
    const be: bool
    const types: seq<Option>
    var sigsNoNull: bool
    var cache: array?<nat>
    const vals: array<Value>
    var snapTime: int
    ghost const init: seq<Value>
    ghost var log: seq<Event>

    ghost function TheEnv(): Env {
      Env(s.data, be, types)
    }

    ghost function State(): St
      reads this, s
    {
      St(s.pos, snapTime, log)
    }

    ghost predicate Valid()
      reads this, s, vals, cache
    {
      && s.Valid() && types != []
      && (sigsNoNull <==> NoNulls(types))
      && (cache != null ==> cache[..] == CacheOf(types))
      && |types| == |init| && vals[..] == Replay(init, log)
    }

    /** The outcome and the new state are those of `r`. */
    ghost predicate Ends(e: End, r: Res)
      reads this, s
    {
      match r
      case Ret(c, st) => e == Returned(c) && State() == st
      case ExitAt(st) => e == Exited && State() == st
      case UndefinedAt(_) => e == Meaningless
    }

    /** The end of ghw_read_hie: the signals have their types, and no value has been read. */
    constructor (s: Stream, be: bool, types: seq<Option>, vals: array<Value>)
      requires s.Valid() && types != [] && vals.Length == |types|
      ensures Valid() && this.s == s && this.be == be && this.types == types && this.vals == vals
      ensures log == [] && init == vals[..] && snapTime == 0 && cache == null
    {
      this.s, this.be, this.types, this.vals := s, be, types, vals;
      sigsNoNull, cache, snapTime := true, null, 0;
      init, log := vals[..], [];
      new;
      sigsNoNull := HasNoNulls(types);
    }

    /** An fread of four bytes that must be the given mark. */
    method ReadMark(mark: seq<Byte>) returns (e: End)
      requires Valid()
      modifies this, s, vals
      ensures Valid() && Ends(e, EndMark(TheEnv(), old(State()), mark))
    {
      var ok, hdr := s.FRead(4);
      if !ok || hdr != mark {
        return Returned(-1);
      }
      return Returned(0);
    }

    /** ghw_read_signal_value */
    method ReadSignalValue(id: nat) returns (e: End)
      requires Valid() && id < |types|
      modifies this, s, vals
      ensures Valid() && Ends(e, SignalValue(TheEnv(), old(State()), id))
    {
      hide Replay, ValueAt, CacheOf, NoNulls;
      if types[id].None? {
        return Exited;
      }
      var r := ReadValue(s, types[id].value);
      if !r.Ok? {
        return if r.Fail? then Returned(-1) else if r.Exit? then Exited else Meaningless;
      }
      ReplayMore(init, log, Update(id, r.value));
      vals[id] := r.value;
      log := log + [Update(id, r.value)];
      return Returned(0);
    }

    method StoreTime(t: int)
      requires Valid()
      modifies this, s, vals
      ensures Valid() && State() == SetTime(old(State()), t)
    {
      ReplayMore(init, log, Time(t));
      snapTime := t;
      log := log + [Time(t)];
    }

    method ReadSnapshot() returns (e: End)
      requires Valid()
      modifies this, s, vals
      ensures Valid() && Ends(e, Snapshot(TheEnv(), old(State())))
    {
      hide Replay, SignalValue, CacheOf, NoNulls;
      ghost var env, st := TheEnv(), State();
      var ok, hdr := s.FRead(12);
      if !ok || hdr[..4] != [0, 0, 0, 0] {
        return Returned(-1);
      }
      StoreTime(GetI64(hdr[4..], be));
      for i := 0 to |types|
        invariant Valid() && SnapshotFrom(env, State(), i) == Snapshot(env, st)
      {
        if types[i].Some? {
          e := ReadSignalValue(i);
          if e != Returned(0) {
            return;
          }
        }
      }
      e := ReadMark(ESN);
    }

    method ReadCycleStart() returns (e: End)
      requires Valid()
      modifies this, s, vals
      ensures Valid() && Ends(e, CycleStart(TheEnv(), old(State())))
    {
      var ok, hdr := s.FRead(8);
      if !ok {
        return Returned(-1);
      }
      StoreTime(GetI64(hdr, be));
      return Returned(0);
    }

    /** The next signal of a cycle: the fast path, or the cache, which is built when it is first needed. */
    method FindSignal(i: nat, p: nat, d: nat) returns (sel: Selection)
      requires Valid()
      modifies this
      ensures Valid() && State() == old(State()) && sel == Select(types, i, p, d)
    {
      hide Replay, CacheOf, NoNulls;
      var i', p' := i, p;
      if sigsNoNull {
        i' := (i + d) % 0x1_0000_0000;
        if i' >= |types| {
          return Invalid;
        }
      } else {
        if cache == null {
          cache := BuildCache(types);
        }
        p' := (p + d) % 0x1_0000_0000;
        if p' >= cache.Length {
          return OutOfCache;
        }
        i' := cache[p'];
      }
      return if i' == 0 then Invalid else Selected(i', p');
    }

    method ReadCycleCont() returns (e: End)
      requires Valid()
      modifies this, s, vals
      ensures Valid() && Ends(e, CycleCont(TheEnv(), old(State())))
    {
      hide Replay, SignalValue, CacheOf, NoNulls, Select, Uleb;
      ghost var env, st := TheEnv(), State();
      var i: nat, p: nat := 0, 0;
      while true
        invariant Valid() && CycleContFrom(env, State(), i, p) == CycleCont(env, st)
        decreases |s.data| - s.pos
      {
        var d := ReadUleb128(s);
        if !d.Ok? {
          return if d.Fail? then Returned(-1) else Meaningless;
        }
        if d.value == 0 {
          return Returned(0);
        }
        var sel := FindSignal(i, p, d.value);
        if sel.Invalid? {
          return Returned(-1);
        }
        if sel.OutOfCache? {
          return Meaningless;
        }
        i, p := sel.i, sel.p;
        e := ReadSignalValue(i);
        if e != Returned(0) {
          return;
        }
      }
    }

    method ReadCycleNext() returns (e: End)
      requires Valid()
      modifies this, s, vals
      ensures Valid() && Ends(e, CycleNext(TheEnv(), old(State())))
    {
      hide Replay, CacheOf, NoNulls, Sleb;
      var d := ReadSleb128(s, 64);
      if !d.Ok? {
        return if d.Fail? then Returned(-1) else Meaningless;
      }
      if d.value == -1 {
        return Returned(0);
      }
      StoreTime(snapTime + d.value);
      return Returned(1);
    }

    method ReadDirectory() returns (e: End)
      requires Valid()
      modifies this, s, vals
      ensures Valid() && Ends(e, Directory(TheEnv(), old(State())))
    {
      hide Replay, CacheOf, NoNulls;
      ghost var env, st := TheEnv(), State();
      var ok, hdr := s.FRead(8);
      if !ok {
        return Returned(-1);
      }
      var n := GetI32(hdr[4..], be);
      var i := 0;
      while i < n
        invariant Valid() && DirectoryEntries(env, State(), n - i) == Directory(env, st)
      {
        ok, hdr := s.FRead(8);
        if !ok {
          return Returned(-1);
        }
        i := i + 1;
      }
      e := ReadMark(EOD);
    }

    method ReadTailer() returns (e: End)
      requires Valid()
      modifies this, s, vals
      ensures Valid() && Ends(e, Tailer(TheEnv(), old(State())))
    {
      var ok, hdr := s.FRead(8);
      return Returned(if ok then 0 else -1);
    }

    method ReadSmHdr() returns (e: End)
      requires Valid()
      modifies this, s, vals
      ensures Valid() && Ends(e, SmHdr(TheEnv(), old(State())))
    {
      hide Replay, CacheOf, NoNulls, Snapshot, CycleStart, CycleCont, Directory, Tailer;
      var ok, hdr := s.FRead(4);
      if !ok {
        return Returned(EOF);
      }
      if hdr == SNP {
        e := ReadSnapshot();
        return if e == Returned(0) then Returned(SNAPSHOT) else e;
      } else if hdr == CYC {
        e := ReadCycleStart();
        if e != Returned(0) {
          return;
        }
        e := ReadCycleCont();
        return if e == Returned(0) then Returned(CYCLE) else e;
      } else if hdr == DIR {
        e := ReadDirectory();
      } else if hdr == TAI {
        e := ReadTailer();
      } else {
        return Returned(-1);
      }
      return if e == Returned(0) then Returned(OTHER) else e;
    }

    /** ghw_read_sm; the mode is the caller's. */
    method ReadSm(sm: Mode) returns (e: End, mode: Mode)
      requires Valid()
      modifies this, s, vals
      ensures Valid() && Ends(e, Sm(TheEnv(), old(State()), sm).r)
      ensures e.Returned? ==> mode == Sm(TheEnv(), old(State()), sm).mode
      ensures e.Returned? ==> e.code in {-2, -1, 1, 2}
      ensures e == Returned(1) ==> mode == Sect
      ensures e == Returned(2) ==> mode == Cycle
    {
      hide Replay, CacheOf, NoNulls, SmHdr, CycleNext, CycleCont;
      ghost var env, st := TheEnv(), State();
      mode := sm;
      while true
        invariant Valid() && Sm(env, State(), mode) == Sm(env, st, sm)
        decreases |s.data| - s.pos
      {
        if mode.Cycle? {
          e := ReadCycleNext();
          if e == Returned(1) {
            e := ReadCycleCont();
            return if e == Returned(0) then Returned(CYCLE) else e, mode;
          }
          if e != Returned(0) {
            return;
          }
          e := ReadMark(ECY);
          if e != Returned(0) {
            return;
          }
          mode := Sect;
        } else {
          e := ReadSmHdr();
          if e == Returned(SNAPSHOT) {
            return e, Sect;
          }
          if e == Returned(CYCLE) {
            return e, Cycle;
          }
          if e != Returned(OTHER) {
            return;
          }
        }
      }
    }

    method ReadCycle() returns (e: End)
      requires Valid()
      modifies this, s, vals
      ensures Valid() && Ends(e, WholeCycle(TheEnv(), old(State())))
    {
      hide Replay, CacheOf, NoNulls, CycleStart, CycleCont, CycleNext;
      ghost var env, st := TheEnv(), State();
      e := ReadCycleStart();
      if e != Returned(0) {
        return;
      }
      while true
        invariant Valid()
        invariant WholeCycle(env, st) ==
                  var r := CycleCont(env, State()); if Succeeded(r) then CycleRest(env, r.st) else r
        decreases |s.data| - s.pos
      {
        e := ReadCycleCont();
        if e != Returned(0) {
          return;
        }
        e := ReadCycleNext();
        if e == Returned(0) {
          break;
        }
        if e != Returned(1) {
          return;
        }
      }
      e := ReadMark(ECY);
    }

    method ReadDump() returns (e: End)
      requires Valid()
      modifies this, s, vals
      ensures Valid() && Ends(e, Dump(TheEnv(), old(State())))
    {
      hide Replay, CacheOf, NoNulls, Snapshot, WholeCycle, Directory, Tailer;
      ghost var env, st := TheEnv(), State();
      while true
        invariant Valid() && Dump(env, State()) == Dump(env, st)
        decreases |s.data| - s.pos
      {
        var ok, hdr := s.FRead(4);
        if !ok {
          return Returned(0);
        }
        if hdr == SNP {
          e := ReadSnapshot();
        } else if hdr == CYC {
          e := ReadCycle();
        } else if hdr == DIR {
          e := ReadDirectory();
        } else if hdr == TAI {
          e := ReadTailer();
        } else {
          return Returned(-1);
        }
        if e != Returned(0) {
          return;
        }
      }
    }
  }
}
