/** `write` and `read` as written, on a wrapping `b`-bit sequence number.  `Read` takes the
    schedule of the writer thread as an argument: before each load of the sequence number,
    and before each word of the copy, the writer performs the next entry of `env`, any
    number of its stores.  A read still running when the schedule ends returns `None`.
 */
module SeqLockCode {
  import opened Words
  import opened Options
  import opened Payloads
  import opened Threads
  import opened SeqLock
  import opened SeqLockTheorems
  import opened SeqLockWrap

  /** One reader step at the end of a run of a cell with a single reader. */
  lemma {:induction false} ReaderStep(cfg: Config, s0: State, t: seq<Act>, m: Cell, c: Reader, log: seq<Got>, j: nat)
    requires Shaped(cfg, s0) && Run(cfg, s0, t) == State(m, [c], log)
    requires OwnProductive(cfg, s0, t, 0) && Productive(cfg, c, j)
    ensures ShapedCell(cfg, m) && OwnProductive(cfg, s0, t + [R(0, j)], 0)
    ensures var (c', got) := ReaderNext(cfg, m, c, j, |log|);
            Run(cfg, s0, t + [R(0, j)]) == State(m, [c'], log + got)
  {
    RunSnoc(cfg, s0, t, R(0, j));
    var (c', got) := ReaderNext(cfg, m, c, j, |log|);
    assert [c][0 := c'] == [c'];
    assert (t + [R(0, j)])[..|t + [R(0, j)]| - 1] == t;
  }

  /** Writer stores leave a productive run productive. */
  lemma {:induction false} ProductiveWrites(cfg: Config, s0: State, t: seq<Act>, acts: seq<WriterAct>)
    requires Shaped(cfg, s0) && OwnProductive(cfg, s0, t, 0)
    ensures OwnProductive(cfg, s0, t + Writes(acts), 0)
    decreases |acts|
  {
    if acts == [] {
      assert t + Writes(acts) == t;
    } else {
      var init, t' := acts[..|acts| - 1], t + Writes(acts);
      ProductiveWrites(cfg, s0, t, init);
      assert Writes(acts)[..|acts| - 1] == Writes(init);
      assert t'[..|t'| - 1] == t + Writes(init);
    }
  }

  class Lock {
    const cfg: Config
    var seqNo: nat
    var data: Payload
    /** Where the writer thread stands, the values it has begun to write, and the reads
        that have returned. */
    var writer: WriterPc
    var vers: seq<Payload>
    ghost var log: seq<Got>

    ghost predicate Valid()
      reads this
    {
      cfg.wd.Bits? && cfg.wd.b > 0 && ShapedCell(cfg, Mem())
    }

    function Mem(): Cell
      reads this
    {
      Cell(seqNo, data, writer, vers)
    }

    /** The cell with one reader, in a call that began when `since` reads had returned. */
    ghost function Sys(pc: ReaderPc, since: nat): State
      reads this
    {
      State(Mem(), [Reader(pc, since)], log)
    }

    constructor (b: nat, initial: Payload)
      requires b > 0
      ensures Valid() && cfg == Config(|initial|, Bits(b))
      ensures Sys(LIdle, 0) == Init(cfg, initial)
    {
      cfg := Config(|initial|, Bits(b));
      seqNo, data, writer, vers, log := 0, initial, WIdle, [initial], [];
    }

    /** The writer thread performs some of its stores. */
    method Interfere(acts: seq<WriterAct>)
      requires Valid()
      modifies `seqNo, `data, `writer, `vers
      ensures Valid() && Mem() == WriterRun(cfg, old(Mem()), acts)
    {
      var m := WriterRun(cfg, Mem(), acts);
      seqNo, data, writer, vers := m.seqNo, m.data, m.writer, m.vers;
    }

    /** `write`: odd number, value word by word, even number. */
    method Write(value: Payload)
      requires Valid() && writer == WIdle && |value| == cfg.nw
      modifies `seqNo, `data, `writer, `vers
      ensures Valid() && writer == WIdle && data == value && vers == old(vers) + [value]
      ensures Mem() == WriterRun(cfg, old(Mem()), SealStores(cfg.nw, value))
    {
      hide WriterRun;
      ghost var m0 := Mem();
      var s := seqNo;
      writer := WLoaded(value, s);
      WriterRunSnoc(cfg, m0, [], Begin(value));
      ghost var acts := [] + [Begin(value)];

      WriterRunSnoc(cfg, m0, acts, Store(0));
      seqNo := Add(cfg.wd, s, 1);
      writer, vers := WCopying(value, s, {}), vers + [value];
      acts := acts + [Store(0)];

      for j := 0 to cfg.nw
        invariant Valid() && vers == old(vers) + [value]
        invariant writer.WCopying? && writer.v == value && writer.s == s
        invariant forall x: nat :: x in writer.done <==> x < j
        invariant forall x :: 0 <= x < j ==> data[x] == value[x]
        invariant acts == CopyStores(value, j)
        invariant Mem() == WriterRun(cfg, m0, acts)
      {
        WriterRunSnoc(cfg, m0, acts, Store(j));
        data := data[j := value[j]];
        writer := WCopying(value, s, writer.done + {j});
        acts := acts + [Store(j)];
      }

      WriterRunSnoc(cfg, m0, acts, Store(0));
      seqNo := Add(cfg.wd, s, 2);
      writer := WIdle;
      acts := acts + [Store(0)];
    }

    /** The writer moves while the reader stands at `pc`. */
    method Await(acts: seq<WriterAct>, ghost s0: State, ghost t: seq<Act>, ghost pc: ReaderPc, ghost since: nat)
      returns (ghost t': seq<Act>)
      requires Valid() && Shaped(cfg, s0) && Run(cfg, s0, t) == Sys(pc, since)
      requires OwnProductive(cfg, s0, t, 0)
      modifies `seqNo, `data, `writer, `vers
      ensures Valid() && t' == t + Writes(acts) && Run(cfg, s0, t') == Sys(pc, since)
      ensures OwnProductive(cfg, s0, t', 0)
    {
      ProductiveWrites(cfg, s0, t, acts);
      hide OwnProductive;
      t' := t + Writes(acts);
      RunAppend(cfg, s0, t, Writes(acts));
      RunWrites(cfg, Sys(pc, since), acts);
      Interfere(acts);
    }

    /** The reader stands at `pc` after the first `tick` entries of the schedule, and every
        step it took did some of its work. */
    ghost predicate At(env: seq<seq<WriterAct>>, tick: nat, s0: State, t: seq<Act>, pc: ReaderPc, since: nat)
      reads this
    {
      && Valid() && Shaped(cfg, s0)
      && tick <= |env| && Follows(env, tick, t)
      && Run(cfg, s0, t) == Sys(pc, since) && OwnProductive(cfg, s0, t, 0)
    }

    /** The first load of the sequence number. */
    method LoadSeq(env: seq<seq<WriterAct>>, tick: nat, ghost s0: State, ghost t: seq<Act>, ghost since: nat)
      returns (s1: int, ghost t': seq<Act>)
      requires tick < |env| && At(env, tick, s0, t, LSeq1, since)
      modifies `seqNo, `data, `writer, `vers
      ensures At(env, tick + 1, s0, t', if s1 % 2 == 1 then LSeq1 else LCopy(s1, map[]), since)
    {
      FollowsSnoc(env, tick, t, 0);
      hide Follows, OwnProductive;
      t' := Await(env[tick], s0, t, LSeq1, since);
      s1 := seqNo;
      ReaderStep(cfg, s0, t', Mem(), Reader(LSeq1, since), log, 0);
      t' := t' + [R(0, 0)];
    }

    /** One word of the volatile read. */
    method ReadWord(j: nat, ghost s1: int, buf: map<nat, Word>,
                    env: seq<seq<WriterAct>>, tick: nat, ghost s0: State, ghost t: seq<Act>, ghost since: nat)
      returns (buf': map<nat, Word>, ghost t': seq<Act>)
      requires tick < |env| && At(env, tick, s0, t, LCopy(s1, buf), since) && j < cfg.nw && j !in buf
      modifies `seqNo, `data, `writer, `vers
      ensures At(env, tick + 1, s0, t', LCopy(s1, buf'), since) && buf'.Keys == buf.Keys + {j}
    {
      FollowsSnoc(env, tick, t, j);
      hide Follows, OwnProductive;
      t' := Await(env[tick], s0, t, LCopy(s1, buf), since);
      ReaderStep(cfg, s0, t', Mem(), Reader(LCopy(s1, buf), since), log, j);
      buf' := buf[j := data[j]];
      t' := t' + [R(0, j)];
    }

    /** The volatile read of the value, word by word, the writer moving in between. */
    method CopyValue(ghost s1: int,
                     env: seq<seq<WriterAct>>, from: nat, ghost s0: State, ghost t: seq<Act>, ghost since: nat)
      returns (buf: map<nat, Word>, tick: nat, ghost t': seq<Act>)
      requires At(env, from, s0, t, LCopy(s1, map[]), since) && from <= |env|
      modifies `seqNo, `data, `writer, `vers
      ensures from <= tick <= |env| && At(env, tick, s0, t', LCopy(s1, buf), since)
      ensures tick < |env| ==> Full(cfg.nw, buf)
    {
      hide At;
      buf, tick, t' := map[], from, t;
      for j := 0 to cfg.nw
        invariant from <= tick <= |env| && At(env, tick, s0, t', LCopy(s1, buf), since)
        invariant forall x: nat :: x in buf.Keys <==> x < j
      {
        if tick == |env| {
          return;
        }
        buf, t' := ReadWord(j, s1, buf, env, tick, s0, t', since);
        tick := tick + 1;
      }
    }

    /** The second load: the copy is returned if the sequence number has not moved. */
    method Confirm(s1: int, buf: map<nat, Word>,
                   env: seq<seq<WriterAct>>, tick: nat, ghost s0: State, ghost t: seq<Act>, ghost since: nat)
      returns (result: Option<Payload>, ghost t': seq<Act>)
      requires tick < |env| && At(env, tick, s0, t, LCopy(s1, buf), since) && Full(cfg.nw, buf)
      modifies this
      ensures At(env, tick + 1, s0, t', if result.Some? then LIdle else LSeq1, since)
      ensures log == if result.Some? then old(log) + [Got(result.value, s1, since)] else old(log)
    {
      FollowsSnoc(env, tick, t, cfg.nw);
      hide Follows, OwnProductive;
      t' := Await(env[tick], s0, t, LCopy(s1, buf), since);
      var s2 := seqNo;
      ReaderStep(cfg, s0, t', Mem(), Reader(LCopy(s1, buf), since), log, cfg.nw);
      t' := t' + [R(0, cfg.nw)];
      if s1 == s2 {
        var value := Assemble(cfg.nw, buf);
        log := log + [Got(value, s1, since)];
        result := Some(value);
      } else {
        result := None;
      }
    }

    /** The call begins; the reader's first step is local. */
    lemma {:induction false} Enter(env: seq<seq<WriterAct>>, since: nat) returns (trace: seq<Act>)
      requires Valid()
      ensures At(env, 0, Sys(LIdle, since), trace, LSeq1, |log|)
    {
      ReaderStep(cfg, Sys(LIdle, since), [], Mem(), Reader(LIdle, since), log, 0);
      trace := [] + [R(0, 0)];
      assert log + [] == log;
    }

    /** The body of `read` under the schedule `env`: it takes the steps of the machine
        interleaved with the writer's stores as the schedule says, and it goes on until it
        has a value or the schedule ends.  `last` is what the reader recorded at its previous
        call. */
    method Attempt(env: seq<seq<WriterAct>>, ghost last: nat)
      returns (result: Option<Payload>, tick: nat, ghost trace: seq<Act>, ghost pc: ReaderPc, ghost stamp: int)
      requires Valid()
      modifies this
      ensures At(env, tick, old(Sys(LIdle, last)), trace, pc, |old(log)|)
      ensures result.Some? ==> pc == LIdle && log == old(log) + [Got(result.value, stamp, |old(log)|)]
      ensures result.None? ==> pc != LIdle && log == old(log) && tick == |env|
    {
      hide At, Valid;
      ghost var s0 := Sys(LIdle, last);
      ghost var since := |log|;
      stamp := 0;
      trace := Enter(env, last);
      result, pc, tick := None, LSeq1, 0;
      while tick < |env|
        invariant tick <= |env| && At(env, tick, s0, trace, LSeq1, since)
        invariant pc == LSeq1 && result == None && log == old(log)
      {
        var s1;
        s1, trace := LoadSeq(env, tick, s0, trace, since);
        tick := tick + 1;
        if s1 % 2 == 1 {
          continue;
        }
        var buf;
        buf, tick, trace := CopyValue(s1, env, tick, s0, trace, since);
        pc := LCopy(s1, buf);
        if tick == |env| {
          return;
        }
        result, trace := Confirm(s1, buf, env, tick, s0, trace, since);
        tick := tick + 1;
        if result.Some? {
          pc, stamp := LIdle, s1;
          return;
        }
        pc := LSeq1;
      }
    }

    /** `read`.  `u` is the unbounded state this cell wraps.  Whatever the writer does
        meanwhile, a read within the version bound returns one whole version that was current
        at a moment of the call: none older than one whose write had begun when it was called,
        or than one a previous read returned.  It does return one once the schedule has room
        for a pass, one more for each write that begins meanwhile, and the loads that find an
        odd number; and it returns the current version if no write disturbs it. */
    method Read(env: seq<seq<WriterAct>>, ghost u: State, ghost last: nat)
      returns (result: Option<Payload>, tick: nat, ghost trace: seq<Act>, ghost pc: ReaderPc)
      requires Valid() && Inv(Wide(cfg), u) && Wrap(cfg.wd.b, u) == Sys(LIdle, last)
      modifies this
      ensures At(env, tick, old(Sys(LIdle, last)), trace, pc, |old(log)|)
      ensures result.None? ==> pc != LIdle && log == old(log) && tick == |env|
      ensures result.Some? ==> pc == LIdle
      ensures FewWrites(Wide(cfg), cfg.wd.b, u, trace) ==>
                && Inv(Wide(cfg), Run(Wide(cfg), u, trace))
                && Wrap(cfg.wd.b, Run(Wide(cfg), u, trace)) == Sys(pc, |old(log)|)
                && (result.Some? ==> ReadOk(Wide(cfg), u, trace, result.value))
                && (LongEnough(Wide(cfg), u, trace, |env|) ==> result.Some?)
      ensures Still(Wide(cfg), u, trace) ==>
                && FewWrites(Wide(cfg), cfg.wd.b, u, trace) && u.cell.vers != []
                && (|env| >= cfg.nw + 2 ==> result == Some(u.cell.vers[|u.cell.vers| - 1]))
      ensures Quiet(env) && !u.cell.writer.WCopying? ==> Still(Wide(cfg), u, trace)
    {
      var b := cfg.wd.b;
      assert |u.readers| == 1 by { assert |Wrap(b, u).readers| == 1; }
      assert u.readers[0].pc == LIdle by { assert Wrap(b, u).readers[0] == Reader(LIdle, last); }
      assert Narrow(Wide(cfg), b) == cfg;
      assert |u.log| == |log|;
      hide Run, Inv, FewWrites, ReadOk, Follows, OwnProductive, LongEnough, Still;
      ghost var stamp;
      result, tick, trace, pc, stamp := Attempt(env, last);
      QuietIsStill(Wide(cfg), u, env, tick, trace);
      if Still(Wide(cfg), u, trace) {
        StillIsClear(Wide(cfg), b, u, trace);
      }
      if FewWrites(Wide(cfg), b, u, trace) {
        CodeResult(Wide(cfg), b, u, trace);
        if result.None? {
          CallReturns(Wide(cfg), b, u, env, trace);
        } else {
          StillResult(Wide(cfg), u, trace, result.value);
        }
      }
    }
  }

  function Wide(cfg: Config): Config {
    cfg.(wd := Unbounded)
  }

  /** The run adds one read, which returned version `k`, whole and current at a moment of its
      call; `k` is at least the newest version begun when the call began and at least every
      version returned before. */
  ghost predicate ReadOk(cfg: Config, u: State, t: seq<Act>, value: Payload)
    requires Shaped(cfg, u)
  {
    var u' := Run(cfg, u, t);
    && u.cell.vers <= u'.cell.vers
    && |u'.log| == |u.log| + 1 && u.log <= u'.log
    && var got := u'.log[|u.log|];
       var k := got.stamp / 2;
       && got.value == value
       && |u.cell.vers| - 1 <= k < |u'.cell.vers| && 0 <= k && value == u'.cell.vers[k]
       && (forall e :: 0 <= e < |u.log| ==> u.log[e].stamp / 2 <= k)
       && exists i, b, n, r :: Linearized(cfg, u, t, |u.log|, i, b, n, r)
  }

  /** The schedule has room for the read: one pass, one more for each write that begins
      meanwhile, and the loads that find an odd number. */
  ghost predicate LongEnough(cfg: Config, u: State, t: seq<Act>, ticks: nat)
    requires Shaped(cfg, u)
  {
    ticks >= Passes(cfg, |Run(cfg, u, t).cell.vers| - |u.cell.vers| + 1) + Spins(cfg, u, t, 0)
  }

  /** No write is in progress at the start of the run, and none stores anything during it. */
  ghost predicate Still(cfg: Config, u: State, t: seq<Act>)
    requires Shaped(cfg, u)
  {
    !u.cell.writer.WCopying? && Run(cfg, u, t).cell.seqNo == u.cell.seqNo
  }

  /** The code's steps do their work on unbounded numbers too. */
  lemma {:induction false} ProductiveWraps(cfg: Config, b: nat, u: State, t: seq<Act>)
    requires b > 0 && Inv(cfg, u) && FewWrites(cfg, b, u, t)
    requires OwnProductive(Narrow(cfg, b), Wrap(b, u), t, 0)
    ensures OwnProductive(cfg, u, t, 0)
    decreases |t|
  {
    if t != [] {
      ProductiveWraps(cfg, b, u, t[..|t| - 1]);
      WrapRefines(cfg, b, u, t[..|t| - 1]);
      hide Run, Inv;
    }
  }

  /** A read that followed a schedule with room for it has returned. */
  lemma {:induction false} CallReturns(cfg: Config, b: nat, u: State, env: seq<seq<WriterAct>>, t: seq<Act>)
    requires b > 0 && Inv(cfg, u) && |u.readers| == 1 && u.readers[0].pc.LIdle? && FewWrites(cfg, b, u, t)
    requires OwnProductive(Narrow(cfg, b), Wrap(b, u), t, 0) && Follows(env, |env|, t)
    ensures LongEnough(cfg, u, t, |env|) ==> |Run(cfg, u, t).log| != |u.log|
    ensures Still(cfg, u, t) && |env| >= cfg.nw + 2 ==> |Run(cfg, u, t).log| != |u.log|
  {
    hide Follows, OwnProductive, NoReturn, Passes, FewWrites, Spins, Run, Wrap;
    ProductiveWraps(cfg, b, u, t);
    FollowsSteps(env, |env|, t);
    if Still(cfg, u, t) && |env| >= cfg.nw + 2 {
      StillLongEnough(cfg, u, t, |env|);
    }
    hide Inv, Still;
    if LongEnough(cfg, u, t, |env|) {
      ReadReturns(cfg, u, t, 0);
      if |Run(cfg, u, t).log| == |u.log| {
        SameLogNoReturn(cfg, u, t, 0);
      }
    }
  }

  lemma {:induction false} StillLongEnough(cfg: Config, u: State, t: seq<Act>, ticks: nat)
    requires Inv(cfg, u) && Still(cfg, u, t) && ticks >= cfg.nw + 2
    ensures LongEnough(cfg, u, t, ticks)
  {
    hide Passes, Spins, Run;
    Undisturbed(cfg, u, t, 0);
    PassesNext(cfg, 0);
  }

  lemma {:induction false} QuietIsStill(cfg: Config, u: State, env: seq<seq<WriterAct>>, n: nat, t: seq<Act>)
    requires Shaped(cfg, u) && n <= |env| && Follows(env, n, t)
    ensures Quiet(env) && !u.cell.writer.WCopying? ==> Still(cfg, u, t)
  {
    if Quiet(env) {
      FollowsQuiet(env, n, t);
      ReadersOnly(cfg, u, t);
    }
  }

  lemma {:induction false} ReadersOnly(cfg: Config, s: State, t: seq<Act>)
    requires Shaped(cfg, s) && forall k :: 0 <= k < |t| ==> t[k].R?
    ensures Run(cfg, s, t).cell == s.cell
    decreases |t|
  {
    if t != [] {
      ReadersOnly(cfg, s, t[..|t| - 1]);
    }
  }

  /** A number loaded during the run is not older than the run. */
  lemma {:induction false} FreshLoads(cfg: Config, u: State, t: seq<Act>)
    requires Inv(cfg, u) && AllIdle(u)
    ensures var u' := Run(cfg, u, t);
            forall i :: 0 <= i < |u'.readers| ==> u'.readers[i].pc.LCopy? ==> u'.readers[i].pc.s1 >= u.cell.seqNo
    decreases |t|
  {
    if t != [] {
      FreshLoads(cfg, u, t[..|t| - 1]);
      RunGrows(cfg, u, t[..|t| - 1]);
    }
  }

  lemma {:induction false} StillIsClear(cfg: Config, b: nat, u: State, t: seq<Act>)
    requires b > 0 && Inv(cfg, u) && AllIdle(u) && Still(cfg, u, t)
    ensures FewWrites(cfg, b, u, t) && u.cell.vers != []
    decreases |t|
  {
    if t != [] {
      var v, a := t[..|t| - 1], t[|t| - 1];
      var s1 := Run(cfg, u, v);
      RunInv(cfg, u, v);
      RunGrows(cfg, u, v);
      NextKeepsOrder(cfg, s1, a);
      StillIsClear(cfg, b, u, v);
      FreshLoads(cfg, u, v);
      Undisturbed(cfg, u, v, 0);
      if a.R? && a.i < |s1.readers| && s1.readers[a.i].pc.LCopy? {
        assert ReaderInv(cfg, s1.cell, s1.readers[a.i], s1.log);
      }
      hide Run, LogInv;
    }
  }

  lemma {:induction false} NextKeepsOrder(cfg: Config, s: State, a: Act)
    requires Inv(cfg, s)
    ensures s.cell.seqNo <= Next(cfg, s, a).cell.seqNo
  {
    if a.W? {
      WriterKeepsCell(cfg, s.cell, a.wa);
    }
  }

  lemma {:induction false} StillResult(cfg: Config, u: State, t: seq<Act>, value: Payload)
    requires Inv(cfg, u) && ReadOk(cfg, u, t, value)
    ensures Still(cfg, u, t) ==> u.cell.vers != [] && value == u.cell.vers[|u.cell.vers| - 1]
  {
    if Still(cfg, u, t) {
      Undisturbed(cfg, u, t, 0);
      hide Run, Linearized;
    }
  }

  lemma {:induction false} ReadIsOk(cfg: Config, u: State, t: seq<Act>)
    requires Inv(cfg, u) && AllIdle(u) && |Run(cfg, u, t).log| == |u.log| + 1
    ensures ReadOk(cfg, u, t, Run(cfg, u, t).log[|u.log|].value)
  {
    RunGrows(cfg, u, t);
    var i, from, n, k := ReadIsCurrent(cfg, u, t, |u.log|);
    LinearizedVersion(cfg, u, t, |u.log|, i, from, n, k);
    VersionsGrow(cfg, u, t, 0, from);
    assert t[..0] == [] && Before(cfg, u, t, 0) == u;
    hide Run, Before, Linearized, Inv;
  }

  /** A call of the code, read back over unbounded numbers. */
  lemma {:induction false} CodeResult(cfg: Config, b: nat, u: State, t: seq<Act>)
    requires b > 0 && Inv(cfg, u) && |u.readers| == 1 && u.readers[0].pc == LIdle && FewWrites(cfg, b, u, t)
    ensures var w', u' := Run(Narrow(cfg, b), Wrap(b, u), t), Run(cfg, u, t);
            && Inv(cfg, u') && w' == Wrap(b, u')
            && (|w'.log| == |u.log| + 1 ==> ReadOk(cfg, u, t, w'.log[|u.log|].value))
  {
    WrapRefines(cfg, b, u, t);
    RunInv(cfg, u, t);
    if |Run(cfg, u, t).log| == |u.log| + 1 {
      ReadIsOk(cfg, u, t);
      hide Run, ReadOk, FewWrites, Inv;
    }
  }
}
