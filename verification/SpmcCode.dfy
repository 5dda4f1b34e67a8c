/** `publish` and `try_read` as written: wrapping `b`-bit counters, a masked index into
    a fixed array of slots, and a retry loop.

    A consumer does not run alone.  `TryRead` takes the schedule of the writer thread as
    an argument: before each atomic load, and before each word of the payload copy, the
    writer performs the next entry of `env`, any number of its stores.  A call that is
    still running when the schedule ends returns `None`.
 */
module SpmcCode {
  import opened Words
  import opened Options
  import opened Payloads
  import opened Threads
  import opened Spmc
  import opened SpmcInvariant
  import opened SpmcTheorems
  import opened SpmcWrap

  class Queue {
    const cfg: Config
    const k: nat
    var writeCursor: nat
    const slots: array<Slot>
    /** Where the writer thread stands, and the values it has begun to publish. */
    var writer: WriterPc
    var hist: seq<Payload>

    ghost predicate Valid()
      reads this, slots
    {
      && cfg.wd.Bits? && k < cfg.wd.b && cfg.cap == Pow2(k) == slots.Length
      && ShapedRing(cfg, Mem())
    }

    function Mem(): Ring
      reads this, slots
    {
      Ring(writeCursor, slots[..], writer, hist)
    }

    /** `CAPACITY` is `2^k` and a word has `b` bits; every slot starts even and zeroed. */
    constructor (b: nat, k: nat, nw: nat)
      requires k < b
      ensures Valid() && cfg == Config(Pow2(k), nw, Bits(b)) && this.k == k
      ensures Mem() == InitRing(cfg) && fresh(slots)
      ensures slots.Length == Pow2(k) && writeCursor == 0
      ensures forall i :: 0 <= i < slots.Length ==>
                && slots[i].stamp == 0 && |slots[i].data| == nw
                && forall j :: 0 <= j < nw ==> slots[i].data[j] == 0
    {
      cfg := Config(Pow2(k), nw, Bits(b));
      this.k := k;
      writeCursor := 0;
      var a := new Slot[Pow2(k)](_ => Slot(-1, []));
      for ix := 0 to Pow2(k)
        invariant a.Length == Pow2(k) && fresh(a)
        invariant forall i :: 0 <= i < ix ==> a[i] == Slot(0, Zeroes(nw))
      {
        a[ix] := Slot(0, Zeroes(nw));
      }
      slots := a;
      writer := WIdle;
      hist := [];
      new;
      assert slots[..] == InitRing(cfg).slots;
    }

    /** The masked index of a position is its slot. */
    method SlotOf(i: nat) returns (ix: nat)
      requires Valid()
      ensures ix == BitAnd(i, cfg.cap - 1) == Ix(cfg.cap, i) < slots.Length
    {
      MaskIsMod(i, k);
      ix := BitAnd(i, cfg.cap - 1);
    }

    /** The writer thread performs some of its stores. */
    method Interfere(acts: seq<WriterAct>)
      requires Valid()
      modifies this, slots
      ensures Valid() && Mem() == WriterRun(cfg, old(Mem()), acts)
    {
      var m := WriterRun(cfg, Mem(), acts);
      forall i | 0 <= i < slots.Length {
        slots[i] := m.slots[i];
      }
      writeCursor, writer, hist := m.cursor, m.writer, m.hist;
      assert slots[..] == m.slots;
    }

    /** The load of the writer's own cursor. */
    method LoadCursor(value: Payload) returns (wPos: nat)
      requires Valid() && writer == WIdle && |value| == cfg.nw
      modifies this`writer
      ensures Valid() && Mem() == WriterNext(cfg, old(Mem()), Begin(value))
      ensures writer == WLoaded(value, wPos)
    {
      wPos := writeCursor;
      writer := WLoaded(value, wPos);
    }

    /** The odd store: the slot is being written. */
    method MarkOdd(value: Payload, wPos: nat, i: nat)
      requires Valid() && writer == WLoaded(value, wPos) && i == Ix(cfg.cap, wPos)
      modifies this`writer, this`hist, slots
      ensures Valid() && Mem() == WriterNext(cfg, old(Mem()), Store(0))
      ensures writer == WCopying(value, wPos, {}) && hist == old(hist) + [value]
    {
      slots[i] := slots[i].(stamp := Add(cfg.wd, Mul(cfg.wd, wPos, 2), 1));
      writer, hist := WCopying(value, wPos, {}), hist + [value];
      assert Mem().slots == old(Mem()).slots[i := slots[i]];
    }

    /** One word of the volatile payload write. */
    method CopyWord(i: nat, j: nat)
      requires Valid() && writer.WCopying? && i == Ix(cfg.cap, writer.pos)
      requires j < cfg.nw && j !in writer.done
      modifies this`writer, slots
      ensures Valid() && Mem() == WriterNext(cfg, old(Mem()), Store(j))
      ensures writer == old(writer).(done := old(writer).done + {j})
    {
      slots[i] := slots[i].(data := slots[i].data[j := writer.v[j]]);
      writer := writer.(done := writer.done + {j});
      assert Mem().slots == old(Mem()).slots[i := slots[i]];
    }

    /** The even store: the slot holds the whole value. */
    method MarkEven(i: nat)
      requires Valid() && writer.WCopying? && i == Ix(cfg.cap, writer.pos)
      requires forall x: nat :: x in writer.done <==> x < cfg.nw
      modifies this`writer, slots
      ensures Valid() && Mem() == WriterNext(cfg, old(Mem()), Store(0))
      ensures writer == WSealed(old(writer).pos)
    {
      slots[i] := slots[i].(stamp := Add(cfg.wd, Mul(cfg.wd, writer.pos, 2), 2));
      writer := WSealed(writer.pos);
      assert Mem().slots == old(Mem()).slots[i := slots[i]];
    }

    /** The cursor store: readers may look for the value. */
    method MoveCursor()
      requires Valid() && writer.WSealed?
      modifies this`writer, this`writeCursor
      ensures Valid() && Mem() == WriterNext(cfg, old(Mem()), Store(0))
      ensures writer == WIdle
    {
      writeCursor := Add(cfg.wd, writer.pos, 1);
      writer := WIdle;
    }

    /** `publish`: odd stamp, payload word by word, even stamp, write cursor. */
    method Publish(value: Payload)
      requires Valid() && writer == WIdle && |value| == cfg.nw
      modifies this, slots
      ensures Valid() && writer == WIdle
      ensures Mem() == WriterRun(cfg, old(Mem()), PublishStores(cfg.nw, value))
      ensures hist == old(hist) + [value]
    {
      hide Ix, WriterNext, WriterRun;
      ghost var m0 := Mem();
      WriterRunSnoc(cfg, m0, [], Begin(value));
      var wPos := LoadCursor(value);
      var i := SlotOf(wPos);
      ghost var acts := [] + [Begin(value)];

      WriterRunSnoc(cfg, m0, acts, Store(0));
      MarkOdd(value, wPos, i);
      acts := acts + [Store(0)];

      for j := 0 to cfg.nw
        invariant Valid() && hist == old(hist) + [value]
        invariant writer.WCopying? && writer.v == value && writer.pos == wPos
        invariant forall x: nat :: x in writer.done <==> x < j
        invariant acts == CopyStores(value, j)
        invariant Mem() == WriterRun(cfg, m0, acts)
      {
        WriterRunSnoc(cfg, m0, acts, Store(j));
        CopyWord(i, j);
        acts := acts + [Store(j)];
      }

      WriterRunSnoc(cfg, m0, acts, Store(0));
      MarkEven(i);
      acts := acts + [Store(0)];

      WriterRunSnoc(cfg, m0, acts, Store(0));
      MoveCursor();
      acts := acts + [Store(0)];
    }
  }

  /** One reader step at the end of a run of a ring with a single reader. */
  lemma {:induction false} ReaderStep(cfg: Config, s0: State, t: seq<Act>, m: Ring, c: Reader, j: nat)
    requires Shaped(cfg, s0) && Run(cfg, s0, t) == State(m, [c])
    requires OwnProductive(cfg, s0, t, 0) && Productive(cfg, c, j)
    ensures ShapedRing(cfg, m) && OwnProductive(cfg, s0, t + [R(0, j)], 0)
    ensures Run(cfg, s0, t + [R(0, j)]) == State(m, [ReaderNext(cfg, m, c, j)])
  {
    RunSnoc(cfg, s0, t, R(0, j));
    assert [c][0 := ReaderNext(cfg, m, c, j)] == [ReaderNext(cfg, m, c, j)];
    assert (t + [R(0, j)])[..|t + [R(0, j)]| - 1] == t;
  }

  /** Writer stores leave a productive run productive. */
  lemma {:induction false} ProductiveWrites(cfg: Config, s0: State, t: seq<Act>, acts: seq<WriterAct>)
    requires Shaped(cfg, s0) && OwnProductive(cfg, s0, t, 0)
    ensures OwnProductive(cfg, s0, t + Writes(acts), 0)
    decreases |acts|
  {
    if acts == [] {
      assert t + Writes(acts) == t;
    } else {
      var init, t' := acts[..|acts| - 1], t + Writes(acts);
      ProductiveWrites(cfg, s0, t, init);
      assert Writes(acts)[..|acts| - 1] == Writes(init);
      assert t'[..|t'| - 1] == t + Writes(init);
    }
  }

  class Consumer {
    const queue: Queue
    var readCursor: nat
    var cachedWriteCursor: nat
    /** The cursor at creation, the results returned, the copies of the current call. */
    ghost var base: int
    ghost var log: seq<Outcome>
    ghost var copies: nat

    ghost function Me(pc: ReaderPc): Reader
      reads this
    {
      Reader(readCursor, cachedWriteCursor, pc, copies, base, log)
    }

    /** The ring with this consumer alone, at program point `pc`. */
    ghost function Sys(pc: ReaderPc): State
      reads this, queue, queue.slots
    {
      State(queue.Mem(), [Me(pc)])
    }

    constructor (queue: Queue)
      ensures this.queue == queue && Me(RIdle) == NewReader(0, 0)
      ensures readCursor == cachedWriteCursor == 0
    {
      this.queue := queue;
      readCursor, cachedWriteCursor := 0, 0;
      base, log, copies := 0, [], 0;
    }

    /** `clone`: a consumer of the same ring at the parent's position. */
    constructor Clone(parent: Consumer)
      ensures queue == parent.queue
      ensures readCursor == parent.readCursor && cachedWriteCursor == parent.cachedWriteCursor
      ensures base == parent.readCursor && log == []
      ensures Me(RIdle) == NewReader(parent.readCursor, parent.cachedWriteCursor)
    {
      queue := parent.queue;
      readCursor, cachedWriteCursor := parent.readCursor, parent.cachedWriteCursor;
      base, log, copies := parent.readCursor, [], 0;
    }

    /** The writer moves while this consumer stands at `pc`. */
    method Await(acts: seq<WriterAct>, ghost s0: State, ghost t: seq<Act>, ghost pc: ReaderPc)
      returns (ghost t': seq<Act>)
      requires queue.Valid() && Shaped(queue.cfg, s0) && Run(queue.cfg, s0, t) == Sys(pc)
      requires OwnProductive(queue.cfg, s0, t, 0)
      modifies queue, queue.slots
      ensures queue.Valid() && t' == t + Writes(acts) && Run(queue.cfg, s0, t') == Sys(pc)
      ensures OwnProductive(queue.cfg, s0, t', 0)
    {
      ProductiveWrites(queue.cfg, s0, t, acts);
      hide OwnProductive;
      t' := t + Writes(acts);
      RunAppend(queue.cfg, s0, t, Writes(acts));
      RunWrites(queue.cfg, Sys(pc), acts);
      queue.Interfere(acts);
    }

    /** The reader stands at `pc` after the first `tick` entries of the schedule, and every
        step it took did some of its work. */
    ghost predicate At(env: seq<seq<WriterAct>>, tick: nat, s0: State, t: seq<Act>, pc: ReaderPc)
      reads this, queue, queue.slots
    {
      && queue.Valid() && Shaped(queue.cfg, s0)
      && tick <= |env| && Follows(env, tick, t)
      && Run(queue.cfg, s0, t) == Sys(pc) && OwnProductive(queue.cfg, s0, t, 0)
    }

    /** `is_still_empty`: refresh the cached write cursor. */
    method IsStillEmpty(env: seq<seq<WriterAct>>, tick: nat, ghost s0: State, ghost t: seq<Act>)
      returns (empty: bool, ghost t': seq<Act>)
      requires tick < |env| && At(env, tick, s0, t, RCheck)
      modifies this, queue, queue.slots
      ensures At(env, tick + 1, s0, t', if empty then RIdle else RSeq1)
      ensures log == if empty then old(log) + [Empty] else old(log)
    {
      FollowsSnoc(env, tick, t, 0);
      hide Follows, OwnProductive;
      t' := Await(env[tick], s0, t, RCheck);
      ReaderStep(queue.cfg, s0, t', queue.Mem(), Me(RCheck), 0);
      cachedWriteCursor := queue.writeCursor;
      empty := readCursor == cachedWriteCursor;
      if empty {
        log := log + [Empty];
      }
      t' := t' + [R(0, 0)];
    }

    /** The first stamp load, and the three ways to go on from it. */
    method LoadStamp(i: nat, expected: int, env: seq<seq<WriterAct>>, tick: nat, ghost s0: State, ghost t: seq<Act>)
      returns (seq1: int, ghost t': seq<Act>)
      requires tick < |env| && At(env, tick, s0, t, RSeq1)
      requires i == Ix(queue.cfg.cap, readCursor) && expected == Expected(queue.cfg, readCursor)
      modifies this`copies, queue, queue.slots
      ensures At(env, tick + 1, s0, t',
                 if seq1 % 2 == 1 then RSeq1 else if seq1 != expected then RReload else RCopy(seq1, map[]))
    {
      FollowsSnoc(env, tick, t, 0);
      hide Ix, Follows, OwnProductive;
      t' := Await(env[tick], s0, t, RSeq1);
      seq1 := queue.slots[i].stamp;
      ReaderStep(queue.cfg, s0, t', queue.Mem(), Me(RSeq1), 0);
      t' := t' + [R(0, 0)];
      if seq1 % 2 == 0 && seq1 == expected {
        copies := copies + 1;
      }
    }

    /** The lapped branch: reload the write cursor and jump to the newest value. */
    method Jump(env: seq<seq<WriterAct>>, tick: nat, ghost s0: State, ghost t: seq<Act>)
      returns (result: Outcome, ghost t': seq<Act>)
      requires tick < |env| && At(env, tick, s0, t, RReload)
      modifies this, queue, queue.slots
      ensures At(env, tick + 1, s0, t', RIdle)
      ensures log == old(log) + [result]
    {
      FollowsSnoc(env, tick, t, 0);
      hide Follows, OwnProductive;
      t' := Await(env[tick], s0, t, RReload);
      ReaderStep(queue.cfg, s0, t', queue.Mem(), Me(RReload), 0);
      cachedWriteCursor := queue.writeCursor;
      var newRCursor := Sub(queue.cfg.wd, cachedWriteCursor, 1);
      var skipped := Sub(queue.cfg.wd, newRCursor, readCursor);
      readCursor := newRCursor;
      result := Lapped(skipped);
      log := log + [result];
      t' := t' + [R(0, 0)];
    }

    /** One word of the volatile payload read. */
    method ReadWord(i: nat, j: nat, ghost seq1: int, buf: map<nat, Word>,
                    env: seq<seq<WriterAct>>, tick: nat, ghost s0: State, ghost t: seq<Act>)
      returns (buf': map<nat, Word>, ghost t': seq<Act>)
      requires tick < |env| && At(env, tick, s0, t, RCopy(seq1, buf))
      requires i == Ix(queue.cfg.cap, readCursor) && j < queue.cfg.nw && j !in buf
      modifies queue, queue.slots
      ensures At(env, tick + 1, s0, t', RCopy(seq1, buf')) && buf'.Keys == buf.Keys + {j}
    {
      FollowsSnoc(env, tick, t, j);
      hide Ix, Follows, OwnProductive;
      t' := Await(env[tick], s0, t, RCopy(seq1, buf));
      ReaderStep(queue.cfg, s0, t', queue.Mem(), Me(RCopy(seq1, buf)), j);
      buf' := buf[j := queue.slots[i].data[j]];
      t' := t' + [R(0, j)];
    }

    /** The volatile read of the payload, word by word, the writer moving in between.
        It stops short when the schedule ends. */
    method CopyPayload(i: nat, ghost seq1: int, env: seq<seq<WriterAct>>, from: nat, ghost s0: State, ghost t: seq<Act>)
      returns (buf: map<nat, Word>, tick: nat, ghost t': seq<Act>)
      requires from <= |env| && At(env, from, s0, t, RCopy(seq1, map[])) && i == Ix(queue.cfg.cap, readCursor)
      modifies queue, queue.slots
      ensures from <= tick <= |env| && At(env, tick, s0, t', RCopy(seq1, buf))
      ensures tick < |env| ==> Full(queue.cfg.nw, buf)
    {
      hide Ix, At;
      buf, tick, t' := map[], from, t;
      for j := 0 to queue.cfg.nw
        invariant from <= tick <= |env| && At(env, tick, s0, t', RCopy(seq1, buf))
        invariant forall x: nat :: x in buf.Keys <==> x < j
      {
        if tick == |env| {
          return;
        }
        buf, t' := ReadWord(i, j, seq1, buf, env, tick, s0, t');
        tick := tick + 1;
      }
    }

    /** The second stamp load: the copy is committed if the stamp has not moved. */
    method Confirm(i: nat, seq1: int, buf: map<nat, Word>,
                   env: seq<seq<WriterAct>>, tick: nat, ghost s0: State, ghost t: seq<Act>)
      returns (result: Option<Outcome>, ghost t': seq<Act>)
      requires tick < |env| && At(env, tick, s0, t, RCopy(seq1, buf))
      requires i == Ix(queue.cfg.cap, readCursor) && Full(queue.cfg.nw, buf)
      modifies this, queue, queue.slots
      ensures At(env, tick + 1, s0, t', if result.Some? then RIdle else RSeq1)
      ensures result.Some? ==> log == old(log) + [result.value]
      ensures result.None? ==> log == old(log) && readCursor == old(readCursor)
    {
      FollowsSnoc(env, tick, t, queue.cfg.nw);
      hide Ix, Follows, OwnProductive;
      t' := Await(env[tick], s0, t, RCopy(seq1, buf));
      var seq2 := queue.slots[i].stamp;
      ReaderStep(queue.cfg, s0, t', queue.Mem(), Me(RCopy(seq1, buf)), queue.cfg.nw);
      t' := t' + [R(0, queue.cfg.nw)];
      if seq1 == seq2 {
        var value := Assemble(queue.cfg.nw, buf);
        readCursor := Add(queue.cfg.wd, readCursor, 1);
        log := log + [Value(value)];
        result := Some(Value(value));
      } else {
        result := None;
      }
    }

    /** The start of `try_read`, up to the retry loop: the cached empty check and, if it says
        empty, its refresh. */
    method Enter(env: seq<seq<WriterAct>>)
      returns (result: Option<Outcome>, tick: nat, ghost trace: seq<Act>, ghost pc: ReaderPc)
      requires queue.Valid()
      modifies this, queue, queue.slots
      ensures queue.Valid() && tick <= |env| && At(env, tick, old(Sys(RIdle)), trace, pc)
      ensures result.Some? ==> pc == RIdle && log == old(log) + [result.value]
      ensures result.None? ==> log == old(log) && (pc == RSeq1 || (pc == RCheck && tick == |env|))
    {
      ghost var s0 := Sys(RIdle);
      ReaderStep(queue.cfg, s0, [], queue.Mem(), Me(RIdle), 0);
      copies := 0;
      tick, trace, result := 0, [] + [R(0, 0)], None;
      pc := if readCursor == cachedWriteCursor then RCheck else RSeq1;
      assert At(env, tick, s0, trace, pc);
      hide Ix, Follows, Run, OwnProductive;
      if readCursor == cachedWriteCursor && tick < |env| {
        var empty;
        empty, trace := IsStillEmpty(env, tick, s0, trace);
        tick := tick + 1;
        if empty {
          pc, result := RIdle, Some(Empty);
        } else {
          pc := RSeq1;
        }
      }
    }

    /** The body of `try_read` under the schedule `env`: it takes the steps of the machine
        interleaved with the writer's stores as the schedule says, and it goes on until it
        has a result or the schedule ends. */
    method Attempt(env: seq<seq<WriterAct>>)
      returns (result: Option<Outcome>, tick: nat, ghost trace: seq<Act>, ghost pc: ReaderPc)
      requires queue.Valid()
      modifies this, queue, queue.slots
      ensures At(env, tick, old(Sys(RIdle)), trace, pc)
      ensures result.Some? ==> pc == RIdle && log == old(log) + [result.value]
      ensures result.None? ==> pc != RIdle && log == old(log) && tick == |env|
    {
      hide Ix, At;
      ghost var s0 := Sys(RIdle);
      result, tick, trace, pc := Enter(env);
      if result.Some? || tick == |env| {
        return;
      }
      var i := queue.SlotOf(readCursor);
      var expected := Add(queue.cfg.wd, Mul(queue.cfg.wd, readCursor, 2), 2);
      while tick < |env|
        invariant tick <= |env| && At(env, tick, s0, trace, RSeq1)
        invariant pc == RSeq1 && result == None && log == old(log)
        invariant i == Ix(queue.cfg.cap, readCursor) && expected == Expected(queue.cfg, readCursor)
      {
        var seq1;
        seq1, trace := LoadStamp(i, expected, env, tick, s0, trace);
        tick := tick + 1;
        if seq1 % 2 == 1 {
          continue;
        }
        if seq1 != expected {
          pc := RReload;
          if tick == |env| {
            return;
          }
          var lapped;
          lapped, trace := Jump(env, tick, s0, trace);
          tick := tick + 1;
          pc, result := RIdle, Some(lapped);
          return;
        }
        var buf;
        buf, tick, trace := CopyPayload(i, seq1, env, tick, s0, trace);
        pc := RCopy(seq1, buf);
        if tick == |env| {
          return;
        }
        result, trace := Confirm(i, seq1, buf, env, tick, s0, trace);
        tick := tick + 1;
        if result.Some? {
          pc := RIdle;
          return;
        }
        pc := RSeq1;
      }
    }

    /** `try_read`.  `u` is the unbounded state this ring and consumer wrap.  Whatever the
        writer does meanwhile, a call that stays within the lag bound keeps that relation,
        and its result is right: the whole value published at the read cursor, `Empty` only
        with nothing unread at the call, or the lap, which lands on the newest value.  It does
        return one, unless the schedule ends while the writer is copying into the slot or before
        the steps of a call are over; and with the writer quiet it returns the one that the
        history and the cursor determine. */
    method TryRead(env: seq<seq<WriterAct>>, ghost u: State)
      returns (result: Option<Outcome>, tick: nat, ghost trace: seq<Act>, ghost pc: ReaderPc)
      requires queue.Valid() && Inv(Wide(queue.cfg), u)
      requires SkipsFit(queue.cfg.wd.b, u) && Wrap(queue.cfg.wd.b, u) == Sys(RIdle)
      modifies this, queue, queue.slots
      ensures queue.cfg.wd.b > 0 && |u.readers| == 1 && At(env, tick, old(Sys(RIdle)), trace, pc)
      ensures if result.Some? then pc == RIdle && log == old(log) + [result.value]
              else pc != RIdle && log == old(log) && tick == |env|
      ensures WithinLag(Wide(queue.cfg), queue.cfg.wd.b, u, trace) ==>
                var u' := Run(Wide(queue.cfg), u, trace);
                && Inv(Wide(queue.cfg), u') && SkipsFit(queue.cfg.wd.b, u')
                && Wrap(queue.cfg.wd.b, u') == Sys(pc)
                && (result.Some? ==>
                    && |u'.readers| == 1
                    && |u'.readers[0].log| == |u.readers[0].log| + 1
                    && u'.readers[0].log[|u.readers[0].log|] == result.value
                    && CallOk(Wide(queue.cfg), u, u', 0))
                && (LongEnough(Wide(queue.cfg), u, trace, |env|) ==> result.Some?)
      ensures Quiet(env) && u.ring.writer.WIdle? && |env| >= CallCost(queue.cfg) &&
              |u.ring.hist| - u.readers[0].r <= Pow2(queue.cfg.wd.b - 1) ==>
                && WithinLag(Wide(queue.cfg), queue.cfg.wd.b, u, trace)
                && Run(Wide(queue.cfg), u, trace).ring == u.ring
                && 0 <= u.readers[0].r <= |u.ring.hist|
                && result == Some(CallResult(queue.cfg.cap, u.ring.hist, u.readers[0].r))
    {
      var b := queue.cfg.wd.b;
      assert |u.readers| == 1 by { assert |Wrap(b, u).readers| == 1; }
      assert Narrow(Wide(queue.cfg), b) == queue.cfg && Fits(Wide(queue.cfg), b, queue.k);
      ghost var n := |log|;
      assert |u.readers[0].log| == n by { assert Wrap(b, u).readers[0] == Me(RIdle); }
      hide Run, Inv, Wrap, WithinLag, CallOk, SkipsFit, Follows, OwnProductive, LongEnough, CallResult;
      result, tick, trace, pc := Attempt(env);
      if Quiet(env) && |u.ring.hist| - u.readers[0].r <= Pow2(b - 1) {
        QuietCall(Wide(queue.cfg), b, u, env, tick, trace);
      }
      if WithinLag(Wide(queue.cfg), b, u, trace) {
        CodeResult(Wide(queue.cfg), b, queue.k, u, trace);
        if result.None? {
          CallReturns(Wide(queue.cfg), b, queue.k, u, env, trace);
        } else if Run(Wide(queue.cfg), u, trace).ring == u.ring && u.ring.writer.WIdle? {
          AloneResult(Wide(queue.cfg), u, Run(Wide(queue.cfg), u, trace), 0);
        }
      }
    }
  }

  function Wide(cfg: Config): Config {
    cfg.(wd := Unbounded)
  }

  /** The schedule has room for the whole call: `nw + 4` entries while the slot is not being
      reused, and otherwise `nw + 5` besides the stamp loads that find the writer copying. */
  ghost predicate LongEnough(cfg: Config, u: State, t: seq<Act>, ticks: nat)
    requires Shaped(cfg, u)
  {
    |u.readers| > 0 &&
    (|| ticks >= cfg.nw + 5 + Spins(cfg, u, t, 0)
     || (ticks >= cfg.nw + 4 && |Run(cfg, u, t).ring.hist| <= u.readers[0].r + cfg.cap))
  }

  /** The code's steps do their work on unbounded counters too. */
  lemma {:induction false} ProductiveWraps(cfg: Config, b: nat, k: nat, u: State, t: seq<Act>)
    requires Fits(cfg, b, k) && Inv(cfg, u) && SkipsFit(b, u) && WithinLag(cfg, b, u, t)
    requires Shaped(Narrow(cfg, b), Wrap(b, u)) && OwnProductive(Narrow(cfg, b), Wrap(b, u), t, 0)
    ensures OwnProductive(cfg, u, t, 0)
    decreases |t|
  {
    if t != [] {
      ProductiveWraps(cfg, b, k, u, t[..|t| - 1]);
      WrapRefines(cfg, b, k, u, t[..|t| - 1]);
      hide Run, Inv;
    }
  }

  /** A call that followed a schedule with room for it has returned. */
  lemma {:induction false} CallReturns(
    cfg: Config, b: nat, k: nat, u: State, env: seq<seq<WriterAct>>, t: seq<Act>)
    requires Fits(cfg, b, k) && Inv(cfg, u) && SkipsFit(b, u) && |u.readers| == 1 && WithinLag(cfg, b, u, t)
    requires Shaped(Narrow(cfg, b), Wrap(b, u)) && OwnProductive(Narrow(cfg, b), Wrap(b, u), t, 0)
    requires Follows(env, |env|, t)
    ensures |Run(cfg, u, t).readers| > 0
    ensures LongEnough(cfg, u, t, |env|) ==> |Run(cfg, u, t).readers[0].log| > |u.readers[0].log|
  {
    ProductiveWraps(cfg, b, k, u, t);
    FollowsSteps(env, |env|, t);
    RunGrows(cfg, u, t);
    hide Run, Inv, Follows, OwnProductive, Wrap;
    DelayedBySpinsOnly(cfg, u, t, 0);
    if |Run(cfg, u, t).ring.hist| <= u.readers[0].r + cfg.cap {
      WaitFreeUnlessOverrun(cfg, u, t, 0);
    }
  }

  /** While the writer is quiet only the consumer moves, and it does not leave the lag bound. */
  lemma {:induction false} QuietCall(
    cfg: Config, b: nat, u: State, env: seq<seq<WriterAct>>, n: nat, t: seq<Act>)
    requires Inv(cfg, u) && b > 0 && |u.readers| == 1 && |u.ring.hist| - u.readers[0].r <= Pow2(b - 1)
    requires n <= |env| && Follows(env, n, t) && Quiet(env)
    ensures WithinLag(cfg, b, u, t) && Run(cfg, u, t).ring == u.ring
    ensures u.ring.writer.WIdle? ==> Spins(cfg, u, t, 0) == 0 && 0 <= u.readers[0].r <= |u.ring.hist|
  {
    FollowsQuiet(env, n, t);
    ReadersKeepLag(cfg, b, u, t);
    ReadersOnly(cfg, u, t);
    assert ReaderInv(cfg, u.ring, u.readers[0]);
    CursorNearEnd(cfg, u.ring);
    if u.ring.writer.WIdle? {
      IdleNeverSpins(cfg, u, t);
    }
  }

  lemma {:induction false} ReadersKeepLag(cfg: Config, b: nat, u: State, t: seq<Act>)
    requires Inv(cfg, u) && b > 0 && |u.readers| == 1 && |u.ring.hist| - u.readers[0].r <= Pow2(b - 1)
    requires forall k :: 0 <= k < |t| ==> t[k].R?
    ensures WithinLag(cfg, b, u, t)
    decreases |t|
  {
    if t != [] {
      ReadersKeepLag(cfg, b, u, t[..|t| - 1]);
      ReadersOnly(cfg, u, t[..|t| - 1]);
      RunGrows(cfg, u, t[..|t| - 1]);
      hide Run, Inv;
    }
  }

  lemma {:induction false} IdleNeverSpins(cfg: Config, u: State, t: seq<Act>)
    requires Inv(cfg, u) && u.ring.writer.WIdle? && forall k :: 0 <= k < |t| ==> t[k].R?
    ensures Spins(cfg, u, t, 0) == 0
    decreases |t|
  {
    if t != [] {
      IdleNeverSpins(cfg, u, t[..|t| - 1]);
      ReadersOnly(cfg, u, t[..|t| - 1]);
      var s1 := Run(cfg, u, t[..|t| - 1]);
      if 0 < |s1.readers| {
        StampsEven(cfg, u.ring, s1.readers[0].r);
      }
      hide Run, Inv, Ix;
    }
  }

  /** The result of a call during which the ring did not change. */
  lemma {:induction false} AloneResult(cfg: Config, u: State, u': State, i: nat)
    requires Inv(cfg, u) && u'.ring == u.ring && u.ring.writer.WIdle?
    requires i < |u.readers| <= |u'.readers| && |u'.readers[i].log| == |u.readers[i].log| + 1
    requires CallOk(cfg, u, u', i)
    ensures 0 <= u.readers[i].r <= |u.ring.hist|
    ensures u'.readers[i].log[|u.readers[i].log|] == CallResult(cfg.cap, u.ring.hist, u.readers[i].r)
  {
    assert ReaderInv(cfg, u.ring, u.readers[i]);
    CursorNearEnd(cfg, u.ring);
    hide Inv, RingInv, ReaderInv;
  }

  /** A call of the code, read back over unbounded counters. */
  lemma {:induction false} CodeResult(cfg: Config, b: nat, k: nat, u: State, t: seq<Act>)
    requires Fits(cfg, b, k) && Inv(cfg, u) && SkipsFit(b, u) && |u.readers| == 1
    requires WithinLag(cfg, b, u, t)
    ensures Shaped(Narrow(cfg, b), Wrap(b, u))
    ensures var w', u' := Run(Narrow(cfg, b), Wrap(b, u), t), Run(cfg, u, t);
            && Inv(cfg, u') && SkipsFit(b, u') && w' == Wrap(b, u')
            && (|u'.readers| == 1 && |w'.readers[0].log| == |u.readers[0].log| + 1 ==>
                |u'.readers[0].log| == |w'.readers[0].log| && CallOk(cfg, u, u', 0))
  {
    WrapRefines(cfg, b, k, u, t);
    RunInv(cfg, u, t);
    RunGrows(cfg, u, t);
    var u' := Run(cfg, u, t);
    if |u'.readers| == 1 && |u'.readers[0].log| == |u.readers[0].log| + 1 {
      OneResult(cfg, u, t, 0);
    }
  }
}
