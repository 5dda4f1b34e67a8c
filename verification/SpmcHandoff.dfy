/** The handoff benchmark's shutdown over the SPMC ring: the producer publishes `n`
    values and then sets a done flag; the consumer reads until `Empty`, asks for the flag,
    and once it has seen it drains until `Empty` again and returns.
 */
module SpmcHandoff {
  import opened Words
  import opened Payloads
  import opened Threads
  import opened Shutdown
  import opened Spmc
  import opened SpmcInvariant
  import opened SpmcTheorems
  import opened SpmcWrap
  import opened SpmcCode

  datatype Bench = Bench(s: State, done: bool, phase: Phase)

  datatype BenchAct = Produce(wa: WriterAct) | SetDone | Consume(j: nat) | LoadDone

  function Start(cfg: Config): (x: Bench)
    requires cfg.cap > 0
    ensures Shaped(cfg, x.s)
  {
    Bench(Init(cfg), false, Poll)
  }

  /** The consumer's loops move on when a call has returned `Empty`. */
  function AfterCall(phase: Phase, before: Reader, after: Reader): Phase {
    if |after.log| > |before.log| && after.log[|after.log| - 1] == Empty then
      OnEmpty(phase)
    else phase
  }

  function Step(cfg: Config, n: nat, x: Bench, a: BenchAct): (x': Bench)
    requires Shaped(cfg, x.s)
    ensures Shaped(cfg, x'.s)
  {
    match a
    case Produce(wa) =>
      if wa.Begin? && |x.s.ring.hist| >= n then x else x.(s := Next(cfg, x.s, W(wa)))
    case SetDone =>
      if |x.s.ring.hist| == n && x.s.ring.writer.WIdle? then x.(done := true) else x
    case Consume(j) =>
      if (x.phase == Poll || x.phase == Drain) && |x.s.readers| == 1 then
        var s' := Next(cfg, x.s, R(0, j));
        x.(s := s', phase := AfterCall(x.phase, x.s.readers[0], s'.readers[0]))
      else x
    case LoadDone =>
      if x.phase == AskDone then x.(phase := OnFlag(x.done)) else x
  }

  function RunBench(cfg: Config, n: nat, t: seq<BenchAct>): (x: Bench)
    requires cfg.cap > 0
    ensures Shaped(cfg, x.s)
    decreases |t|
  {
    if t == [] then Start(cfg) else Step(cfg, n, RunBench(cfg, n, t[..|t| - 1]), t[|t| - 1])
  }

  ghost predicate BenchInv(cfg: Config, n: nat, x: Bench) {
    && Inv(cfg, x.s)
    && |x.s.readers| == 1 && x.s.readers[0].base == 0
    && |x.s.ring.hist| <= n
    && (x.s.ring.writer.WLoaded? ==> |x.s.ring.hist| < n)
    && (x.done ==> |x.s.ring.hist| == n && x.s.ring.writer.WIdle?)
    && (x.phase == Drain || x.phase == Returned ==> x.done)
    && (x.phase == Returned ==> x.s.readers[0].r == n)
    && (x.phase == AskDone ==> EndsEmpty(x.s.readers[0]))
  }

  /** The consumer is between calls, and its last call found nothing. */
  predicate EndsEmpty(c: Reader) {
    c.pc.RIdle? && c.log != [] && c.log[|c.log| - 1] == Empty
  }

  lemma {:induction false} ConsumeKeeps(cfg: Config, n: nat, x: Bench, j: nat)
    requires BenchInv(cfg, n, x)
    ensures BenchInv(cfg, n, Step(cfg, n, x, Consume(j)))
  {
    hide Ix, LogOk, Advance;
    NextInv(cfg, x.s, R(0, j));
    assert ReaderInv(cfg, x.s.ring, x.s.readers[0]);
    hide Ix, RingInv;
  }

  lemma {:induction false} StepKeeps(cfg: Config, n: nat, x: Bench, a: BenchAct)
    requires BenchInv(cfg, n, x)
    ensures BenchInv(cfg, n, Step(cfg, n, x, a))
  {
    match a
    case Produce(wa) =>
      NextInv(cfg, x.s, W(wa));
      hide Ix, ReaderInv;
    case SetDone =>
    case Consume(j) => ConsumeKeeps(cfg, n, x, j);
    case LoadDone =>
  }

  lemma {:induction false} BenchKeeps(cfg: Config, n: nat, t: seq<BenchAct>)
    requires cfg.cap > 0 && cfg.wd == Unbounded
    ensures BenchInv(cfg, n, RunBench(cfg, n, t))
    decreases |t|
  {
    if t == [] {
      InitInv(cfg);
    } else {
      BenchKeeps(cfg, n, t[..|t| - 1]);
      StepKeeps(cfg, n, RunBench(cfg, n, t[..|t| - 1]), t[|t| - 1]);
    }
  }

  /** Shutdown completeness, for every interleaving: when the consumer returns, all `n`
      values are published, and the values it received plus those it was told it skipped
      are exactly `n`; what it received is a stream of them. */
  lemma {:induction false} HandoffComplete(cfg: Config, n: nat, t: seq<BenchAct>)
    requires cfg.cap > 0 && cfg.wd == Unbounded && RunBench(cfg, n, t).phase == Returned
    ensures var s := RunBench(cfg, n, t).s;
            && |s.ring.hist| == n && |s.readers| == 1
            && var log := s.readers[0].log;
               && |Values(log)| + TotalSkipped(log) == n
               && IsStream(Values(log), Positions(log, 0), 0, n, s.ring.hist)
  {
    BenchKeeps(cfg, n, t);
    var s := RunBench(cfg, n, t).s;
    LogIsStream(cfg.cap, s.readers[0].log, 0, s.ring.hist);
  }

  /** The consumer looks at the flag only after a call that found nothing, in every
      interleaving. */
  lemma {:induction false} AskedWhenEmpty(cfg: Config, n: nat, t: seq<BenchAct>)
    requires cfg.cap > 0 && cfg.wd == Unbounded && RunBench(cfg, n, t).phase == AskDone
    ensures var s := RunBench(cfg, n, t).s;
            |s.readers| == 1 && EndsEmpty(s.readers[0])
  {
    BenchKeeps(cfg, n, t);
  }

  // ------------------------------------------------------------ wrapping words

  /** Along the run, the consumer is at most `2^(b-1)` publications behind when it steps. */
  ghost predicate BenchWithinLag(cfg: Config, b: nat, n: nat, t: seq<BenchAct>)
    requires cfg.cap > 0 && b > 0
    decreases |t|
  {
    t == [] ||
    var u, a := t[..|t| - 1], t[|t| - 1];
    var s := RunBench(cfg, n, u).s;
    && BenchWithinLag(cfg, b, n, u)
    && (a.Consume? && |s.readers| == 1 ==> |s.ring.hist| - s.readers[0].r <= Pow2(b - 1))
  }

  lemma {:induction false} ConsumeWraps(cfg: Config, b: nat, k: nat, n: nat, x: Bench, j: nat)
    requires Fits(cfg, b, k) && BenchInv(cfg, n, x) && SkipsFit(b, x.s)
    requires |x.s.ring.hist| - x.s.readers[0].r <= Pow2(b - 1)
    ensures Shaped(Narrow(cfg, b), Wrap(b, x.s))
    ensures var x' := Step(cfg, n, x, Consume(j));
            && Step(Narrow(cfg, b), n, x.(s := Wrap(b, x.s)), Consume(j)) == x'.(s := Wrap(b, x'.s))
            && SkipsFit(b, x'.s)
  {
    hide Ix, LogOk, Advance;
    LagBound(cfg, b, x.s.ring, x.s.readers[0], j);
    NextSquare(cfg, b, k, x.s, R(0, j));
    NextSkipsFit(cfg, b, x.s, R(0, j));
    var c, c' := x.s.readers[0], Next(cfg, x.s, R(0, j)).readers[0];
    hide Inv, ReaderInv, RingInv, ReaderNext, WriterNext;
    assert AfterCall(x.phase, WrapReader(b, c), WrapReader(b, c')) == AfterCall(x.phase, c, c');
  }

  lemma {:induction false} StepWraps(cfg: Config, b: nat, k: nat, n: nat, x: Bench, a: BenchAct)
    requires Fits(cfg, b, k) && BenchInv(cfg, n, x) && SkipsFit(b, x.s)
    requires a.Consume? ==> |x.s.ring.hist| - x.s.readers[0].r <= Pow2(b - 1)
    ensures Shaped(Narrow(cfg, b), Wrap(b, x.s))
    ensures var x' := Step(cfg, n, x, a);
            && Step(Narrow(cfg, b), n, x.(s := Wrap(b, x.s)), a) == x'.(s := Wrap(b, x'.s))
            && SkipsFit(b, x'.s)
  {
    if a.Consume? {
      ConsumeWraps(cfg, b, k, n, x, a.j);
    } else {
      var wa := if a.Produce? then a.wa else Store(0);
      NextSquare(cfg, b, k, x.s, W(wa));
      NextSkipsFit(cfg, b, x.s, W(wa));
      hide Next, Inv;
    }
  }

  lemma {:induction false} BenchWraps(cfg: Config, b: nat, k: nat, n: nat, t: seq<BenchAct>)
    requires Fits(cfg, b, k) && BenchWithinLag(cfg, b, n, t)
    ensures var x := RunBench(cfg, n, t);
            RunBench(Narrow(cfg, b), n, t) == x.(s := Wrap(b, x.s)) && SkipsFit(b, x.s)
    decreases |t|
  {
    if t == [] {
      InitWraps(cfg, b);
    } else {
      var u := t[..|t| - 1];
      BenchWraps(cfg, b, k, n, u);
      BenchKeeps(cfg, n, u);
      StepWraps(cfg, b, k, n, RunBench(cfg, n, u), t[|t| - 1]);
    }
  }

  /** The same on wrapping words, for any number of values, while the consumer keeps within
      the lag bound. */
  lemma {:induction false} WrappedHandoffComplete(cfg: Config, b: nat, k: nat, n: nat, t: seq<BenchAct>)
    requires Fits(cfg, b, k) && BenchWithinLag(cfg, b, n, t)
    requires RunBench(Narrow(cfg, b), n, t).phase == Returned
    ensures var w := RunBench(Narrow(cfg, b), n, t).s;
            && |w.ring.hist| == n && |w.readers| == 1
            && var log := w.readers[0].log;
               && |Values(log)| + TotalSkipped(log) == n
               && IsStream(Values(log), Positions(log, 0), 0, n, w.ring.hist)
  {
    BenchWraps(cfg, b, k, n, t);
    HandoffComplete(cfg, n, t);
  }

  /** Up to `2^(b-1)` values the consumer cannot leave the bound. */
  lemma {:induction false} FewValuesWithinLag(cfg: Config, b: nat, n: nat, t: seq<BenchAct>)
    requires cfg.cap > 0 && cfg.wd == Unbounded && b > 0 && n <= Pow2(b - 1)
    ensures BenchWithinLag(cfg, b, n, t)
    decreases |t|
  {
    if t != [] {
      FewValuesWithinLag(cfg, b, n, t[..|t| - 1]);
      BenchKeeps(cfg, n, t[..|t| - 1]);
    }
  }

  // ------------------------------------------------------------ the consumer alone

  /** The consumer's next step; `j` chooses the word when it is copying. */
  function ConsumerAct(x: Bench, j: nat): BenchAct {
    if x.phase == AskDone then LoadDone else Consume(j)
  }

  /** The consumer runs alone. */
  function RunAlone(cfg: Config, n: nat, x: Bench, js: seq<nat>): (x': Bench)
    requires Shaped(cfg, x.s)
    ensures Shaped(cfg, x'.s)
    decreases |js|
  {
    if js == [] then x else RunAlone(cfg, n, Step(cfg, n, x, ConsumerAct(x, js[0])), js[1..])
  }

  ghost predicate AloneProductive(cfg: Config, n: nat, x: Bench, js: seq<nat>)
    requires Shaped(cfg, x.s)
    decreases |js|
  {
    js == [] || |x.s.readers| != 1 ||
    (Productive(cfg, x.s.readers[0], js[0]) &&
     AloneProductive(cfg, n, Step(cfg, n, x, ConsumerAct(x, js[0])), js[1..]))
  }

  /** The steps of `k` whole calls. */
  function Calls(cfg: Config, k: int): int {
    k * CallCost(cfg)
  }

  lemma {:induction false} CallsGrow(cfg: Config, k: int, l: int)
    requires 0 <= k
    ensures Calls(cfg, k) >= 0
    ensures k < l ==> Calls(cfg, k) + CallCost(cfg) <= Calls(cfg, l)
    ensures Calls(cfg, k + 2) == Calls(cfg, k) + 2 * CallCost(cfg)
  {
    if k < l {
      MulGap(l - k, CallCost(cfg));
      assert (l - k) * CallCost(cfg) == l * CallCost(cfg) - k * CallCost(cfg);
    }
  }

  /** Steps until a call finds the queue empty: the call in progress, one call for each value
      still to pass, and the call that finds nothing. */
  function EmptyFuel(cfg: Config, n: nat, m: Ring, c: Reader): int
    requires ShapedRing(cfg, m)
  {
    Calls(cfg, n - c.r) + CallFuel(cfg, m, c)
  }

  /** Steps until the consumer returns, once the producer is done. */
  function ShutdownFuel(cfg: Config, n: nat, x: Bench): int
    requires Shaped(cfg, x.s) && |x.s.readers| == 1
  {
    match x.phase
    case Returned => 0
    case Drain => EmptyFuel(cfg, n, x.s.ring, x.s.readers[0])
    case AskDone => EmptyFuel(cfg, n, x.s.ring, x.s.readers[0]) + 1
    case Poll => EmptyFuel(cfg, n, x.s.ring, x.s.readers[0]) + 1 + CallCost(cfg)
  }

  /** One step of a call with the producer done: it has less to do, or it returns and has
      moved towards the end, or it found nothing at the end. */
  lemma {:induction false} CallGoesOn(cfg: Config, n: nat, m: Ring, c: Reader, j: nat)
    requires RingInv(cfg, m) && cfg.wd == Unbounded && m.writer.WIdle? && |m.hist| == n
    requires ReaderInv(cfg, m, c) && Productive(cfg, c, j) && !c.pc.RIdle?
    ensures var c' := ReaderNext(cfg, m, c, j);
            && 0 <= c.r <= c'.r <= n
            && if !c'.pc.RIdle? then c'.log == c.log && c'.r == c.r && Fuel(cfg, m, c') < Fuel(cfg, m, c)
               else if c'.r == c.r then c.r == n && c'.log == c.log + [Empty]
               else |c'.log| > 0 && c'.log[|c'.log| - 1] != Empty
  {
    hide Ix;
    StampsEven(cfg, m, c.r);
    SoloStep(cfg, m, c, j);
    SoloResultStep(cfg, m, c, j);
    ReaderKeeps(cfg, m, c, j);
    hide RingInv, ReaderNext, Fuel, PcInv;
  }

  lemma {:induction false} CallStarts(cfg: Config, m: Ring, c: Reader, j: nat)
    requires ShapedRing(cfg, m) && c.pc.RIdle?
    ensures var c' := ReaderNext(cfg, m, c, j);
            && c'.log == c.log && c'.r == c.r && !c'.pc.RIdle?
            && Fuel(cfg, m, c') < CallCost(cfg)
  {
    FuelBound(cfg, m, ReaderNext(cfg, m, c, j));
    hide Ix, Fuel;
  }

  /** One step of the consumer's calls: it has less to do, or it found nothing at the end. */
  lemma {:induction false} CallStep(cfg: Config, n: nat, m: Ring, c: Reader, j: nat)
    requires RingInv(cfg, m) && cfg.wd == Unbounded && m.writer.WIdle? && |m.hist| == n
    requires ReaderInv(cfg, m, c) && Productive(cfg, c, j)
    ensures var c' := ReaderNext(cfg, m, c, j);
            && 0 <= c.r <= c'.r <= n
            && (if |c'.log| > |c.log| && c'.log[|c'.log| - 1] == Empty
                then c'.r == n && c'.pc.RIdle?
                else EmptyFuel(cfg, n, m, c') < EmptyFuel(cfg, n, m, c))
  {
    var c' := ReaderNext(cfg, m, c, j);
    if c.pc.RIdle? {
      CallStarts(cfg, m, c, j);
    } else {
      CallGoesOn(cfg, n, m, c, j);
      FuelLeft(cfg, m, c);
    }
    assert 0 <= c.r <= n;
    hide Ix, RingInv, ReaderNext, Fuel, ReaderInv, Calls, CallCost;
    CallsGrow(cfg, n - c'.r, n - c.r);
  }

  lemma {:induction false} ShutdownStep(cfg: Config, n: nat, x: Bench, j: nat)
    requires BenchInv(cfg, n, x) && x.done && x.phase != Returned && Productive(cfg, x.s.readers[0], j)
    ensures var x' := Step(cfg, n, x, ConsumerAct(x, j));
            && BenchInv(cfg, n, x') && x'.done && x'.s.ring == x.s.ring
            && 0 <= ShutdownFuel(cfg, n, x') < ShutdownFuel(cfg, n, x)
  {
    var x' := Step(cfg, n, x, ConsumerAct(x, j));
    hide RingInv, Fuel, EmptyFuel, LogOk, Advance, PcInv;
    StepKeeps(cfg, n, x, ConsumerAct(x, j));
    assert ReaderInv(cfg, x.s.ring, x.s.readers[0]);
    hide ReaderNext;
    CallFuelPositive(cfg, n, x'.s.ring, x'.s.readers[0]);
    if x.phase != AskDone {
      CallStep(cfg, n, x.s.ring, x.s.readers[0], j);
      LastCall(cfg, n, x.s.ring, x.s.readers[0], x'.s.readers[0]);
      hide ReaderInv;
    }
  }

  /** After the call that found nothing, one whole call is left at most. */
  lemma {:induction false} LastCall(cfg: Config, n: nat, m: Ring, c: Reader, c': Reader)
    requires ShapedRing(cfg, m) && c.r <= n
    ensures EmptyFuel(cfg, n, m, c) > 0
    ensures c'.r == n && c'.pc.RIdle? ==> EmptyFuel(cfg, n, m, c') == CallCost(cfg)
  {
    CallFuelPositive(cfg, n, m, c);
  }

  lemma {:induction false} CallFuelPositive(cfg: Config, n: nat, m: Ring, c: Reader)
    requires ShapedRing(cfg, m) && c.r <= n
    ensures EmptyFuel(cfg, n, m, c) > 0
  {
    if !c.pc.RIdle? {
      FuelLeft(cfg, m, c);
    }
    CallsGrow(cfg, n - c.r, n - c.r);
  }

  /** The shutdown ends.  From any state of the benchmark in which the producer is done, the
      consumer on its own returns within `ShutdownFuel` steps, and then all `n` values are
      received or counted as skipped. */
  lemma {:induction false} ShutdownEnds(cfg: Config, n: nat, x: Bench, js: seq<nat>)
    requires BenchInv(cfg, n, x) && x.done && AloneProductive(cfg, n, x, js)
    requires |js| >= ShutdownFuel(cfg, n, x)
    ensures var x' := RunAlone(cfg, n, x, js);
            && BenchInv(cfg, n, x') && x'.phase == Returned
            && var log := x'.s.readers[0].log;
               |Values(log)| + TotalSkipped(log) == n
    decreases |js|
  {
    if x.phase == Returned {
      StaysReturned(cfg, n, x, js);
      LogIsStream(cfg.cap, x.s.readers[0].log, 0, x.s.ring.hist);
    } else {
      CallFuelPositive(cfg, n, x.s.ring, x.s.readers[0]);
      ShutdownStep(cfg, n, x, js[0]);
      hide BenchInv, ShutdownFuel, Step;
      ShutdownEnds(cfg, n, Step(cfg, n, x, ConsumerAct(x, js[0])), js[1..]);
    }
  }

  lemma {:induction false} StaysReturned(cfg: Config, n: nat, x: Bench, js: seq<nat>)
    requires Shaped(cfg, x.s) && x.phase == Returned
    ensures RunAlone(cfg, n, x, js) == x
    decreases |js|
  {
    if js != [] {
      StaysReturned(cfg, n, x, js[1..]);
    }
  }

  /** A bound in the caller's terms: the distance to the end, two calls more, and the flag. */
  lemma {:induction false} ShutdownBound(cfg: Config, n: nat, x: Bench)
    requires BenchInv(cfg, n, x)
    ensures ShutdownFuel(cfg, n, x) <= Calls(cfg, n - x.s.readers[0].r + 2) + 1
  {
    var c := x.s.readers[0];
    FuelBound(cfg, x.s.ring, c);
    assert ReaderInv(cfg, x.s.ring, c);
    CallsGrow(cfg, n - c.r, n - c.r);
    hide Calls, Fuel;
  }

  // ------------------------------------------------------------ both threads

  /** A turn of one thread: the value and word the producer chooses, or the word the consumer
      chooses. */
  datatype Turn = Producing(v: Payload, j: nat) | Consuming(j: nat)

  function TurnAct(n: nat, x: Bench, turn: Turn): BenchAct {
    match turn
    case Producing(v, j) =>
      if !x.s.ring.writer.WIdle? then Produce(Store(j))
      else if |x.s.ring.hist| == n then SetDone
      else Produce(Begin(v))
    case Consuming(j) => ConsumerAct(x, j)
  }

  /** The turn does some of its thread's work. */
  ghost predicate Works(cfg: Config, x: Bench, turn: Turn) {
    match turn
    case Producing(v, j) =>
      && |v| == cfg.nw
      && (x.s.ring.writer.WCopying? ==>
          AllWords(cfg.nw, x.s.ring.writer.done) || (j < cfg.nw && j !in x.s.ring.writer.done))
    case Consuming(j) => |x.s.readers| == 1 && Productive(cfg, x.s.readers[0], j)
  }

  function RunTurns(cfg: Config, n: nat, x: Bench, turns: seq<Turn>): (x': Bench)
    requires Shaped(cfg, x.s)
    ensures Shaped(cfg, x'.s)
    decreases |turns|
  {
    if turns == [] then x else RunTurns(cfg, n, Step(cfg, n, x, TurnAct(n, x, turns[0])), turns[1..])
  }

  ghost predicate TurnsWork(cfg: Config, n: nat, x: Bench, turns: seq<Turn>)
    requires Shaped(cfg, x.s)
    decreases |turns|
  {
    turns == [] ||
    (Works(cfg, x, turns[0]) && TurnsWork(cfg, n, Step(cfg, n, x, TurnAct(n, x, turns[0])), turns[1..]))
  }

  /** A run in rounds: in each, both threads take a turn at least, in any order. */
  function RunRounds(cfg: Config, n: nat, x: Bench, rounds: seq<seq<Turn>>): (x': Bench)
    requires Shaped(cfg, x.s)
    ensures Shaped(cfg, x'.s)
    decreases |rounds|
  {
    if rounds == [] then x else RunRounds(cfg, n, RunTurns(cfg, n, x, rounds[0]), rounds[1..])
  }

  ghost predicate Fair(cfg: Config, n: nat, x: Bench, rounds: seq<seq<Turn>>)
    requires Shaped(cfg, x.s)
    decreases |rounds|
  {
    rounds == [] ||
    (&& TurnsWork(cfg, n, x, rounds[0])
     && (exists k :: 0 <= k < |rounds[0]| && rounds[0][k].Producing?)
     && (exists k :: 0 <= k < |rounds[0]| && rounds[0][k].Consuming?)
     && Fair(cfg, n, RunTurns(cfg, n, x, rounds[0]), rounds[1..]))
  }

  /** Steps until the producer has set the flag: those of the publication in progress, and at
      most `nw + 5` for each still to come. */
  function WriterFuel(cfg: Config, n: nat, m: Ring): int {
    Calls(cfg, n - |m.hist|) +
    match m.writer
    case WIdle => 1
    case WLoaded(_, _) => 0
    case WCopying(_, _, done) => |Missing(cfg.nw, done)| + 3
    case WSealed(_) => 2
  }

  /** Rounds until the consumer returns. */
  function RoundFuel(cfg: Config, n: nat, x: Bench): int
    requires Shaped(cfg, x.s) && |x.s.readers| == 1
  {
    if x.done then ShutdownFuel(cfg, n, x)
    else WriterFuel(cfg, n, x.s.ring) + Calls(cfg, n + 2) + 2
  }

  /** A store of the producer uses fuel. */
  lemma {:induction false} StoreUsesFuel(cfg: Config, n: nat, m: Ring, v: Payload, j: nat)
    requires ShapedRing(cfg, m) && |v| == cfg.nw && (m.writer.WLoaded? || m.writer.WIdle? ==> |m.hist| < n)
    requires |m.hist| <= n
    requires m.writer.WCopying? ==> AllWords(cfg.nw, m.writer.done) || (j < cfg.nw && j !in m.writer.done)
    ensures WriterFuel(cfg, n, WriterNext(cfg, m, if m.writer.WIdle? then Begin(v) else Store(j)))
            < WriterFuel(cfg, n, m)
  {
    hide Ix, Calls;
    MissingAtMost(cfg.nw, {});
    if m.writer.WLoaded? {
      CallsGrow(cfg, n - |m.hist| - 1, n - |m.hist|);
    } else if m.writer.WCopying? && j < cfg.nw && j !in m.writer.done {
      MissingNext(cfg.nw, m.writer.done, j);
    }
  }

  /** A turn of the thread that is needed, the producer until it has set the flag and then the
      consumer, uses fuel; and no turn adds any. */
  lemma {:induction false} TurnUsesFuel(cfg: Config, n: nat, x: Bench, turn: Turn)
    requires BenchInv(cfg, n, x) && Works(cfg, x, turn)
    ensures var x' := Step(cfg, n, x, TurnAct(n, x, turn));
            && BenchInv(cfg, n, x') && (x.done ==> x'.done)
            && RoundFuel(cfg, n, x') <= RoundFuel(cfg, n, x)
            && (turn.Consuming? == x.done && x.phase != Returned ==> RoundFuel(cfg, n, x') < RoundFuel(cfg, n, x))
            && (x.done != x'.done ==> RoundFuel(cfg, n, x') < RoundFuel(cfg, n, x))
            && (x.phase == Returned ==> x'.phase == Returned)
  {
    StepKeeps(cfg, n, x, TurnAct(n, x, turn));
    if turn.Producing? {
      ProducingUsesFuel(cfg, n, x, turn.v, turn.j);
    } else if x.done && x.phase != Returned {
      ShutdownStep(cfg, n, x, turn.j);
      hide ShutdownFuel, BenchInv;
    } else {
      hide BenchInv, Calls, ReaderNext;
    }
  }

  lemma {:induction false} ProducingUsesFuel(cfg: Config, n: nat, x: Bench, v: Payload, j: nat)
    requires BenchInv(cfg, n, x) && Works(cfg, x, Producing(v, j))
    ensures var x' := Step(cfg, n, x, TurnAct(n, x, Producing(v, j)));
            && x'.phase == x.phase && |x'.s.readers| == 1
            && (if x.done then x' == x else RoundFuel(cfg, n, x') < RoundFuel(cfg, n, x))
  {
    var m := x.s.ring;
    var c := x.s.readers[0];
    assert 0 <= c.r <= n by {
      assert ReaderInv(cfg, m, c);
      CursorNearEnd(cfg, m);
    }
    assert ShapedRing(cfg, m);
    hide RingInv, ReaderInv, Ix;
    if m.writer.WIdle? && |m.hist| == n {
      ShutdownBound(cfg, n, x);
      CallsGrow(cfg, n - c.r + 2, n + 2);
      CallsGrow(cfg, 0, 1);
      hide ShutdownFuel, Calls, CallCost;
    } else {
      StoreUsesFuel(cfg, n, m, v, j);
      hide WriterFuel, Calls, WriterNext;
    }
  }

  /** A round uses fuel. */
  lemma {:induction false} RoundMoves(cfg: Config, n: nat, x: Bench, turns: seq<Turn>)
    requires BenchInv(cfg, n, x) && TurnsWork(cfg, n, x, turns)
    ensures var x' := RunTurns(cfg, n, x, turns);
            && BenchInv(cfg, n, x') && (x.done ==> x'.done)
            && RoundFuel(cfg, n, x') <= RoundFuel(cfg, n, x)
            && (x.phase == Returned ==> x'.phase == Returned)
            && (x.phase != Returned && (exists k :: 0 <= k < |turns| && turns[k].Consuming? == x.done) ==>
                RoundFuel(cfg, n, x') < RoundFuel(cfg, n, x))
    decreases |turns|
  {
    if turns != [] {
      var x1 := Step(cfg, n, x, TurnAct(n, x, turns[0]));
      TurnUsesFuel(cfg, n, x, turns[0]);
      ReturnedUsesAll(cfg, n, x);
      ReturnedUsesAll(cfg, n, x1);
      hide BenchInv, Step, RoundFuel, Works;
      RoundMoves(cfg, n, x1, turns[1..]);
      assert forall k :: 1 <= k < |turns| ==> turns[k] == turns[1..][k - 1];
    }
  }

  lemma {:induction false} ReturnedUsesAll(cfg: Config, n: nat, x: Bench)
    requires BenchInv(cfg, n, x)
    ensures RoundFuel(cfg, n, x) >= 0
    ensures RoundFuel(cfg, n, x) == 0 <==> x.phase == Returned
  {
    var c := x.s.readers[0];
    assert 0 <= c.r <= n by {
      assert ReaderInv(cfg, x.s.ring, c);
      CursorNearEnd(cfg, x.s.ring);
    }
    CallFuelPositive(cfg, n, x.s.ring, c);
    CallsGrow(cfg, n - |x.s.ring.hist|, n - |x.s.ring.hist|);
    CallsGrow(cfg, n + 2, n + 2);
    hide EmptyFuel, Calls, RingInv, ReaderInv;
  }

  lemma {:induction false} CallsAdd(cfg: Config, k: int, l: int)
    ensures Calls(cfg, k) + Calls(cfg, l) == Calls(cfg, k + l)
    ensures Calls(cfg, 1) == CallCost(cfg)
  {
  }

  /** A bound that does not depend on the state. */
  lemma {:induction false} RoundBound(cfg: Config, n: nat, x: Bench)
    requires BenchInv(cfg, n, x)
    ensures RoundFuel(cfg, n, x) <= Calls(cfg, 2 * n + 3)
  {
    var c, m := x.s.readers[0], x.s.ring;
    assert 0 <= c.r <= n by {
      assert ReaderInv(cfg, m, c);
      CursorNearEnd(cfg, m);
    }
    hide Calls, RingInv, ReaderInv, Ix;
    CallsAdd(cfg, n, n + 3);
    CallsGrow(cfg, n, n);
    if x.done {
      ShutdownBound(cfg, n, x);
      CallsAdd(cfg, 1, n - c.r + 2);
      CallsGrow(cfg, n - c.r + 3, n + 3);
      hide ShutdownFuel;
    } else {
      CallsAdd(cfg, 1, n + 2);
      CallsGrow(cfg, n - |m.hist|, n);
      if m.writer.WCopying? {
        MissingAtMost(cfg.nw, m.writer.done);
      }
    }
  }

  /** Progress.  From any state of the benchmark, every run in which both threads take turns,
      in any order and at any relative speed, laps included, is over after `RoundFuel` rounds:
      all `n` values are published, and received or counted as skipped. */
  lemma {:induction false} RoundsEnd(cfg: Config, n: nat, x: Bench, rounds: seq<seq<Turn>>)
    requires BenchInv(cfg, n, x) && Fair(cfg, n, x, rounds) && |rounds| >= RoundFuel(cfg, n, x)
    ensures var x' := RunRounds(cfg, n, x, rounds);
            && BenchInv(cfg, n, x') && x'.phase == Returned && |x'.s.ring.hist| == n
            && var log := x'.s.readers[0].log;
               |Values(log)| + TotalSkipped(log) == n
    decreases |rounds|
  {
    ReturnedUsesAll(cfg, n, x);
    if rounds == [] {
      LogIsStream(cfg.cap, x.s.readers[0].log, 0, x.s.ring.hist);
    } else {
      RoundMoves(cfg, n, x, rounds[0]);
      ReturnedUsesAll(cfg, n, RunTurns(cfg, n, x, rounds[0]));
      assert exists k :: 0 <= k < |rounds[0]| && rounds[0][k].Consuming? == x.done;
      hide BenchInv, RunTurns, RoundFuel, TurnsWork;
      RoundsEnd(cfg, n, RunTurns(cfg, n, x, rounds[0]), rounds[1..]);
    }
  }

  // ------------------------------------------------------------ before the flag

  /** The consumer turns left until its next result: the load of the flag if that is next, and
      the steps of its call. */
  function TurnsLeft(cfg: Config, x: Bench): nat
    requires Shaped(cfg, x.s) && |x.s.readers| == 1
  {
    CallFuel(cfg, x.s.ring, x.s.readers[0]) + (if x.phase == AskDone then 1 else 0)
  }

  lemma {:induction false} TurnsLeftBound(cfg: Config, n: nat, x: Bench)
    requires BenchInv(cfg, n, x)
    ensures 0 < TurnsLeft(cfg, x) <= cfg.nw + 6
  {
    FuelBound(cfg, x.s.ring, x.s.readers[0]);
    FuelLeft(cfg, x.s.ring, x.s.readers[0]);
  }

  /** Turns of the consumer in a sequence of turns. */
  function Consumings(turns: seq<Turn>): nat {
    if turns == [] then 0 else (if turns[0].Consuming? then 1 else 0) + Consumings(turns[1..])
  }

  /** What one turn does to the consumer while its slot is not reused: a turn of the producer
      nothing, and a turn of its own brings it nearer to its result, or is the result. */
  lemma {:induction false} TurnEffect(cfg: Config, n: nat, x: Bench, turn: Turn)
    requires BenchInv(cfg, n, x) && Works(cfg, x, turn) && x.phase != Returned
    requires |Step(cfg, n, x, TurnAct(n, x, turn)).s.ring.hist| <= x.s.readers[0].r + cfg.cap
    ensures var x' := Step(cfg, n, x, TurnAct(n, x, turn));
            && BenchInv(cfg, n, x')
            && if turn.Producing? then
                 x'.s.readers == x.s.readers && x'.phase == x.phase && TurnsLeft(cfg, x') == TurnsLeft(cfg, x)
               else
                 var c, c' := x.s.readers[0], x'.s.readers[0];
                 && x'.s.ring == x.s.ring
                 && if c'.log == c.log then c'.r == c.r && TurnsLeft(cfg, x') < TurnsLeft(cfg, x)
                    else
                      && |c'.log| == |c.log| + 1 && c'.log == c.log + [c'.log[|c.log|]]
                      && ResultAt(cfg, x.s.ring, c.r, c'.log[|c.log|])
                      && c'.r == c.r + Span(c'.log[|c.log|])
  {
    StepKeeps(cfg, n, x, TurnAct(n, x, turn));
    if turn.Producing? {
      ProducingEffect(cfg, n, x, turn.v, turn.j);
    } else if x.phase != AskDone {
      ConsumingEffect(cfg, n, x, turn.j);
    }
    hide BenchInv, CallFuel, ReaderNext, WriterNext;
  }

  lemma {:induction false} ProducingEffect(cfg: Config, n: nat, x: Bench, v: Payload, j: nat)
    requires BenchInv(cfg, n, x)
    requires |Step(cfg, n, x, TurnAct(n, x, Producing(v, j))).s.ring.hist| <= x.s.readers[0].r + cfg.cap
    ensures var x' := Step(cfg, n, x, TurnAct(n, x, Producing(v, j)));
            x'.s.readers == x.s.readers && x'.phase == x.phase && TurnsLeft(cfg, x') == TurnsLeft(cfg, x)
  {
    var a := TurnAct(n, x, Producing(v, j));
    if a.Produce? && !(a.wa.Begin? && |x.s.ring.hist| >= n) {
      OthersKeepFuel(cfg, x.s, W(a.wa), 0);
    }
    hide CallFuel, WriterNext, Inv;
  }

  lemma {:induction false} ConsumingEffect(cfg: Config, n: nat, x: Bench, j: nat)
    requires BenchInv(cfg, n, x) && (x.phase == Poll || x.phase == Drain) && Productive(cfg, x.s.readers[0], j)
    requires |x.s.ring.hist| <= x.s.readers[0].r + cfg.cap
    ensures var x' := Step(cfg, n, x, Consume(j));
            var c, c' := x.s.readers[0], x'.s.readers[0];
            && x'.s.ring == x.s.ring
            && if c'.log == c.log then c'.r == c.r && TurnsLeft(cfg, x') < TurnsLeft(cfg, x)
               else
                 && |c'.log| == |c.log| + 1 && c'.log == c.log + [c'.log[|c.log|]]
                 && ResultAt(cfg, x.s.ring, c.r, c'.log[|c.log|])
                 && c'.r == c.r + Span(c'.log[|c.log|])
  {
    var m, c, c' := x.s.ring, x.s.readers[0], ReaderNext(cfg, x.s.ring, x.s.readers[0], j);
    assert ReaderInv(cfg, m, c);
    StepResult(cfg, m, c, j);
    OwnStepUsesFuel(cfg, m, c, j);
    ReaderKeeps(cfg, m, c, j);
    assert c'.base + Advance(c'.log) == c'.r && c.base + Advance(c.log) == c.r && c'.base == c.base;
    hide ReaderNext, CallFuel, RingInv, ReaderInv, ResultAt, Ix, Advance;
    if c'.log != c.log {
      LogParts(c.log, c'.log[|c.log|], 0);
    }
  }

  /** Turns keep the invariant, and only add. */
  lemma {:induction false} TurnsGrow(cfg: Config, n: nat, x: Bench, turns: seq<Turn>)
    requires BenchInv(cfg, n, x)
    ensures var x' := RunTurns(cfg, n, x, turns);
            && BenchInv(cfg, n, x')
            && x.s.ring.hist <= x'.s.ring.hist && x.s.ring.cursor <= x'.s.ring.cursor
            && x.s.readers[0].log <= x'.s.readers[0].log
    decreases |turns|
  {
    if turns != [] {
      var a := TurnAct(n, x, turns[0]);
      StepKeeps(cfg, n, x, a);
      StepGrows(cfg, n, x, a);
      hide BenchInv, Step;
      TurnsGrow(cfg, n, Step(cfg, n, x, a), turns[1..]);
    }
  }

  lemma {:induction false} StepGrows(cfg: Config, n: nat, x: Bench, a: BenchAct)
    requires BenchInv(cfg, n, x)
    ensures var x' := Step(cfg, n, x, a);
            && |x'.s.readers| == 1
            && x.s.ring.hist <= x'.s.ring.hist && x.s.ring.cursor <= x'.s.ring.cursor
            && x.s.readers[0].log <= x'.s.readers[0].log
  {
    match a
    case Produce(wa) =>
      NextGrows(cfg, x.s, W(wa));
      hide WriterNext, Inv;
    case Consume(j) =>
      NextGrows(cfg, x.s, R(0, j));
      hide ReaderNext, Inv;
    case SetDone =>
    case LoadDone =>
  }

  /** The consumer does not wait for the flag.  From any state of the benchmark, the flag set
      or not and whatever phase it is in, a consumer with a value published receives it within
      `nw + 6` turns of its own, in every interleaving in which its slot is not reused. */
  lemma {:induction false} ReceivesNext(cfg: Config, n: nat, x: Bench, turns: seq<Turn>)
    requires BenchInv(cfg, n, x) && TurnsWork(cfg, n, x, turns) && x.s.readers[0].r < x.s.ring.cursor
    requires |RunTurns(cfg, n, x, turns).s.ring.hist| <= x.s.readers[0].r + cfg.cap
    ensures TurnsLeft(cfg, x) <= cfg.nw + 6
    ensures var c, x' := x.s.readers[0], RunTurns(cfg, n, x, turns);
            && |x'.s.readers| == 1 && 0 <= c.r < |x'.s.ring.hist|
            && var c' := x'.s.readers[0];
               && c.log <= c'.log
               && (Consumings(turns) >= TurnsLeft(cfg, x) ==> c'.log != c.log)
               && (c'.log != c.log ==> c'.log[|c.log|] == Value(x'.s.ring.hist[c.r]))
    decreases |turns|
  {
    TurnsLeftBound(cfg, n, x);
    TurnsGrow(cfg, n, x, turns);
    InHistory(cfg, n, x);
    if turns != [] {
      var x1 := Step(cfg, n, x, TurnAct(n, x, turns[0]));
      StepKeeps(cfg, n, x, TurnAct(n, x, turns[0]));
      StepGrows(cfg, n, x, TurnAct(n, x, turns[0]));
      TurnsGrow(cfg, n, x1, turns[1..]);
      TurnEffect(cfg, n, x, turns[0]);
      hide BenchInv, Step, TurnsLeft, TurnAct, Works;
      if x1.s.readers[0].log == x.s.readers[0].log {
        ReceivesNext(cfg, n, x1, turns[1..]);
      }
    }
  }

  lemma {:induction false} InHistory(cfg: Config, n: nat, x: Bench)
    requires BenchInv(cfg, n, x)
    ensures 0 <= x.s.readers[0].r <= x.s.ring.cursor <= |x.s.ring.hist| <= x.s.ring.cursor + 1
    ensures x.s.readers[0].r < x.s.ring.cursor ==> x.phase != Returned
  {
    assert ReaderInv(cfg, x.s.ring, x.s.readers[0]);
    CursorNearEnd(cfg, x.s.ring);
    hide RingInv, ReaderInv;
  }

  // ------------------------------------------------------------ a paced producer

  /** The turns the consumer has taken, and for each value published the turn by which it is
      due: `nw + 6` turns after it is shown, or after the value before it is due. */
  datatype Pace = Pace(turns: nat, due: seq<nat>)

  function NextDue(cfg: Config, p: Pace): nat {
    cfg.nw + 6 + (if p.due != [] && p.due[|p.due| - 1] > p.turns then p.due[|p.due| - 1] else p.turns)
  }

  function PaceNext(cfg: Config, x: Bench, x': Bench, turn: Turn, p: Pace): Pace {
    Pace(if turn.Consuming? then p.turns + 1 else p.turns,
         if x'.s.ring.cursor > x.s.ring.cursor then p.due + [NextDue(cfg, p)] else p.due)
  }

  /** The producer begins to reuse a slot only when the value in it is due. */
  predicate InTime(cfg: Config, x: Bench, x': Bench, p: Pace) {
    var q := |x.s.ring.hist|;
    |x'.s.ring.hist| > q >= cfg.cap ==> q - cfg.cap < |p.due| && p.due[q - cfg.cap] <= p.turns
  }

  function RunPace(cfg: Config, n: nat, x: Bench, turns: seq<Turn>, p: Pace): Pace
    requires Shaped(cfg, x.s)
    decreases |turns|
  {
    if turns == [] then p
    else
      var x' := Step(cfg, n, x, TurnAct(n, x, turns[0]));
      RunPace(cfg, n, x', turns[1..], PaceNext(cfg, x, x', turns[0], p))
  }

  ghost predicate Paced(cfg: Config, n: nat, x: Bench, turns: seq<Turn>, p: Pace)
    requires Shaped(cfg, x.s)
    decreases |turns|
  {
    turns == [] ||
    var x' := Step(cfg, n, x, TurnAct(n, x, turns[0]));
    && Works(cfg, x, turns[0]) && InTime(cfg, x, x', p)
    && Paced(cfg, n, x', turns[1..], PaceNext(cfg, x, x', turns[0], p))
  }

  ghost predicate PaceInv(cfg: Config, n: nat, x: Bench, p: Pace) {
    && BenchInv(cfg, n, x)
    && |p.due| == x.s.ring.cursor
    && (forall k, l :: 0 <= k < l < |p.due| ==> p.due[k] + cfg.nw + 6 <= p.due[l])
    && (0 <= x.s.readers[0].r < |p.due| ==> p.turns + TurnsLeft(cfg, x) <= p.due[x.s.readers[0].r])
    && |x.s.ring.hist| <= x.s.readers[0].r + cfg.cap
    && NoLap(x.s.readers[0].log)
  }

  /** When a publication begins in time, the consumer has left its slot. */
  lemma {:induction false} NotReused(cfg: Config, n: nat, x: Bench, turn: Turn, p: Pace)
    requires PaceInv(cfg, n, x, p) && InTime(cfg, x, Step(cfg, n, x, TurnAct(n, x, turn)), p)
    ensures |Step(cfg, n, x, TurnAct(n, x, turn)).s.ring.hist| <= x.s.readers[0].r + cfg.cap
  {
    InHistory(cfg, n, x);
    TurnsLeftBound(cfg, n, x);
    HistoryStep(cfg, n, x, TurnAct(n, x, turn));
    assert cfg.cap > 0;
    hide BenchInv, TurnsLeft, Step;
  }

  lemma {:induction false} HistoryStep(cfg: Config, n: nat, x: Bench, a: BenchAct)
    requires BenchInv(cfg, n, x)
    ensures var x' := Step(cfg, n, x, a);
            && |x.s.ring.hist| <= |x'.s.ring.hist| <= |x.s.ring.hist| + 1
            && (|x'.s.ring.hist| > |x.s.ring.hist| ==> x.s.ring.cursor == |x.s.ring.hist|)
            && x.s.ring.cursor <= x'.s.ring.cursor <= x.s.ring.cursor + 1
  {
    hide Ix, SlotInv, ReaderInv, ReaderNext;
  }

  lemma {:induction false} PaceProducing(cfg: Config, n: nat, x: Bench, turn: Turn, p: Pace)
    requires PaceInv(cfg, n, x, p) && Works(cfg, x, turn) && turn.Producing? && x.phase != Returned
    requires InTime(cfg, x, Step(cfg, n, x, TurnAct(n, x, turn)), p)
    ensures var x' := Step(cfg, n, x, TurnAct(n, x, turn));
            PaceInv(cfg, n, x', PaceNext(cfg, x, x', turn, p))
  {
    NotReused(cfg, n, x, turn, p);
    InHistory(cfg, n, x);
    TurnsLeftBound(cfg, n, x);
    HistoryStep(cfg, n, x, TurnAct(n, x, turn));
    TurnEffect(cfg, n, x, turn);
    InHistory(cfg, n, Step(cfg, n, x, TurnAct(n, x, turn)));
    hide BenchInv, TurnsLeft, Step, TurnAct, Works, InTime;
  }

  lemma {:induction false} PaceConsuming(cfg: Config, n: nat, x: Bench, turn: Turn, p: Pace)
    requires PaceInv(cfg, n, x, p) && Works(cfg, x, turn) && turn.Consuming? && x.phase != Returned
    ensures var x' := Step(cfg, n, x, TurnAct(n, x, turn));
            PaceInv(cfg, n, x', PaceNext(cfg, x, x', turn, p))
  {
    HistoryStep(cfg, n, x, TurnAct(n, x, turn));
    InHistory(cfg, n, x);
    TurnsLeftBound(cfg, n, x);
    assert Step(cfg, n, x, TurnAct(n, x, turn)).s.ring == x.s.ring by { hide ReaderNext; }
    TurnEffect(cfg, n, x, turn);
    TurnsLeftBound(cfg, n, Step(cfg, n, x, TurnAct(n, x, turn)));
    hide BenchInv, TurnsLeft, Step, TurnAct, Works, InTime;
  }

  lemma {:induction false} PaceStep(cfg: Config, n: nat, x: Bench, turn: Turn, p: Pace)
    requires PaceInv(cfg, n, x, p) && Works(cfg, x, turn)
    requires InTime(cfg, x, Step(cfg, n, x, TurnAct(n, x, turn)), p)
    ensures var x' := Step(cfg, n, x, TurnAct(n, x, turn));
            PaceInv(cfg, n, x', PaceNext(cfg, x, x', turn, p))
  {
    if x.phase == Returned {
      ReturnedStays(cfg, n, x, turn);
      InHistory(cfg, n, x);
      hide Step, TurnsLeft;
    } else if turn.Producing? {
      PaceProducing(cfg, n, x, turn, p);
    } else {
      PaceConsuming(cfg, n, x, turn, p);
    }
  }

  lemma {:induction false} ReturnedStays(cfg: Config, n: nat, x: Bench, turn: Turn)
    requires BenchInv(cfg, n, x) && x.phase == Returned
    ensures Step(cfg, n, x, TurnAct(n, x, turn)) == x
  {
  }

  lemma {:induction false} PaceKept(cfg: Config, n: nat, x: Bench, turns: seq<Turn>, p: Pace)
    requires PaceInv(cfg, n, x, p) && Paced(cfg, n, x, turns, p)
    ensures PaceInv(cfg, n, RunTurns(cfg, n, x, turns), RunPace(cfg, n, x, turns, p))
    decreases |turns|
  {
    if turns != [] {
      var x' := Step(cfg, n, x, TurnAct(n, x, turns[0]));
      PaceStep(cfg, n, x, turns[0], p);
      hide PaceInv, Step, InTime, PaceNext, Works;
      PaceKept(cfg, n, x', turns[1..], PaceNext(cfg, x, x', turns[0], p));
    }
  }

  /** With a producer that lets the consumer take its turns before it reuses a slot, the
      consumer misses nothing, for every capacity, and it is not late: at every moment it has
      received, in order and whether the flag is set or not, every value that is due.  When it
      returns it has received all `n`. */
  lemma {:induction false} PacedSeesAll(cfg: Config, n: nat, turns: seq<Turn>)
    requires cfg.cap > 0 && cfg.wd == Unbounded && Paced(cfg, n, Start(cfg), turns, Pace(0, []))
    ensures var x, p := RunTurns(cfg, n, Start(cfg), turns), RunPace(cfg, n, Start(cfg), turns, Pace(0, []));
            && |x.s.readers| == 1 && |p.due| == x.s.ring.cursor
            && var c := x.s.readers[0];
               && 0 <= c.r <= |x.s.ring.hist| && NoLap(c.log) && Values(c.log) == x.s.ring.hist[..c.r]
               && TotalSkipped(c.log) == 0
               && (forall k :: 0 <= k < |p.due| && p.due[k] <= p.turns ==> k < c.r)
               && (x.phase == Returned ==> |x.s.ring.hist| == n && Values(c.log) == x.s.ring.hist)
  {
    hide RunTurns, RunPace, Paced;
    var x0 := Start(cfg);
    InitInv(cfg);
    PaceKept(cfg, n, x0, turns, Pace(0, []));
    PaceMeans(cfg, n, RunTurns(cfg, n, x0, turns), RunPace(cfg, n, x0, turns, Pace(0, [])));
  }

  lemma {:induction false} PaceMeans(cfg: Config, n: nat, x: Bench, p: Pace)
    requires PaceInv(cfg, n, x, p)
    ensures |x.s.readers| == 1 && |p.due| == x.s.ring.cursor
    ensures var c := x.s.readers[0];
            && 0 <= c.r <= |x.s.ring.hist| && NoLap(c.log) && Values(c.log) == x.s.ring.hist[..c.r]
            && TotalSkipped(c.log) == 0
            && (forall k :: 0 <= k < |p.due| && p.due[k] <= p.turns ==> k < c.r)
            && (x.phase == Returned ==> |x.s.ring.hist| == n && Values(c.log) == x.s.ring.hist)
  {
    TurnsLeftBound(cfg, n, x);
    InHistory(cfg, n, x);
    var c, hist := x.s.readers[0], x.s.ring.hist;
    assert LogOk(cfg.cap, c.log, 0, hist) && Advance(c.log) == c.r by {
      assert ReaderInv(cfg, x.s.ring, c);
    }
    assert cfg.cap > 0;
    assert x.phase == Returned ==> |hist| == n && c.r == n;
    hide TurnsLeft, BenchInv, LogOk;
    NoLapIsSegment(cfg.cap, c.log, 0, hist);
    LogIsStream(cfg.cap, c.log, 0, hist);
    assert hist[0..c.r] == hist[..c.r];
    assert c.r == |hist| ==> hist[..c.r] == hist;
  }

  lemma {:induction false} CapWithinLag(k: nat, b: nat)
    requires k < b
    ensures Pow2(k) <= Pow2(b - 1)
  {
    Pow2Add(k, b - 1 - k);
    MulGap(Pow2(b - 1 - k), Pow2(k));
  }

  lemma {:induction false} PacedWraps(cfg: Config, b: nat, k: nat, n: nat, x: Bench, turns: seq<Turn>, p: Pace)
    requires Fits(cfg, b, k) && PaceInv(cfg, n, x, p) && Paced(cfg, n, x, turns, p) && SkipsFit(b, x.s)
    ensures Shaped(Narrow(cfg, b), Wrap(b, x.s))
    ensures var x' := RunTurns(cfg, n, x, turns);
            RunTurns(Narrow(cfg, b), n, x.(s := Wrap(b, x.s)), turns) == x'.(s := Wrap(b, x'.s))
    decreases |turns|
  {
    CapWithinLag(k, b);
    StepWraps(cfg, b, k, n, x, SetDone);
    if turns != [] {
      var a := TurnAct(n, x, turns[0]);
      StepWraps(cfg, b, k, n, x, a);
      PaceStep(cfg, n, x, turns[0], p);
      assert TurnAct(n, x.(s := Wrap(b, x.s)), turns[0]) == a;
      hide PaceInv, Step, InTime, Works, Wrap, SkipsFit;
      PacedWraps(cfg, b, k, n, Step(cfg, n, x, a), turns[1..], PaceNext(cfg, x, Step(cfg, n, x, a), turns[0], p));
    }
  }

  /** The same on wrapping words, for any number of values: a paced producer keeps the consumer
      within the lag bound. */
  lemma {:induction false} WrappedPacedSeesAll(cfg: Config, b: nat, k: nat, n: nat, turns: seq<Turn>)
    requires Fits(cfg, b, k) && Paced(cfg, n, Start(cfg), turns, Pace(0, []))
    ensures var w := RunTurns(Narrow(cfg, b), n, Start(Narrow(cfg, b)), turns);
            && |w.s.readers| == 1
            && var log := w.s.readers[0].log;
               && NoLap(log) && |Values(log)| <= |w.s.ring.hist| && Values(log) <= w.s.ring.hist
               && (w.phase == Returned ==> |w.s.ring.hist| == n && Values(log) == w.s.ring.hist)
  {
    InitInv(cfg);
    InitWraps(cfg, b);
    PacedWraps(cfg, b, k, n, Start(cfg), turns, Pace(0, []));
    PacedSeesAll(cfg, n, turns);
    var x := RunTurns(cfg, n, Start(cfg), turns);
    hide RunTurns, Paced;
    NoLapWraps(b, x.s.readers[0].log);
  }

  lemma {:induction false} NoLapWraps(b: nat, log: seq<Outcome>)
    requires NoLap(log)
    ensures WrapLog(b, log) == log
  {
    assert forall e :: 0 <= e < |log| ==> WrapLog(b, log)[e] == log[e];
  }

  // ------------------------------------------------------------------ the drain loop

  /** What is left to receive at position `r` of a finished history: the unread values when
      the ring still holds them all, and otherwise the newest one. */
  function Unread(cap: nat, hist: seq<Payload>, r: int): seq<Payload>
    requires 0 <= r <= |hist|
  {
    if |hist| - r <= cap then hist[r..] else hist[|hist| - 1..]
  }

  /** How each result of a call alone changes what is left. */
  lemma {:induction false} UnreadNext(cap: nat, hist: seq<Payload>, r: int)
    requires cap > 0 && 0 <= r <= |hist|
    ensures match CallResult(cap, hist, r)
            case Value(v) => r < |hist| && Unread(cap, hist, r) == [v] + Unread(cap, hist, r + 1)
            case Lapped(k) => 0 < k < |hist| - r && Unread(cap, hist, r) == Unread(cap, hist, r + k)
            case Empty => r == |hist| && Unread(cap, hist, r) == []
  {
  }

  lemma {:induction false} DrainStep(cfg: Config, n: nat, x: Bench, j: nat)
    requires BenchInv(cfg, n, x) && x.phase == Drain
    ensures var x' := Step(cfg, n, x, Consume(j));
            var c, c' := x.s.readers[0], x'.s.readers[0];
            && 0 <= c.r <= n && 0 <= c'.r <= n
            && BenchInv(cfg, n, x') && x'.s.ring == x.s.ring
            && (x'.phase == Drain || (x'.phase == Returned && c'.r == n))
            && Values(c'.log) + Unread(cfg.cap, x.s.ring.hist, c'.r)
               == Values(c.log) + Unread(cfg.cap, x.s.ring.hist, c.r)
  {
    StepKeeps(cfg, n, x, Consume(j));
    var m, c := x.s.ring, x.s.readers[0];
    assert ReaderInv(cfg, m, c);
    var c' := ReaderNext(cfg, m, c, j);
    DrainCall(cfg, m, c, j);
    hide ReaderNext, RingInv, ReaderInv, Ix, Unread, Values;
  }

  lemma {:induction false} DrainCall(cfg: Config, m: Ring, c: Reader, j: nat)
    requires RingInv(cfg, m) && cfg.wd == Unbounded && m.writer.WIdle? && ReaderInv(cfg, m, c)
    ensures var c' := ReaderNext(cfg, m, c, j);
            && 0 <= c.r <= |m.hist| && 0 <= c'.r <= |m.hist|
            && Values(c'.log) + Unread(cfg.cap, m.hist, c'.r) == Values(c.log) + Unread(cfg.cap, m.hist, c.r)
  {
    hide Ix, Unread, CallResult, Values;
    assert 0 <= c.r <= |m.hist|;
    DrainResult(cfg.cap, m.hist, c.r, c.log);
    if !c.pc.RIdle? {
      SoloResultStep(cfg, m, c, j);
      hide ReaderNext;
    }
    hide RingInv, ReaderInv;
  }

  lemma {:induction false} DrainResult(cap: nat, hist: seq<Payload>, r: int, log: seq<Outcome>)
    requires cap > 0 && 0 <= r <= |hist|
    ensures var o := CallResult(cap, hist, r);
            && 0 <= r + Span(o) <= |hist|
            && Values(log + [o]) + Unread(cap, hist, r + Span(o)) == Values(log) + Unread(cap, hist, r)
  {
    hide Unread, CallResult, Values;
    UnreadNext(cap, hist, r);
    LogParts(log, CallResult(cap, hist, r), 0);
  }

  /** The drain phase alone receives exactly the unread values. */
  lemma {:induction false} DrainReceives(cfg: Config, n: nat, x: Bench, js: seq<nat>)
    requires BenchInv(cfg, n, x) && x.phase == Drain && RunAlone(cfg, n, x, js).phase == Returned
    ensures 0 <= x.s.readers[0].r <= n && |RunAlone(cfg, n, x, js).s.readers| == 1
    ensures Values(RunAlone(cfg, n, x, js).s.readers[0].log) ==
            Values(x.s.readers[0].log) + Unread(cfg.cap, x.s.ring.hist, x.s.readers[0].r)
    decreases |js|
  {
    DrainStep(cfg, n, x, js[0]);
    var x' := Step(cfg, n, x, Consume(js[0]));
    hide BenchInv, Values;
    if x'.phase == Drain {
      DrainReceives(cfg, n, x', js[1..]);
    } else {
      StaysReturned(cfg, n, x', js[1..]);
    }
  }

  /** A quiet schedule long enough for one call. */
  function QuietCalls(cfg: Config): (env: seq<seq<WriterAct>>)
    ensures |env| == CallCost(cfg) && Quiet(env)
  {
    seq(CallCost(cfg), _ => [])
  }

  /** One call of the drain loop. */
  method DrainCallOf(c: Consumer, ghost u: State) returns (result: Outcome, ghost u': State)
    requires c.queue.Valid() && c.queue.writer.WIdle? && Related(c, u) && |u.readers| == 1
    requires |u.ring.hist| - u.readers[0].r <= Pow2(c.queue.cfg.wd.b - 1)
    modifies c, c.queue, c.queue.slots
    ensures c.queue.Valid() && Related(c, u') && u'.ring == u.ring && |u'.readers| == 1
    ensures c.queue.writer == old(c.queue.writer) && c.queue.hist == old(c.queue.hist)
    ensures 0 <= u.readers[0].r <= |u.ring.hist|
    ensures result == CallResult(c.queue.cfg.cap, u.ring.hist, u.readers[0].r)
    ensures u'.readers[0].r == u.readers[0].r + Span(result)
  {
    hide Inv, SkipsFit, Run, CallResult;
    var read, tick;
    ghost var trace, pc;
    read, tick, trace, pc := c.TryRead(QuietCalls(c.queue.cfg), u);
    result := read.value;
    u' := Run(Wide(c.queue.cfg), u, trace);
  }

  /** The consumer of the code is the unbounded one, reduced, and idle. */
  ghost predicate Related(c: Consumer, u: State)
    requires c.queue.Valid()
    reads c, c.queue, c.queue.slots
  {
    && Inv(Wide(c.queue.cfg), u) && SkipsFit(c.queue.cfg.wd.b, u)
    && Wrap(c.queue.cfg.wd.b, u) == c.Sys(RIdle)
  }

  /** The drain loop once the producer is done, over `try_read` of the code.  It ends, and it
      receives and counts exactly what the drain phase of the benchmark does. */
  method DrainLoop(c: Consumer, ghost u: State) returns (values: seq<Payload>, skipped: int, ghost u': State)
    requires c.queue.Valid() && c.queue.writer.WIdle? && Related(c, u) && |u.readers| == 1
    requires |u.ring.hist| - u.readers[0].r <= Pow2(c.queue.cfg.wd.b - 1)
    modifies c, c.queue, c.queue.slots
    ensures c.queue.Valid() && Related(c, u') && u'.ring == u.ring
    ensures |u'.readers| == 1 && u'.readers[0].r == |u.ring.hist|
    ensures 0 <= u.readers[0].r <= |u.ring.hist| && u.ring.hist == old(c.queue.hist)
    ensures values == Unread(c.queue.cfg.cap, u.ring.hist, u.readers[0].r)
    ensures |values| + skipped == |u.ring.hist| - u.readers[0].r
  {
    hide Unread, CallResult, Inv, SkipsFit;
    ghost var cap, hist := c.queue.cfg.cap, u.ring.hist;
    ghost var r := u.readers[0].r;
    assert 0 <= r <= |hist| by { InRange(Wide(c.queue.cfg), u); }
    values, skipped, u' := [], 0, u;
    while true
      invariant c.queue.Valid() && c.queue.writer.WIdle? && Related(c, u') && u'.ring == u.ring
      invariant |u'.readers| == 1 && r <= u'.readers[0].r <= |hist|
      invariant |values| + skipped == u'.readers[0].r - r
      invariant values + Unread(cap, hist, u'.readers[0].r) == Unread(cap, hist, r)
      decreases |hist| - u'.readers[0].r
    {
      UnreadNext(cap, hist, u'.readers[0].r);
      var result;
      result, u' := DrainCallOf(c, u');
      match result
      case Value(v) => values := values + [v];
      case Lapped(k) => skipped := skipped + k;
      case Empty => return;
    }
  }

  lemma {:induction false} InRange(cfg: Config, u: State)
    requires Inv(cfg, u) && |u.readers| == 1 && u.ring.writer.WIdle?
    ensures 0 <= u.readers[0].r <= |u.ring.hist|
  {
    assert ReaderInv(cfg, u.ring, u.readers[0]);
    CursorNearEnd(cfg, u.ring);
  }
}
