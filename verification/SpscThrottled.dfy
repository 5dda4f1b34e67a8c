/** The throttled benchmark's shutdown over the SPSC queue: the producer pushes `items` in
    order, retrying the pending item while the queue is full, and then sets a done flag;
    the consumer pops until it finds nothing, asks for the flag, and once it has seen it
    drains until it finds nothing again and stops.
 */
module SpscThrottled {
  import opened Words
  import opened Shutdown
  import opened Spsc
  import opened SpscTheorems
  import opened SpscWrap

  datatype Bench<T> = Bench(s: State<T>, done: bool, phase: Phase)

  datatype BenchAct = Produce | SetDone | Consume | LoadDone

  /** The producer's next step: a step of the call in progress, or `try_push` of the first
      item not yet accepted, which after a refusal is the pending one. */
  function ProducerAct<T>(s: State<T>, items: seq<T>): Act<T> {
    var sent := |Accepted(s.log)|;
    if s.ppc.PIdle? && sent < |items| then Push(items[sent]) else PStep
  }

  function AfterStep<T>(phase: Phase, before: State<T>, after: State<T>): Phase {
    if |after.log| > |before.log| && after.log[|after.log| - 1].FoundEmpty? then
      OnEmpty(phase)
    else phase
  }

  function Step<T>(cfg: Config, items: seq<T>, x: Bench<T>, a: BenchAct): (x': Bench<T>)
    requires Shaped(cfg, x.s)
    ensures Shaped(cfg, x'.s)
  {
    match a
    case Produce => x.(s := Next(cfg, x.s, ProducerAct(x.s, items)))
    case SetDone =>
      if x.s.ppc.PIdle? && |Accepted(x.s.log)| == |items| then x.(done := true) else x
    case Consume =>
      if x.phase == Poll || x.phase == Drain then
        var s' := Next(cfg, x.s, if x.s.cpc.CIdle? then Pop else CStep);
        x.(s := s', phase := AfterStep(x.phase, x.s, s'))
      else x
    case LoadDone =>
      if x.phase == AskDone then x.(phase := OnFlag(x.done)) else x
  }

  function RunBench<T>(cfg: Config, items: seq<T>, t: seq<BenchAct>): (x: Bench<T>)
    requires cfg.cap > 0
    ensures Shaped(cfg, x.s)
    decreases |t|
  {
    if t == [] then Bench(Init(cfg), false, Poll)
    else Step(cfg, items, RunBench(cfg, items, t[..|t| - 1]), t[|t| - 1])
  }

  ghost predicate BenchInv<T>(cfg: Config, items: seq<T>, x: Bench<T>) {
    && Inv(cfg, x.s)
    && x.s.tail <= |items| && Accepted(x.s.log) == items[..x.s.tail]
    && (!x.s.ppc.PIdle? ==> x.s.tail < |items| && x.s.ppc.item == items[x.s.tail])
    && (x.done ==> x.s.tail == |items|)
    && (x.phase == Drain || x.phase == Returned ==> x.done)
    && (x.phase == Returned ==> x.s.head == |items|)
  }

  lemma {:induction false} ProduceKeeps<T>(cfg: Config, items: seq<T>, x: Bench<T>)
    requires BenchInv(cfg, items, x)
    ensures BenchInv(cfg, items, Step(cfg, items, x, Produce))
  {
    hide Ix, SlotsInv, FifoRun, FifoStep, Accepted, Taken;
    var s := x.s;
    NextInv(cfg, s, ProducerAct(s, items));
    if s.ppc.PStore? {
      LogSnoc(cfg.cap, s.log, Pushed(s.ppc.item));
      assert items[..s.tail] + [items[s.tail]] == items[..s.tail + 1];
    } else if s.ppc.PFull? {
      LogSnoc(cfg.cap, s.log, Rejected(s.ppc.item));
    }
  }

  lemma {:induction false} ConsumeKeeps<T>(cfg: Config, items: seq<T>, x: Bench<T>)
    requires BenchInv(cfg, items, x) && (x.phase == Poll || x.phase == Drain)
    ensures BenchInv(cfg, items, Step(cfg, items, x, Consume))
  {
    hide Ix, SlotsInv, FifoRun, FifoStep, Accepted, Taken;
    var s := x.s;
    if s.cpc.CIdle? {
      NextInv(cfg, s, Pop);
    } else {
      NextInv(cfg, s, CStep);
      if s.cpc.CStore? {
        LogSnoc(cfg.cap, s.log, Popped(s.cpc.item));
      } else if s.cpc.CEmpty? {
        LogSnoc(cfg.cap, s.log, FoundEmpty);
      }
    }
  }

  lemma {:induction false} StepKeeps<T>(cfg: Config, items: seq<T>, x: Bench<T>, a: BenchAct)
    requires BenchInv(cfg, items, x)
    ensures BenchInv(cfg, items, Step(cfg, items, x, a))
  {
    if a.Produce? {
      ProduceKeeps(cfg, items, x);
    } else if a.Consume? && (x.phase == Poll || x.phase == Drain) {
      ConsumeKeeps(cfg, items, x);
    }
  }

  lemma {:induction false} BenchKeeps<T>(cfg: Config, items: seq<T>, t: seq<BenchAct>)
    requires cfg.cap > 0 && cfg.wd == Unbounded
    ensures BenchInv(cfg, items, RunBench(cfg, items, t))
    decreases |t|
  {
    if t == [] {
      InitInv<T>(cfg);
    } else {
      BenchKeeps(cfg, items, t[..|t| - 1]);
      StepKeeps(cfg, items, RunBench(cfg, items, t[..|t| - 1]), t[|t| - 1]);
    }
  }

  /** The last call of the consumer that returned found nothing. */
  predicate EndsEmpty<T>(log: seq<Event<T>>)
    decreases |log|
  {
    log != [] &&
    var e := log[|log| - 1];
    e.FoundEmpty? || (!e.Popped? && EndsEmpty(log[..|log| - 1]))
  }

  lemma {:induction false} EndsEmptySnoc<T>(log: seq<Event<T>>, e: Event<T>)
    ensures EndsEmpty(log + [e]) <==> e.FoundEmpty? || (!e.Popped? && EndsEmpty(log))
  {
    assert (log + [e])[..|log + [e]| - 1] == log;
  }

  /** The consumer looks at the flag only after a pop that found nothing, in every
      interleaving. */
  lemma {:induction false} AskedWhenEmpty<T>(cfg: Config, items: seq<T>, t: seq<BenchAct>)
    requires cfg.cap > 0 && RunBench(cfg, items, t).phase == AskDone
    ensures RunBench(cfg, items, t).s.cpc.CIdle? && EndsEmpty(RunBench(cfg, items, t).s.log)
    decreases |t|
  {
    var u, a := t[..|t| - 1], t[|t| - 1];
    var x := RunBench(cfg, items, u);
    if x.phase == AskDone {
      AskedWhenEmpty(cfg, items, u);
    }
    AskStep(cfg, items, x, a);
    hide Step;
  }

  lemma {:induction false} AskStep<T>(cfg: Config, items: seq<T>, x: Bench<T>, a: BenchAct)
    requires Shaped(cfg, x.s) && (x.phase == AskDone ==> x.s.cpc.CIdle? && EndsEmpty(x.s.log))
    ensures var x' := Step(cfg, items, x, a);
            x'.phase == AskDone ==> x'.s.cpc.CIdle? && EndsEmpty(x'.s.log)
  {
    hide Ix, EndsEmpty, Accepted;
    var x' := Step(cfg, items, x, a);
    if |x'.s.log| > |x.s.log| {
      EndsEmptySnoc(x.s.log, x'.s.log[|x.s.log|]);
    }
  }

  /** Shutdown completeness, for every interleaving: when the consumer stops it has popped
      exactly the items, in order, and the queue is empty. */
  lemma {:induction false} ThrottledComplete<T>(cfg: Config, items: seq<T>, t: seq<BenchAct>)
    requires cfg.cap > 0 && cfg.wd == Unbounded && RunBench(cfg, items, t).phase == Returned
    ensures var s := RunBench(cfg, items, t).s;
            Taken(s.log) == items && Accepted(s.log) == items && s.head == s.tail
  {
    BenchKeeps(cfg, items, t);
  }

  lemma {:induction false} StepWraps<T>(cfg: Config, b: nat, k: nat, items: seq<T>, x: Bench<T>, a: BenchAct)
    requires Fits(cfg, b, k) && Inv(cfg, x.s)
    ensures var x' := Step(cfg, items, x, a);
            Step(Narrow(cfg, b), items, x.(s := Wrap(b, x.s)), a) == x'.(s := Wrap(b, x'.s))
  {
    var act := if a.Produce? then ProducerAct(x.s, items) else if x.s.cpc.CIdle? then Pop else CStep;
    NextSquare(cfg, b, k, x.s, act);
    hide Next, Inv, Accepted;
  }

  lemma {:induction false} BenchWraps<T>(cfg: Config, b: nat, k: nat, items: seq<T>, t: seq<BenchAct>)
    requires Fits(cfg, b, k)
    ensures var x := RunBench(cfg, items, t);
            RunBench(Narrow(cfg, b), items, t) == x.(s := Wrap(b, x.s))
    decreases |t|
  {
    if t == [] {
      DivUnique(0, Pow2(b), 0, 0);
    } else {
      BenchWraps(cfg, b, k, items, t[..|t| - 1]);
      BenchKeeps(cfg, items, t[..|t| - 1]);
      StepWraps(cfg, b, k, items, RunBench(cfg, items, t[..|t| - 1]), t[|t| - 1]);
    }
  }

  /** The same on wrapping indices, with no bound on the number of items. */
  lemma {:induction false} WrappedThrottledComplete<T>(cfg: Config, b: nat, k: nat, items: seq<T>, t: seq<BenchAct>)
    requires Fits(cfg, b, k) && RunBench(Narrow(cfg, b), items, t).phase == Returned
    ensures var w := RunBench(Narrow(cfg, b), items, t).s;
            Taken(w.log) == items && Accepted(w.log) == items && w.head == w.tail
  {
    BenchWraps(cfg, b, k, items, t);
    ThrottledComplete(cfg, items, t);
  }

  // ------------------------------------------------------------ the consumer alone

  function ConsumerAct<T>(x: Bench<T>): BenchAct {
    if x.phase == AskDone then LoadDone else Consume
  }

  /** The consumer takes `k` steps alone. */
  function RunAlone<T>(cfg: Config, items: seq<T>, x: Bench<T>, k: nat): (x': Bench<T>)
    requires Shaped(cfg, x.s)
    ensures Shaped(cfg, x'.s)
    decreases k
  {
    if k == 0 then x else RunAlone(cfg, items, Step(cfg, items, x, ConsumerAct(x)), k - 1)
  }

  /** Steps until a pop finds nothing: the pop in progress, and four for each item still to
      pop and for the pop that finds nothing. */
  function EmptyFuel<T>(items: seq<T>, s: State<T>): int {
    4 * (|items| - s.head) +
    match s.cpc
    case CIdle => 4
    case CEmpty => 3
    case CRead => 2
    case CStore(_) => 1
  }

  /** Steps until the consumer stops, once the producer is done. */
  function ShutdownFuel<T>(items: seq<T>, x: Bench<T>): int {
    match x.phase
    case Returned => 0
    case Drain => EmptyFuel(items, x.s)
    case AskDone => EmptyFuel(items, x.s) + 1
    case Poll => EmptyFuel(items, x.s) + 5
  }

  /** One step of the consumer's pops with every item pushed: it has less to do, or it found
      nothing at the end. */
  lemma {:induction false} PopStep<T>(cfg: Config, items: seq<T>, s: State<T>)
    requires Inv(cfg, s) && s.tail == |items|
    ensures EmptyFuel(items, s) > 0
    ensures var s' := Next(cfg, s, if s.cpc.CIdle? then Pop else CStep);
            if |s'.log| > |s.log| && s'.log[|s'.log| - 1].FoundEmpty? then EmptyFuel(items, s') == 4
            else 0 < EmptyFuel(items, s') < EmptyFuel(items, s)
  {
    assert s.cpc.CRead? ==> s.slots[Ix(cfg.cap, s.cHead)] == ItemAt(s, s.head) && ItemAt(s, s.head).Some?;
    hide Ix, SlotsInv, LogInv, ItemAt, Accepted;
  }

  lemma {:induction false} ShutdownStep<T>(cfg: Config, items: seq<T>, x: Bench<T>)
    requires BenchInv(cfg, items, x) && x.done && x.phase != Returned
    ensures var x' := Step(cfg, items, x, ConsumerAct(x));
            && BenchInv(cfg, items, x') && x'.done
            && 0 <= ShutdownFuel(items, x') < ShutdownFuel(items, x)
  {
    StepKeeps(cfg, items, x, ConsumerAct(x));
    PopStep(cfg, items, x.s);
    hide Inv, Next, EmptyFuel, Accepted, Taken;
  }

  /** The shutdown ends.  From any state of the benchmark in which the producer is done, the
      consumer on its own stops within `ShutdownFuel` steps, and then it has popped exactly
      the items, in order. */
  lemma {:induction false} ShutdownEnds<T>(cfg: Config, items: seq<T>, x: Bench<T>, k: nat)
    requires BenchInv(cfg, items, x) && x.done && k >= ShutdownFuel(items, x)
    ensures var x' := RunAlone(cfg, items, x, k);
            x'.phase == Returned && Taken(x'.s.log) == items && x'.s.head == x'.s.tail
    ensures ShutdownFuel(items, x) <= 4 * (|items| - x.s.head) + 9
    decreases k
  {
    if x.phase == Returned {
      StaysReturned(cfg, items, x, k);
    } else {
      ShutdownStep(cfg, items, x);
      hide BenchInv, Step, Taken;
      ShutdownEnds(cfg, items, Step(cfg, items, x, ConsumerAct(x)), k - 1);
    }
  }

  lemma {:induction false} StaysReturned<T>(cfg: Config, items: seq<T>, x: Bench<T>, k: nat)
    requires Shaped(cfg, x.s) && x.phase == Returned
    ensures RunAlone(cfg, items, x, k) == x
    decreases k
  {
    if k > 0 {
      StaysReturned(cfg, items, x, k - 1);
    }
  }

  // ------------------------------------------------------------ both threads

  /** The producer's next step: it sets the flag once every item is accepted. */
  function ProducerTurn<T>(items: seq<T>, x: Bench<T>): BenchAct {
    if x.s.ppc.PIdle? && |Accepted(x.s.log)| == |items| then SetDone else Produce
  }

  datatype Thread = TheProducer | TheConsumer

  function Turn<T>(cfg: Config, items: seq<T>, x: Bench<T>, who: Thread): (x': Bench<T>)
    requires Shaped(cfg, x.s)
    ensures Shaped(cfg, x'.s)
  {
    Step(cfg, items, x, if who.TheProducer? then ProducerTurn(items, x) else ConsumerAct(x))
  }

  /** The threads take turns in the order given. */
  function RunTurns<T>(cfg: Config, items: seq<T>, x: Bench<T>, turns: seq<Thread>): (x': Bench<T>)
    requires Shaped(cfg, x.s)
    ensures Shaped(cfg, x'.s)
    decreases |turns|
  {
    if turns == [] then x else RunTurns(cfg, items, Turn(cfg, items, x, turns[0]), turns[1..])
  }

  /** A run in rounds: in each, both threads take a turn at least, in any order. */
  function RunRounds<T>(cfg: Config, items: seq<T>, x: Bench<T>, rounds: seq<seq<Thread>>): (x': Bench<T>)
    requires Shaped(cfg, x.s)
    ensures Shaped(cfg, x'.s)
    decreases |rounds|
  {
    if rounds == [] then x else RunRounds(cfg, items, RunTurns(cfg, items, x, rounds[0]), rounds[1..])
  }

  predicate Fair(rounds: seq<seq<Thread>>) {
    forall n :: 0 <= n < |rounds| ==> TheProducer in rounds[n] && TheConsumer in rounds[n]
  }

  /** The thread that can always go on: the producer while the queue is empty, and otherwise
      the consumer. */
  function Mover<T>(x: Bench<T>): Thread {
    if !x.done && x.s.tail == x.s.head then TheProducer else TheConsumer
  }

  /** Turns of the mover until it moves an index. */
  function MoverSteps<T>(x: Bench<T>): int {
    if x.s.tail == x.s.head then
      match x.s.ppc
      case PIdle => 4
      case PFull(_) => 3
      case PWrite(_) => 2
      case PStore(_) => 1
    else if x.phase == AskDone then 5
    else
      match x.s.cpc
      case CIdle => 4
      case CEmpty => 3
      case CRead => 2
      case CStore(_) => 1
  }

  /** Rounds until the consumer stops. */
  function RoundFuel<T>(items: seq<T>, x: Bench<T>): int {
    if x.done then ShutdownFuel(items, x)
    else 5 * (|items| - x.s.tail) + 5 * (|items| - x.s.head) + 10 + MoverSteps(x)
  }

  /** What a turn of the producer does. */
  lemma {:induction false} ProducerEffect<T>(cfg: Config, items: seq<T>, x: Bench<T>)
    requires BenchInv(cfg, items, x)
    ensures 0 <= x.s.head <= x.s.tail <= |items| && (x.done ==> x.s.ppc.PIdle? && x.s.tail == |items|)
    ensures var x' := Turn(cfg, items, x, TheProducer);
            if x.s.ppc.PIdle? && x.s.tail == |items| then x' == x.(done := true)
            else
              && x'.phase == x.phase && x'.done == x.done && x'.s.head == x.s.head && x'.s.cpc == x.s.cpc
              && x'.s.tail == (if x.s.ppc.PStore? then x.s.tail + 1 else x.s.tail)
              && match x.s.ppc
                 case PIdle => x'.s.ppc.PFull? || x'.s.ppc.PWrite?
                 case PFull(_) => x'.s.ppc.PWrite? || x.s.tail - x.s.head == cfg.cap
                 case PWrite(_) => x'.s.ppc.PStore?
                 case PStore(_) => x'.s.ppc.PIdle?
  {
    hide Ix, SlotsInv, FifoRun, Accepted, Taken;
  }

  /** Turns of the consumer until it has popped an item that is there. */
  function PopTurns<T>(x: Bench<T>): nat {
    if x.phase == AskDone then 5
    else
      match x.s.cpc
      case CIdle => 4
      case CEmpty => 3
      case CRead => 2
      case CStore(_) => 1
  }

  lemma {:induction false} PopEffect<T>(cfg: Config, items: seq<T>, x: Bench<T>)
    requires BenchInv(cfg, items, x) && x.s.head < x.s.tail
    ensures var x' := Turn(cfg, items, x, TheConsumer);
            && x'.s.tail == x.s.tail
            && (x'.s.head == x.s.head + 1 || (x'.s.head == x.s.head && PopTurns(x') < PopTurns(x)))
  {
    assert x.s.cpc.CRead? ==> x.s.slots[Ix(cfg.cap, x.s.cHead)] == ItemAt(x.s, x.s.head) && ItemAt(x.s, x.s.head).Some?;
    hide Ix, SlotsInv, LogInv, ItemAt, FifoRun, Accepted, Taken;
  }

  lemma {:induction false} PopTurn<T>(cfg: Config, items: seq<T>, x: Bench<T>, who: Thread)
    requires BenchInv(cfg, items, x) && x.s.head < x.s.tail
    ensures var x' := Turn(cfg, items, x, who);
            && BenchInv(cfg, items, x') && x'.s.tail >= x.s.tail
            && (if who.TheProducer? then x'.s.head == x.s.head && PopTurns(x') == PopTurns(x)
                else x'.s.head > x.s.head || (x'.s.head == x.s.head && PopTurns(x') < PopTurns(x)))
  {
    StepKeeps(cfg, items, x, if who.TheProducer? then ProducerTurn(items, x) else ConsumerAct(x));
    if who.TheProducer? {
      ProducerEffect(cfg, items, x);
    } else {
      PopEffect(cfg, items, x);
    }
    hide BenchInv, Step;
  }

  function ConsumerTurnsIn(turns: seq<Thread>): nat {
    if turns == [] then 0 else (if turns[0].TheConsumer? then 1 else 0) + ConsumerTurnsIn(turns[1..])
  }

  lemma {:induction false} TurnsKeep<T>(cfg: Config, items: seq<T>, x: Bench<T>, turns: seq<Thread>)
    requires BenchInv(cfg, items, x)
    ensures BenchInv(cfg, items, RunTurns(cfg, items, x, turns))
    ensures x.s.head <= RunTurns(cfg, items, x, turns).s.head
    decreases |turns|
  {
    if turns != [] {
      var a := if turns[0].TheProducer? then ProducerTurn(items, x) else ConsumerAct(x);
      StepKeeps(cfg, items, x, a);
      HeadGrows(cfg, items, x, a);
      hide BenchInv, Step;
      TurnsKeep(cfg, items, Turn(cfg, items, x, turns[0]), turns[1..]);
    }
  }

  lemma {:induction false} HeadGrows<T>(cfg: Config, items: seq<T>, x: Bench<T>, a: BenchAct)
    requires BenchInv(cfg, items, x)
    ensures x.s.head <= Step(cfg, items, x, a).s.head
  {
    hide Ix, SlotsInv, LogInv, FifoRun, Accepted, Taken;
  }

  /** The consumer does not wait for the flag.  From any state of the benchmark with an item in
      the queue, the flag set or not and whatever phase it is in, the consumer has popped it
      within five turns of its own, in every interleaving. */
  lemma {:induction false} PopsNext<T>(cfg: Config, items: seq<T>, x: Bench<T>, turns: seq<Thread>)
    requires BenchInv(cfg, items, x) && x.s.head < x.s.tail && ConsumerTurnsIn(turns) >= PopTurns(x)
    ensures PopTurns(x) <= 5
    ensures var x' := RunTurns(cfg, items, x, turns);
            && BenchInv(cfg, items, x') && x'.s.head > x.s.head
            && |Taken(x'.s.log)| > x.s.head && Taken(x'.s.log)[x.s.head] == items[x.s.head]
    decreases |turns|
  {
    assert turns != [];
    var x1 := Turn(cfg, items, x, turns[0]);
    PopTurn(cfg, items, x, turns[0]);
    if x1.s.head > x.s.head {
      TurnsKeep(cfg, items, x1, turns[1..]);
      TakenPrefix(cfg, items, RunTurns(cfg, items, x, turns));
      hide BenchInv, Turn, PopTurns;
    } else {
      hide BenchInv, Turn, PopTurns;
      PopsNext(cfg, items, x1, turns[1..]);
    }
  }

  lemma {:induction false} TakenPrefix<T>(cfg: Config, items: seq<T>, x: Bench<T>)
    requires BenchInv(cfg, items, x)
    ensures 0 <= x.s.head <= |items| && Taken(x.s.log) == items[..x.s.head]
  {
    hide SlotsInv, Ix, Accepted, Taken, FifoRun;
  }

  /** A turn of the producer: the mover's turn uses fuel, and no turn adds any. */
  lemma {:induction false} ProducerTurns<T>(cfg: Config, items: seq<T>, x: Bench<T>)
    requires BenchInv(cfg, items, x)
    ensures var x' := Turn(cfg, items, x, TheProducer);
            && BenchInv(cfg, items, x')
            && (RoundFuel(items, x') < RoundFuel(items, x)
                || (RoundFuel(items, x') == RoundFuel(items, x) && Mover(x') == Mover(x)
                    && !Mover(x).TheProducer?))
  {
    StepKeeps(cfg, items, x, ProducerTurn(items, x));
    ProducerEffect(cfg, items, x);
    assert cfg.cap > 0;
    assert x.phase == Drain || x.phase == Returned ==> x.done;
    hide Next, ProducerTurn, Inv, Step, Turn, Accepted;
  }

  /** What a turn of the consumer does before the flag is set. */
  lemma {:induction false} ConsumerEffect<T>(cfg: Config, items: seq<T>, x: Bench<T>)
    requires BenchInv(cfg, items, x) && !x.done
    ensures 0 <= x.s.head <= x.s.tail <= |items|
    ensures x.s.cpc.CRead? || x.s.cpc.CStore? ==> x.s.head < x.s.tail
    ensures var x' := Turn(cfg, items, x, TheConsumer);
            && !x'.done && x'.s.tail == x.s.tail && x'.s.ppc == x.s.ppc
            && if x.phase == AskDone then x'.phase == Poll && x'.s.head == x.s.head
               else
                 && x'.s.head == (if x.s.cpc.CStore? then x.s.head + 1 else x.s.head)
                 && (x'.phase == Poll || x.s.head == x.s.tail)
                 && match x.s.cpc
                    case CIdle => x'.s.cpc.CEmpty? || x'.s.cpc.CRead?
                    case CEmpty => x'.s.cpc.CRead? || x.s.head == x.s.tail
                    case CRead => x'.s.cpc.CStore?
                    case CStore(_) => x'.s.cpc.CIdle?
  {
    assert x.s.cpc.CRead? ==> x.s.slots[Ix(cfg.cap, x.s.cHead)] == ItemAt(x.s, x.s.head) && ItemAt(x.s, x.s.head).Some?;
    hide Ix, SlotsInv, LogInv, ItemAt, FifoRun, Accepted, Taken;
  }

  lemma {:induction false} ConsumerTurns<T>(cfg: Config, items: seq<T>, x: Bench<T>)
    requires BenchInv(cfg, items, x)
    ensures var x' := Turn(cfg, items, x, TheConsumer);
            && BenchInv(cfg, items, x')
            && (RoundFuel(items, x') < RoundFuel(items, x)
                || (RoundFuel(items, x') == RoundFuel(items, x) && Mover(x') == Mover(x)
                    && (Mover(x).TheConsumer? ==> x.phase == Returned)))
  {
    StepKeeps(cfg, items, x, ConsumerAct(x));
    if x.phase == Returned {
      assert Turn(cfg, items, x, TheConsumer) == x;
    } else if x.done {
      ShutdownStep(cfg, items, x);
      hide Inv, Next, ShutdownFuel;
    } else {
      ConsumerEffect(cfg, items, x);
      hide Next, Inv, Step, Turn, Accepted;
    }
  }

  /** A round in which the mover has its turn uses fuel. */
  lemma {:induction false} RoundMoves<T>(cfg: Config, items: seq<T>, x: Bench<T>, turns: seq<Thread>)
    requires BenchInv(cfg, items, x)
    ensures var x' := RunTurns(cfg, items, x, turns);
            && BenchInv(cfg, items, x') && RoundFuel(items, x') <= RoundFuel(items, x)
            && (Mover(x) in turns && x.phase != Returned ==> RoundFuel(items, x') < RoundFuel(items, x))
    decreases |turns|
  {
    if turns != [] {
      var x1 := Turn(cfg, items, x, turns[0]);
      if turns[0].TheProducer? {
        ProducerTurns(cfg, items, x);
      } else {
        ConsumerTurns(cfg, items, x);
      }
      ReturnedFuel(cfg, items, x1);
      hide BenchInv, Turn, RoundFuel, Mover;
      RoundMoves(cfg, items, x1, turns[1..]);
    }
  }

  lemma {:induction false} ReturnedFuel<T>(cfg: Config, items: seq<T>, x: Bench<T>)
    requires BenchInv(cfg, items, x)
    ensures 0 <= RoundFuel(items, x) <= 10 * |items| + 15
    ensures RoundFuel(items, x) == 0 <==> x.phase == Returned
  {
    hide Ix, SlotsInv, LogInv, FifoRun, Accepted, Taken;
  }

  /** Progress.  From any state of the benchmark, with the producer retrying on a full queue
      and the consumer polling an empty one, every run in which both threads take turns, in
      any order and at any relative speed, is over after `10 n + 15` rounds: all items are
      pushed, and popped in order. */
  lemma {:induction false} RoundsEnd<T>(cfg: Config, items: seq<T>, x: Bench<T>, rounds: seq<seq<Thread>>)
    requires BenchInv(cfg, items, x) && Fair(rounds) && |rounds| >= RoundFuel(items, x)
    ensures RoundFuel(items, x) <= 10 * |items| + 15
    ensures var x' := RunRounds(cfg, items, x, rounds);
            && x'.phase == Returned
            && Taken(x'.s.log) == items && Accepted(x'.s.log) == items && x'.s.head == x'.s.tail
    decreases |rounds|
  {
    ReturnedFuel(cfg, items, x);
    if rounds == [] {
      assert x.phase == Returned;
    } else {
      var x1 := RunTurns(cfg, items, x, rounds[0]);
      RoundMoves(cfg, items, x, rounds[0]);
      ReturnedFuel(cfg, items, x1);
      assert Mover(x) in rounds[0];
      hide BenchInv, RunTurns, RoundFuel, Mover, Accepted, Taken;
      RoundsEnd(cfg, items, x1, rounds[1..]);
    }
  }

  lemma {:induction false} TurnsWrap<T>(
    cfg: Config, b: nat, k: nat, items: seq<T>, x: Bench<T>, turns: seq<Thread>)
    requires Fits(cfg, b, k) && BenchInv(cfg, items, x)
    ensures var x' := RunTurns(cfg, items, x, turns);
            RunTurns(Narrow(cfg, b), items, x.(s := Wrap(b, x.s)), turns) == x'.(s := Wrap(b, x'.s))
    decreases |turns|
  {
    if turns != [] {
      var a := if turns[0].TheProducer? then ProducerTurn(items, x) else ConsumerAct(x);
      StepWraps(cfg, b, k, items, x, a);
      StepKeeps(cfg, items, x, a);
      hide BenchInv, Step;
      TurnsWrap(cfg, b, k, items, Turn(cfg, items, x, turns[0]), turns[1..]);
    }
  }

  lemma {:induction false} RoundsWrap<T>(
    cfg: Config, b: nat, k: nat, items: seq<T>, x: Bench<T>, rounds: seq<seq<Thread>>)
    requires Fits(cfg, b, k) && BenchInv(cfg, items, x)
    ensures var x' := RunRounds(cfg, items, x, rounds);
            RunRounds(Narrow(cfg, b), items, x.(s := Wrap(b, x.s)), rounds) == x'.(s := Wrap(b, x'.s))
    decreases |rounds|
  {
    if rounds != [] {
      TurnsWrap(cfg, b, k, items, x, rounds[0]);
      RoundMoves(cfg, items, x, rounds[0]);
      hide BenchInv, RunTurns;
      RoundsWrap(cfg, b, k, items, RunTurns(cfg, items, x, rounds[0]), rounds[1..]);
    }
  }

  /** The same on wrapping indices, from the start of the benchmark. */
  lemma {:induction false} WrappedRoundsEnd<T>(
    cfg: Config, b: nat, k: nat, items: seq<T>, rounds: seq<seq<Thread>>)
    requires Fits(cfg, b, k) && Fair(rounds) && |rounds| >= 10 * |items| + 15
    ensures var w := RunRounds(Narrow(cfg, b), items, RunBench(Narrow(cfg, b), items, []), rounds);
            w.phase == Returned && Taken(w.s.log) == items && w.s.head == w.s.tail
  {
    var x := RunBench(cfg, items, []);
    BenchKeeps(cfg, items, []);
    BenchWraps(cfg, b, k, items, []);
    hide Inv;
    ReturnedFuel(cfg, items, x);
    RoundsWrap(cfg, b, k, items, x, rounds);
    RoundsEnd(cfg, items, x, rounds);
  }
}
