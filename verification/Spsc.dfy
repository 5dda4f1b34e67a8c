/** The SPSC bounded FIFO as a step machine: one producer, one consumer, a ring of slots
    that may be uninitialised, and a stale copy of the other side's index on each side.

    One step is one atomic load or store, or one slot access.  A run is an arbitrary
    sequence of actions; an action a thread cannot take leaves the state as it is.
 */
module Spsc {
  import opened Words
  import opened Options

  datatype Config = Config(cap: nat, wd: Width)

  /** Where the producer stands inside `push`. */
  datatype ProducerPc<T> =
    | PIdle
    | PFull(item: T)     // the cached head says full: about to load the head
    | PWrite(item: T)    // about to write the slot
    | PStore(item: T)    // slot written: about to store the tail

  /** Where the consumer stands inside `pop`. */
  datatype ConsumerPc<T> =
    | CIdle
    | CEmpty             // the cached tail says empty: about to load the tail
    | CRead              // about to move out of the slot
    | CStore(item: T)    // slot read: about to store the head

  /** What a call returned. */
  datatype Event<T> = Pushed(x: T) | Rejected(x: T) | Popped(x: T) | FoundEmpty

  /** `log` records returned calls in order.  `fault` records that some step read a slot
      that holds no item, or overwrote one that does. */
  datatype State<T> = State(
    head: int, tail: int, slots: seq<Option<T>>,
    pHead: int, pTail: int, ppc: ProducerPc<T>,
    cHead: int, cTail: int, cpc: ConsumerPc<T>,
    log: seq<Event<T>>, fault: bool)

  datatype Act<T> = Push(x: T) | PStep | Pop | CStep

  predicate Shaped<T>(cfg: Config, s: State<T>) {
    cfg.cap > 0 && |s.slots| == cfg.cap
  }

  function Init<T>(cfg: Config): (s: State<T>)
    requires cfg.cap > 0
    ensures Shaped(cfg, s)
  {
    State(0, 0, seq(cfg.cap, _ => None), 0, 0, PIdle, 0, 0, CIdle, [], false)
  }

  function ProducerNext<T>(cfg: Config, s: State<T>): (s': State<T>)
    requires Shaped(cfg, s)
    ensures Shaped(cfg, s')
  {
    match s.ppc
    case PIdle => s
    case PFull(item) =>
      if Sub(cfg.wd, s.pTail, s.head) == cfg.cap then
        s.(pHead := s.head, ppc := PIdle, log := s.log + [Rejected(item)])
      else s.(pHead := s.head, ppc := PWrite(item))
    case PWrite(item) =>
      var i := Ix(cfg.cap, s.pTail);
      s.(slots := s.slots[i := Some(item)], fault := s.fault || s.slots[i].Some?,
         pTail := Add(cfg.wd, s.pTail, 1), ppc := PStore(item))
    case PStore(item) =>
      s.(tail := s.pTail, ppc := PIdle, log := s.log + [Pushed(item)])
  }

  function ConsumerNext<T>(cfg: Config, s: State<T>): (s': State<T>)
    requires Shaped(cfg, s)
    ensures Shaped(cfg, s')
  {
    match s.cpc
    case CIdle => s
    case CEmpty =>
      if s.cHead == s.tail then s.(cTail := s.tail, cpc := CIdle, log := s.log + [FoundEmpty])
      else s.(cTail := s.tail, cpc := CRead)
    case CRead =>
      var i := Ix(cfg.cap, s.cHead);
      if s.slots[i].None? then s.(fault := true)
      else s.(slots := s.slots[i := None], cHead := Add(cfg.wd, s.cHead, 1), cpc := CStore(s.slots[i].value))
    case CStore(item) =>
      s.(head := s.cHead, cpc := CIdle, log := s.log + [Popped(item)])
  }

  function Next<T>(cfg: Config, s: State<T>, a: Act<T>): (s': State<T>)
    requires Shaped(cfg, s)
    ensures Shaped(cfg, s')
  {
    match a
    case Push(x) =>
      if !s.ppc.PIdle? then s
      else s.(ppc := if Sub(cfg.wd, s.pTail, s.pHead) == cfg.cap then PFull(x) else PWrite(x))
    case PStep => ProducerNext(cfg, s)
    case Pop =>
      if !s.cpc.CIdle? then s
      else s.(cpc := if s.cHead == s.cTail then CEmpty else CRead)
    case CStep => ConsumerNext(cfg, s)
  }

  function Run<T>(cfg: Config, s: State<T>, t: seq<Act<T>>): (s': State<T>)
    requires Shaped(cfg, s)
    ensures Shaped(cfg, s')
    decreases |t|
  {
    if t == [] then s else Next(cfg, Run(cfg, s, t[..|t| - 1]), t[|t| - 1])
  }

  lemma {:induction false} RunSnoc<T>(cfg: Config, s: State<T>, t: seq<Act<T>>, a: Act<T>)
    requires Shaped(cfg, s)
    ensures Run(cfg, s, t + [a]) == Next(cfg, Run(cfg, s, t), a)
  {
    assert (t + [a])[..|t + [a]| - 1] == t;
  }

  lemma {:induction false} RunAppend<T>(cfg: Config, s: State<T>, t: seq<Act<T>>, u: seq<Act<T>>)
    requires Shaped(cfg, s)
    ensures Run(cfg, s, t + u) == Run(cfg, Run(cfg, s, t), u)
    decreases |u|
  {
    if u == [] {
      assert t + u == t;
    } else {
      var u' := u[..|u| - 1];
      assert (t + u)[..|t + u| - 1] == t + u';
      RunAppend(cfg, s, t, u');
    }
  }

  // ------------------------------------------------------------- atomic FIFO

  /** One operation of an atomic bounded FIFO; `None` when its result would be wrong. */
  function FifoStep<T(==)>(cap: nat, q: seq<T>, e: Event<T>): Option<seq<T>> {
    match e
    case Pushed(x) => if |q| < cap then Some(q + [x]) else None
    case Rejected(_) => if |q| == cap then Some(q) else None
    case Popped(x) => if q != [] && q[0] == x then Some(q[1..]) else None
    case FoundEmpty => if q == [] then Some(q) else None
  }

  /** The contents of the atomic FIFO after a sequence of operations. */
  function FifoRun<T(==)>(cap: nat, log: seq<Event<T>>): Option<seq<T>>
    decreases |log|
  {
    if log == [] then Some([])
    else
      match FifoRun(cap, log[..|log| - 1])
      case None => None
      case Some(q) => FifoStep(cap, q, log[|log| - 1])
  }

  /** The items accepted by `push`, and the items returned by `pop`. */
  function Accepted<T>(log: seq<Event<T>>): seq<T>
    decreases |log|
  {
    if log == [] then []
    else
      var e := log[|log| - 1];
      Accepted(log[..|log| - 1]) + (if e.Pushed? then [e.x] else [])
  }

  function Taken<T>(log: seq<Event<T>>): seq<T>
    decreases |log|
  {
    if log == [] then []
    else
      var e := log[|log| - 1];
      Taken(log[..|log| - 1]) + (if e.Popped? then [e.x] else [])
  }

  lemma {:induction false} LogSnoc<T>(cap: nat, log: seq<Event<T>>, e: Event<T>)
    ensures Accepted(log + [e]) == if e.Pushed? then Accepted(log) + [e.x] else Accepted(log)
    ensures Taken(log + [e]) == if e.Popped? then Taken(log) + [e.x] else Taken(log)
    ensures FifoRun(cap, log).Some? ==> FifoRun(cap, log + [e]) == FifoStep(cap, FifoRun(cap, log).value, e)
  {
    assert (log + [e])[..|log + [e]| - 1] == log;
  }
}
