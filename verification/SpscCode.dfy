/** `push`, `pop` and `Drop` as written: wrapping `b`-bit indices, a masked index into a
    fixed array, a cached copy of the other side's index.

    The two threads run together.  `Push` and `Pop` take the schedule of the other thread
    as an argument: before each access to shared memory the other thread performs the next
    entry of `env`, any number of its steps.
 */
module SpscCode {
  import opened Words
  import opened Options
  import opened Spsc
  import opened SpscTheorems
  import opened SpscWrap

  predicate ConsumerActs<T>(acts: seq<Act<T>>) {
    forall i :: 0 <= i < |acts| ==> acts[i].Pop? || acts[i].CStep?
  }

  predicate ProducerActs<T>(acts: seq<Act<T>>) {
    forall i :: 0 <= i < |acts| ==> acts[i].Push? || acts[i].PStep?
  }

  /** The other thread does nothing during the call. */
  ghost predicate Quiet<T>(env: seq<seq<Act<T>>>) {
    forall i :: 0 <= i < |env| ==> env[i] == []
  }

  ghost predicate SameProducer<T>(s: State<T>, s': State<T>) {
    s'.ppc == s.ppc && s'.pHead == s.pHead && s'.pTail == s.pTail && s'.tail == s.tail
  }

  ghost predicate SameConsumer<T>(s: State<T>, s': State<T>) {
    s'.cpc == s.cpc && s'.cHead == s.cHead && s'.cTail == s.cTail && s'.head == s.head
  }

  /** The consumer's steps leave the producer's side alone, and the reverse. */
  lemma {:induction false} ConsumerSide<T>(cfg: Config, s: State<T>, t: seq<Act<T>>)
    requires Shaped(cfg, s) && ConsumerActs(t)
    ensures SameProducer(s, Run(cfg, s, t))
    decreases |t|
  {
    if t != [] {
      ConsumerSide(cfg, s, t[..|t| - 1]);
    }
  }

  lemma {:induction false} ProducerSide<T>(cfg: Config, s: State<T>, t: seq<Act<T>>)
    requires Shaped(cfg, s) && ProducerActs(t)
    ensures SameConsumer(s, Run(cfg, s, t))
    decreases |t|
  {
    if t != [] {
      ProducerSide(cfg, s, t[..|t| - 1]);
    }
  }

  /** The steps of one `push` among the consumer's: `full` if the cached indices said full,
      `refused` if the loaded head did too. */
  function PushTrace<T>(item: T, env: seq<seq<Act<T>>>, full: bool, refused: bool): seq<Act<T>>
    requires |env| == 3
  {
    [Push(item)] + (if full then env[0] + [PStep] else [])
    + (if refused then [] else env[1] + [PStep] + env[2] + [PStep])
  }

  /** The steps of one `pop` among the producer's. */
  function PopTrace<T>(env: seq<seq<Act<T>>>, empty: bool, nothing: bool): seq<Act<T>>
    requires |env| == 3
  {
    [Pop] + (if empty then env[0] + [CStep] else [])
    + (if nothing then [] else env[1] + [CStep] + env[2] + [CStep])
  }

  /** The trace as `Push` builds it; with a quiet environment it leaves the consumer alone. */
  lemma {:induction false} PushTraceIs<T>(item: T, env: seq<seq<Act<T>>>, cfg: Config, s: State<T>)
    requires |env| == 3 && Shaped(cfg, s)
    ensures var t := [Push(item)];
            && PushTrace(item, env, true, true) == t + env[0] + [PStep]
            && PushTrace(item, env, true, false) == t + env[0] + [PStep] + env[1] + [PStep] + env[2] + [PStep]
            && PushTrace(item, env, false, false) == t + env[1] + [PStep] + env[2] + [PStep]
    ensures Quiet(env) ==> forall full, refused :: SameConsumer(s, Run(cfg, s, PushTrace(item, env, full, refused)))
  {
    if Quiet(env) {
      forall full, refused
        ensures SameConsumer(s, Run(cfg, s, PushTrace(item, env, full, refused)))
      {
        ProducerSide(cfg, s, PushTrace(item, env, full, refused));
      }
    }
  }

  lemma {:induction false} PopTraceIs<T>(env: seq<seq<Act<T>>>, cfg: Config, s: State<T>)
    requires |env| == 3 && Shaped(cfg, s)
    ensures var t := [Pop];
            && PopTrace(env, true, true) == t + env[0] + [CStep]
            && PopTrace(env, true, false) == t + env[0] + [CStep] + env[1] + [CStep] + env[2] + [CStep]
            && PopTrace(env, false, false) == t + env[1] + [CStep] + env[2] + [CStep]
    ensures Quiet(env) ==> forall empty, nothing :: SameProducer(s, Run(cfg, s, PopTrace(env, empty, nothing)))
  {
    if Quiet(env) {
      forall empty, nothing
        ensures SameProducer(s, Run(cfg, s, PopTrace(env, empty, nothing)))
      {
        ConsumerSide(cfg, s, PopTrace(env, empty, nothing));
      }
    }
  }

  lemma {:induction false} RunOne<T>(cfg: Config, s: State<T>, a: Act<T>)
    requires Shaped(cfg, s)
    ensures Run(cfg, s, [a]) == Next(cfg, s, a)
  {
    RunSnoc(cfg, s, [], a);
    assert [] + [a] == [a];
  }

  class Queue<T> {
    const k: nat
    const b: nat
    var head: nat
    var tail: nat
    const slots: array<Option<T>>
    /** The unbounded state this memory wraps, with the program point of both threads. */
    var abs: State<T>

    ghost predicate Valid()
      reads this, slots
    {
      && k < b && slots.Length == Pow2(k)
      && Inv(Wide(), abs)
      && head == abs.head % Pow2(b) && tail == abs.tail % Pow2(b)
      && slots[..] == abs.slots
    }

    function Wide(): Config {
      Config(Pow2(k), Unbounded)
    }

    /** `new`: both indices 0, every slot uninitialised. */
    constructor (b: nat, k: nat)
      requires k < b
      ensures Valid() && this.k == k && this.b == b && fresh(slots)
      ensures abs == Init(Config(Pow2(k), Unbounded))
      ensures head == tail == 0 && slots.Length == Pow2(k) && forall i :: 0 <= i < slots.Length ==> slots[i] == None
    {
      this.k, this.b := k, b;
      head, tail := 0, 0;
      slots := new Option<T>[Pow2(k)](_ => None);
      abs := Init(Config(Pow2(k), Unbounded));
      new;
      InitInv<T>(Wide());
      DivUnique(0, Pow2(b), 0, 0);
      assert slots[..] == abs.slots;
    }

    method SlotOf(i: nat) returns (ix: nat)
      requires slots.Length == Pow2(k)
      ensures ix == BitAnd(i, Pow2(k) - 1) == Ix(Pow2(k), i) < slots.Length
    {
      MaskIsMod(i, k);
      ix := BitAnd(i, Pow2(k) - 1);
    }

    /** The other thread performs some of its steps. */
    method Interfere(acts: seq<Act<T>>)
      requires Valid()
      modifies this, slots
      ensures Valid() && abs == Run(Wide(), old(abs), acts)
    {
      RunInv(Wide(), abs, acts);
      abs := Run(Wide(), abs, acts);
      head, tail := abs.head % Pow2(b), abs.tail % Pow2(b);
      forall i | 0 <= i < slots.Length {
        slots[i] := abs.slots[i];
      }
      assert slots[..] == abs.slots;
    }

    /** Drop the item of one slot in place. */
    method Release(i: nat, ghost at: int) returns (item: T)
      requires slots.Length == Pow2(k) && Ix(Pow2(k), i) == Ix(Pow2(k), at)
      requires slots[Ix(Pow2(k), at)].Some?
      modifies slots
      ensures slots[Ix(Pow2(k), at)] == None && old(slots[Ix(Pow2(k), at)]) == Some(item)
      ensures forall j :: 0 <= j < slots.Length && j != Ix(Pow2(k), at) ==> slots[j] == old(slots[j])
    {
      var ix := SlotOf(i);
      item := slots[ix].value;
      slots[ix] := None;
    }

    /** `Drop`, once both handles are gone: it releases the unread items, each once and
        oldest first, and reads no slot that holds none.  Over the whole life of the queue
        every accepted item was popped or is dropped here. */
    method Drop() returns (dropped: seq<T>)
      requires Valid() && abs.ppc.PIdle? && abs.cpc.CIdle?
      modifies slots
      ensures forall i :: 0 <= i < slots.Length ==> slots[i] == None
      ensures Taken(abs.log) + dropped == Accepted(abs.log)
    {
      hide Ix, Inv, Accepted, Taken, Add, Sub;
      var cap := Pow2(k);
      Unread(Wide(), b, k, abs);
      var count := Sub(Bits(b), tail, head);
      ghost var items := Accepted(abs.log);
      dropped := [];
      for n := 0 to count
        invariant dropped == items[abs.head..abs.head + n]
        invariant forall p :: abs.head + n <= p < abs.tail ==> slots[Ix(cap, p)] == Some(items[p])
        invariant forall p :: abs.head <= p < abs.head + n ==> slots[Ix(cap, p)] == None
        invariant forall p :: abs.tail <= p < abs.head + cap ==> slots[Ix(cap, p)] == None
      {
        ghost var at := abs.head + n;
        WrappedIndex(b, k, abs.head, n);
        OthersApart(cap, abs.head, at);
        var item := Release(Add(Bits(b), head, n), at);
        dropped := dropped + [item];
      }
      assert items[..abs.head] + items[abs.head..] == items;
      forall i | 0 <= i < slots.Length
        ensures slots[i] == None
      {
        var p := SlotMet(cap, abs.head, i);
      }
    }
  }

  /** The wrapped sum of a wrapped index and an offset falls in the slot of their sum. */
  lemma {:induction false} WrappedIndex(b: nat, k: nat, head: int, n: nat)
    requires k < b
    ensures Add(Bits(b), head % Pow2(b), n) >= 0
    ensures Ix(Pow2(k), Add(Bits(b), head % Pow2(b), n)) == Ix(Pow2(k), head + n)
  {
    hide Ix, Pow2;
    assert Add(Bits(b), head % Pow2(b), n) == (head + n) % Pow2(b) by {
      ModLinear(1, head, n, Pow2(b));
    }
    FitKeeps(b, k, head + n);
  }

  /** With both threads idle the unread items are those from the head to the tail, and the
      wrapping difference of the indices counts them. */
  lemma {:induction false} Unread<T>(cfg: Config, b: nat, k: nat, s: State<T>)
    requires Fits(cfg, b, k) && Inv(cfg, s) && s.ppc.PIdle? && s.cpc.CIdle?
    ensures 0 <= s.head <= s.tail == |Accepted(s.log)| && s.tail - s.head <= cfg.cap
    ensures Sub(Bits(b), s.tail % Pow2(b), s.head % Pow2(b)) == s.tail - s.head
    ensures Taken(s.log) == Accepted(s.log)[..s.head]
    ensures forall p :: s.head <= p < s.tail ==> s.slots[Ix(cfg.cap, p)] == Some(Accepted(s.log)[p])
    ensures forall p :: s.tail <= p < s.head + cfg.cap ==> s.slots[Ix(cfg.cap, p)] == None
  {
    CapFits(cfg, b, k);
    ModDiff(s.tail, s.head, Pow2(b));
    DivUnique(s.tail - s.head, Pow2(b), 0, s.tail - s.head);
    hide Ix;
    forall p | s.head <= p < s.tail
      ensures s.slots[Ix(cfg.cap, p)] == Some(Accepted(s.log)[p])
    {
      assert ItemAt(s, p) == Some(Accepted(s.log)[p]);
    }
  }

  /** The head load of a push that looked full, decided on wrapped indices. */
  lemma {:induction false} HeadLoad<T>(cfg: Config, b: nat, k: nat, s: State<T>)
    requires Fits(cfg, b, k) && Inv(cfg, s) && s.ppc.PFull?
    ensures var s' := Next(cfg, s, PStep);
            var full := Sub(Bits(b), s.pTail % Pow2(b), s.head % Pow2(b)) == cfg.cap;
            && Inv(cfg, s') && s'.slots == s.slots && s'.head == s.head && s'.tail == s.tail
            && s'.pTail == s.pTail && s'.pHead == s.head
            && s'.ppc == (if full then PIdle else PWrite(s.ppc.item))
            && s'.log == (if full then s.log + [Rejected(s.ppc.item)] else s.log)
            && 0 <= s'.head <= |Accepted(s'.log)| && (full ==> |Contents(s')| == cfg.cap)
  {
    FullTest(cfg, b, k, s.pTail, s.head);
    NextInv(cfg, s, PStep);
    hide Ix, Accepted, Taken, FifoRun, SlotsInv, Sub;
    LogSnoc(cfg.cap, s.log, Rejected(s.ppc.item));
  }

  /** The tail load of a pop that looked empty, decided on wrapped indices. */
  lemma {:induction false} TailLoad<T>(cfg: Config, b: nat, k: nat, s: State<T>)
    requires Fits(cfg, b, k) && Inv(cfg, s) && s.cpc.CEmpty?
    ensures var s' := Next(cfg, s, CStep);
            var empty := s.cHead % Pow2(b) == s.tail % Pow2(b);
            && Inv(cfg, s') && s'.slots == s.slots && s'.head == s.head && s'.tail == s.tail
            && s'.cHead == s.cHead && s'.cTail == s.tail
            && s'.cpc == (if empty then CIdle else CRead)
            && s'.log == (if empty then s.log + [FoundEmpty] else s.log)
            && 0 <= s'.head <= |Accepted(s'.log)| && (empty ==> Contents(s') == [])
  {
    EmptyTest(cfg, b, k, s.cHead, s.tail);
    NextInv(cfg, s, CStep);
    hide Ix, Accepted, Taken, FifoRun, SlotsInv;
    LogSnoc(cfg.cap, s.log, FoundEmpty);
  }

  class Producer<T> {
    const queue: Queue<T>
    var cachedHead: nat
    var cachedTail: nat

    ghost predicate Valid()
      reads this, queue, queue.slots
    {
      && queue.Valid()
      && cachedHead == queue.abs.pHead % Pow2(queue.b)
      && cachedTail == queue.abs.pTail % Pow2(queue.b)
    }

    constructor (queue: Queue<T>)
      requires queue.Valid() && queue.abs == Init(queue.Wide())
      ensures Valid() && this.queue == queue && cachedHead == cachedTail == 0
    {
      this.queue := queue;
      cachedHead, cachedTail := 0, 0;
      DivUnique(0, Pow2(queue.b), 0, 0);
    }

    /** The queue is where the run `t` from `s0` leads. */
    ghost predicate Reached(s0: State<T>, t: seq<Act<T>>)
      reads this, queue, queue.slots
    {
      Valid() && Shaped(queue.Wide(), s0) && queue.abs == Run(queue.Wide(), s0, t)
    }

    /** The consumer moves. */
    method Await(acts: seq<Act<T>>, ghost s0: State<T>, ghost t: seq<Act<T>>)
      requires Reached(s0, t) && ConsumerActs(acts)
      modifies queue, queue.slots
      ensures Reached(s0, t + acts) && queue.abs.ppc == old(queue.abs.ppc)
    {
      RunAppend(queue.Wide(), s0, t, acts);
      ConsumerSide(queue.Wide(), queue.abs, acts);
      hide Run;
      queue.Interfere(acts);
    }

    /** The full check on the cached indices. */
    method CheckFull(item: T, ghost s0: State<T>) returns (full: bool)
      requires Valid() && queue.abs == s0 && s0.ppc.PIdle?
      modifies queue`abs
      ensures Reached(s0, [Spsc.Push(item)])
      ensures queue.abs.ppc == if full then PFull(item) else PWrite(item)
      ensures full == (Sub(Bits(queue.b), cachedTail, cachedHead) == Pow2(queue.k))
    {
      full := Sub(Bits(queue.b), cachedTail, cachedHead) == Pow2(queue.k);
      FullTest(queue.Wide(), queue.b, queue.k, queue.abs.pTail, queue.abs.pHead);
      NextInv(queue.Wide(), queue.abs, Spsc.Push(item));
      RunOne(queue.Wide(), s0, Spsc.Push(item));
      queue.abs := Next(queue.Wide(), queue.abs, Spsc.Push(item));
    }

    /** `still_full`: refresh the cached head. */
    method StillFull(acts: seq<Act<T>>, ghost s0: State<T>, ghost t: seq<Act<T>>) returns (full: bool)
      requires Reached(s0, t) && ConsumerActs(acts) && queue.abs.ppc.PFull?
      modifies this, queue, queue.slots
      ensures Reached(s0, t + acts + [PStep]) && cachedHead == queue.head
      ensures queue.abs.ppc == if full then PIdle else PWrite(old(queue.abs).ppc.item)
      ensures full ==>
                && queue.abs.log != [] && queue.abs.log[|queue.abs.log| - 1] == Rejected(old(queue.abs).ppc.item)
                && 0 <= queue.abs.head <= |Accepted(queue.abs.log)| && |Contents(queue.abs)| == Pow2(queue.k)
    {
      Await(acts, s0, t);
      RunSnoc(queue.Wide(), s0, t + acts, PStep);
      HeadLoad(queue.Wide(), queue.b, queue.k, queue.abs);
      hide Run, Next, Inv, Accepted, Sub;
      cachedHead := queue.head;
      full := Sub(Bits(queue.b), cachedTail, cachedHead) == Pow2(queue.k);
      queue.abs := Next(queue.Wide(), queue.abs, PStep);
    }

    /** The slot write and the local increment of the tail. */
    method WriteSlot(item: T, ghost s0: State<T>, ghost t: seq<Act<T>>)
      requires Reached(s0, t) && queue.abs.ppc == PWrite(item)
      modifies this, queue, queue.slots
      ensures Reached(s0, t + [PStep]) && queue.abs.ppc == PStore(item)
    {
      var ix := queue.SlotOf(cachedTail);
      FitKeeps(queue.b, queue.k, queue.abs.pTail);
      ModLinear(1, queue.abs.pTail, 1, Pow2(queue.b));
      NextInv(queue.Wide(), queue.abs, PStep);
      RunSnoc(queue.Wide(), s0, t, PStep);
      hide Ix, Run, Accepted, Taken, FifoRun;
      queue.slots[ix] := Some(item);
      cachedTail := Add(Bits(queue.b), cachedTail, 1);
      queue.abs := Next(queue.Wide(), queue.abs, PStep);
      assert queue.slots[..] == queue.abs.slots;
    }

    /** The tail store: the item is in the queue. */
    method StoreTail(item: T, ghost s0: State<T>, ghost t: seq<Act<T>>)
      requires Reached(s0, t) && queue.abs.ppc == PStore(item)
      modifies queue`abs, queue`tail
      ensures Reached(s0, t + [PStep])
      ensures queue.abs.ppc == PIdle && queue.abs.log == old(queue.abs.log) + [Pushed(item)]
      ensures 0 <= queue.abs.head <= |Accepted(queue.abs.log)|
      ensures Contents(queue.abs) != [] && Contents(queue.abs)[|Contents(queue.abs)| - 1] == item
    {
      hide Ix, Accepted, Taken, FifoRun, SlotsInv;
      LogSnoc(Pow2(queue.k), queue.abs.log, Pushed(item));
      NextInv(queue.Wide(), queue.abs, PStep);
      RunSnoc(queue.Wide(), s0, t, PStep);
      hide Run;
      queue.tail := cachedTail;
      queue.abs := Next(queue.Wide(), queue.abs, PStep);
    }

    /** The part of `push` after the full check. */
    method Commit(item: T, e1: seq<Act<T>>, e2: seq<Act<T>>, ghost s0: State<T>, ghost t: seq<Act<T>>)
      requires Reached(s0, t) && queue.abs.ppc == PWrite(item) && ConsumerActs(e1) && ConsumerActs(e2)
      modifies this, queue, queue.slots
      ensures Reached(s0, t + e1 + [PStep] + e2 + [PStep]) && queue.abs.ppc == PIdle
      ensures queue.abs.log != [] && queue.abs.log[|queue.abs.log| - 1] == Pushed(item)
      ensures 0 <= queue.abs.head <= |Accepted(queue.abs.log)|
      ensures Contents(queue.abs) != [] && Contents(queue.abs)[|Contents(queue.abs)| - 1] == item
    {
      hide Reached, Accepted, Valid;
      Await(e1, s0, t);
      WriteSlot(item, s0, t + e1);
      Await(e2, s0, t + e1 + [PStep]);
      StoreTail(item, s0, t + e1 + [PStep] + e2);
    }

    /** `push`.  It takes the steps of the machine among the consumer's.  The item comes
        back only if the queue was full when the head was loaded; otherwise it is now the
        newest item of the queue.  With a quiet environment the consumer is untouched. */
    method Push(item: T, env: seq<seq<Act<T>>>) returns (result: Option<T>, ghost trace: seq<Act<T>>)
      requires Valid() && queue.abs.ppc.PIdle?
      requires |env| == 3 && forall i :: 0 <= i < 3 ==> ConsumerActs(env[i])
      modifies this, queue, queue.slots
      ensures Reached(old(queue.abs), trace) && queue.abs.ppc.PIdle?
      ensures var full := Sub(Bits(queue.b), old(cachedTail), old(cachedHead)) == Pow2(queue.k);
              trace == PushTrace(item, env, full, result.Some?)
      ensures 0 <= queue.abs.head <= |Accepted(queue.abs.log)| && queue.abs.log != []
      ensures var q, last := Contents(queue.abs), queue.abs.log[|queue.abs.log| - 1];
              match result
              case None => q != [] && q[|q| - 1] == item && last == Pushed(item)
              case Some(x) => x == item && |q| == Pow2(queue.k) && last == Rejected(item)
      ensures Quiet(env) ==> SameConsumer(old(queue.abs), queue.abs)
    {
      ghost var s0 := queue.abs;
      PushTraceIs(item, env, queue.Wide(), s0);
      hide Run, Inv, PushTrace, Reached, Accepted, Valid, SameConsumer;
      var full := CheckFull(item, s0);
      trace := [Spsc.Push(item)];
      if full {
        var stillFull := StillFull(env[0], s0, trace);
        trace := trace + env[0] + [PStep];
        if stillFull {
          result := Some(item);
          assert queue.abs == Run(queue.Wide(), s0, trace) by { ReachedIs(s0, trace); }
          return;
        }
      }
      Commit(item, env[1], env[2], s0, trace);
      trace := trace + env[1] + [PStep] + env[2] + [PStep];
      result := None;
      assert queue.abs == Run(queue.Wide(), s0, trace) by { ReachedIs(s0, trace); }
    }

    lemma {:induction false} ReachedIs(s0: State<T>, t: seq<Act<T>>)
      requires Reached(s0, t)
      ensures Shaped(queue.Wide(), s0) && queue.abs == Run(queue.Wide(), s0, t)
    {
    }
  }

  class Consumer<T> {
    const queue: Queue<T>
    var cachedHead: nat
    var cachedTail: nat

    ghost predicate Valid()
      reads this, queue, queue.slots
    {
      && queue.Valid()
      && cachedHead == queue.abs.cHead % Pow2(queue.b)
      && cachedTail == queue.abs.cTail % Pow2(queue.b)
    }

    constructor (queue: Queue<T>)
      requires queue.Valid() && queue.abs == Init(queue.Wide())
      ensures Valid() && this.queue == queue && cachedHead == cachedTail == 0
    {
      this.queue := queue;
      cachedHead, cachedTail := 0, 0;
      DivUnique(0, Pow2(queue.b), 0, 0);
    }

    /** The queue is where the run `t` from `s0` leads. */
    ghost predicate Reached(s0: State<T>, t: seq<Act<T>>)
      reads this, queue, queue.slots
    {
      Valid() && Shaped(queue.Wide(), s0) && queue.abs == Run(queue.Wide(), s0, t)
    }

    /** The producer moves. */
    method Await(acts: seq<Act<T>>, ghost s0: State<T>, ghost t: seq<Act<T>>)
      requires Reached(s0, t) && ProducerActs(acts)
      modifies queue, queue.slots
      ensures Reached(s0, t + acts)
      ensures queue.abs.cpc == old(queue.abs.cpc) && queue.abs.head == old(queue.abs.head)
    {
      RunAppend(queue.Wide(), s0, t, acts);
      ProducerSide(queue.Wide(), queue.abs, acts);
      hide Run;
      queue.Interfere(acts);
    }

    /** The empty check on the cached indices. */
    method CheckEmpty(ghost s0: State<T>) returns (empty: bool)
      requires Valid() && queue.abs == s0 && s0.cpc.CIdle?
      modifies queue`abs
      ensures Reached(s0, [Spsc.Pop])
      ensures queue.abs.cpc == (if empty then CEmpty else CRead) && queue.abs.head == old(queue.abs.head)
      ensures empty == (cachedHead == cachedTail)
    {
      empty := cachedHead == cachedTail;
      EmptyTest(queue.Wide(), queue.b, queue.k, queue.abs.cHead, queue.abs.cTail);
      NextInv(queue.Wide(), queue.abs, Spsc.Pop);
      RunOne(queue.Wide(), s0, Spsc.Pop);
      queue.abs := Next(queue.Wide(), queue.abs, Spsc.Pop);
    }

    /** `still_empty`: refresh the cached tail. */
    method StillEmpty(acts: seq<Act<T>>, ghost s0: State<T>, ghost t: seq<Act<T>>) returns (empty: bool)
      requires Reached(s0, t) && ProducerActs(acts) && queue.abs.cpc.CEmpty?
      modifies this, queue, queue.slots
      ensures Reached(s0, t + acts + [CStep]) && cachedTail == queue.tail
      ensures queue.abs.cpc == (if empty then CIdle else CRead) && queue.abs.head == old(queue.abs.head)
      ensures empty ==>
                && queue.abs.log != [] && queue.abs.log[|queue.abs.log| - 1] == FoundEmpty
                && 0 <= queue.abs.head <= |Accepted(queue.abs.log)| && Contents(queue.abs) == []
    {
      Await(acts, s0, t);
      RunSnoc(queue.Wide(), s0, t + acts, CStep);
      TailLoad(queue.Wide(), queue.b, queue.k, queue.abs);
      hide Run, Next, Inv, Accepted;
      cachedTail := queue.tail;
      empty := cachedHead == cachedTail;
      queue.abs := Next(queue.Wide(), queue.abs, CStep);
    }

    /** The move out of the slot and the local increment of the head. */
    method ReadSlot(ghost s0: State<T>, ghost t: seq<Act<T>>) returns (item: T)
      requires Reached(s0, t) && queue.abs.cpc.CRead?
      modifies this, queue, queue.slots
      ensures Reached(s0, t + [CStep])
      ensures queue.abs.cpc == CStore(item) && queue.abs.head == old(queue.abs.head)
    {
      var ix := queue.SlotOf(cachedHead);
      FitKeeps(queue.b, queue.k, queue.abs.cHead);
      ModLinear(1, queue.abs.cHead, 1, Pow2(queue.b));
      RunSnoc(queue.Wide(), s0, t, CStep);
      hide Ix, Run, Accepted, Taken, FifoRun;
      NextInv(queue.Wide(), queue.abs, CStep);
      assert queue.slots[ix] == queue.abs.slots[ix];
      item := queue.slots[ix].value;
      queue.slots[ix] := None;
      cachedHead := Add(Bits(queue.b), cachedHead, 1);
      queue.abs := Next(queue.Wide(), queue.abs, CStep);
      assert queue.slots[..] == queue.abs.slots;
    }

    /** The head store: the slot is the producer's again. */
    method StoreHead(item: T, ghost s0: State<T>, ghost t: seq<Act<T>>)
      requires Reached(s0, t) && queue.abs.cpc == CStore(item)
      modifies queue`abs, queue`head
      ensures Reached(s0, t + [CStep])
      ensures queue.abs.cpc == CIdle && queue.abs.log == old(queue.abs.log) + [Popped(item)]
      ensures 0 <= old(queue.abs.head) < queue.abs.head == old(queue.abs.head) + 1 <= |Accepted(queue.abs.log)|
      ensures item == Accepted(queue.abs.log)[old(queue.abs.head)]
    {
      hide Ix, Accepted, Taken, FifoRun, SlotsInv;
      LogSnoc(Pow2(queue.k), queue.abs.log, Popped(item));
      NextInv(queue.Wide(), queue.abs, CStep);
      RunSnoc(queue.Wide(), s0, t, CStep);
      hide Run;
      queue.head := cachedHead;
      queue.abs := Next(queue.Wide(), queue.abs, CStep);
    }

    /** The part of `pop` after the empty check. */
    method Take(e1: seq<Act<T>>, e2: seq<Act<T>>, ghost s0: State<T>, ghost t: seq<Act<T>>) returns (item: T)
      requires Reached(s0, t) && queue.abs.cpc == CRead && ProducerActs(e1) && ProducerActs(e2)
      modifies this, queue, queue.slots
      ensures Reached(s0, t + e1 + [CStep] + e2 + [CStep]) && queue.abs.cpc == CIdle
      ensures queue.abs.log != [] && queue.abs.log[|queue.abs.log| - 1] == Popped(item)
      ensures 0 <= old(queue.abs.head) < queue.abs.head == old(queue.abs.head) + 1 <= |Accepted(queue.abs.log)|
      ensures item == Accepted(queue.abs.log)[old(queue.abs.head)]
    {
      hide Reached, Accepted, Valid;
      Await(e1, s0, t);
      item := ReadSlot(s0, t + e1);
      Await(e2, s0, t + e1 + [CStep]);
      StoreHead(item, s0, t + e1 + [CStep] + e2);
    }

    /** `pop`.  It takes the steps of the machine among the producer's.  It finds nothing
        only if the queue was empty when the tail was loaded; otherwise it returns the
        oldest item accepted and not yet popped.  With a quiet environment the producer is
        untouched. */
    method Pop(env: seq<seq<Act<T>>>) returns (result: Option<T>, ghost trace: seq<Act<T>>)
      requires Valid() && queue.abs.cpc.CIdle?
      requires |env| == 3 && forall i :: 0 <= i < 3 ==> ProducerActs(env[i])
      modifies this, queue, queue.slots
      ensures Reached(old(queue.abs), trace) && queue.abs.cpc.CIdle?
      ensures trace == PopTrace(env, old(cachedHead) == old(cachedTail), result.None?)
      ensures 0 <= queue.abs.head <= |Accepted(queue.abs.log)| && queue.abs.log != []
      ensures var last, at := queue.abs.log[|queue.abs.log| - 1], old(queue.abs.head);
              match result
              case None => Contents(queue.abs) == [] && last == FoundEmpty && queue.abs.head == at
              case Some(x) =>
                && 0 <= at < queue.abs.head == at + 1
                && x == Accepted(queue.abs.log)[at] && last == Popped(x)
      ensures Quiet(env) ==> SameProducer(old(queue.abs), queue.abs)
    {
      ghost var s0 := queue.abs;
      PopTraceIs(env, queue.Wide(), s0);
      hide Run, Inv, PopTrace, Reached, Accepted, Valid, SameProducer;
      var empty := CheckEmpty(s0);
      trace := [Spsc.Pop];
      if empty {
        var stillEmpty := StillEmpty(env[0], s0, trace);
        trace := trace + env[0] + [CStep];
        if stillEmpty {
          result := None;
          assert queue.abs == Run(queue.Wide(), s0, trace) by { ReachedIs(s0, trace); }
          return;
        }
      }
      var item := Take(env[1], env[2], s0, trace);
      trace := trace + env[1] + [CStep] + env[2] + [CStep];
      result := Some(item);
      assert queue.abs == Run(queue.Wide(), s0, trace) by { ReachedIs(s0, trace); }
    }

    lemma {:induction false} ReachedIs(s0: State<T>, t: seq<Act<T>>)
      requires Reached(s0, t)
      ensures Shaped(queue.Wide(), s0) && queue.abs == Run(queue.Wide(), s0, t)
    {
    }
  }
}
