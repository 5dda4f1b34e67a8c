/** What every step of the SPSC queue keeps, and what follows for every interleaving. */
module SpscTheorems {
  import opened Words
  import opened Options
  import opened Spsc

  /** The positions that hold an item are `Low` to `High`: the consumer has moved out of
      the slot before it stores the head, the producer has filled the slot before it
      stores the tail. */
  function Low<T>(s: State<T>): int {
    if s.cpc.CStore? then s.head + 1 else s.head
  }

  function High<T>(s: State<T>): int {
    if s.ppc.PStore? then s.tail + 1 else s.tail
  }

  /** The item at a live position. */
  function ItemAt<T>(s: State<T>, p: int): Option<T> {
    if 0 <= p < |Accepted(s.log)| then Some(Accepted(s.log)[p])
    else if p == s.tail && s.ppc.PStore? then Some(s.ppc.item)
    else None
  }

  /** The two indices and their stale copies, in order. */
  ghost predicate IndexInv<T>(cfg: Config, s: State<T>) {
    && 0 <= s.pHead <= s.head <= s.cTail <= s.tail
    && s.tail - s.pHead <= cfg.cap
    && s.pTail == High(s)
    && s.cHead == Low(s)
    && (s.ppc.PFull? ==> s.tail - s.pHead == cfg.cap)
    && (s.ppc.PWrite? || s.ppc.PStore? ==> s.tail - s.pHead < cfg.cap)
    && (s.cpc.CEmpty? ==> s.head == s.cTail)
    && (s.cpc.CRead? || s.cpc.CStore? ==> s.head < s.cTail)
  }

  ghost predicate SlotsInv<T>(cfg: Config, s: State<T>)
    requires Shaped(cfg, s)
  {
    && (forall p :: Low(s) <= p < High(s) ==> ItemAt(s, p).Some? && s.slots[Ix(cfg.cap, p)] == ItemAt(s, p))
    && (forall p :: High(s) <= p < Low(s) + cfg.cap ==> s.slots[Ix(cfg.cap, p)] == None)
  }

  ghost predicate LogInv<T>(cfg: Config, s: State<T>) {
    && |Accepted(s.log)| == s.tail
    && 0 <= s.head <= s.tail
    && Taken(s.log) == Accepted(s.log)[..s.head]
    && FifoRun(cfg.cap, s.log) == Some(Accepted(s.log)[s.head..])
    && (s.cpc.CStore? ==> s.head < s.tail && s.cpc.item == Accepted(s.log)[s.head])
  }

  ghost predicate Inv<T>(cfg: Config, s: State<T>) {
    && cfg.wd == Unbounded
    && Shaped(cfg, s)
    && !s.fault
    && IndexInv(cfg, s)
    && LogInv(cfg, s)
    && SlotsInv(cfg, s)
  }

  /** The contents of the queue: what is accepted and not yet taken. */
  function Contents<T>(s: State<T>): seq<T>
    requires 0 <= s.head <= |Accepted(s.log)|
  {
    Accepted(s.log)[s.head..]
  }

  /** Positions less than a lap apart have different slots. */
  lemma {:induction false} Apart(cap: nat, p: int, q: int)
    requires cap > 0 && p < q < p + cap
    ensures Ix(cap, p) != Ix(cap, q)
  {
    if Ix(cap, p) == Ix(cap, q) {
      SameSlot(cap, p, q);
    }
  }

  /** Within one lap, no other position shares the slot of `at`. */
  lemma {:induction false} OthersApart(cap: nat, lo: int, at: int)
    requires cap > 0 && lo <= at < lo + cap
    ensures forall p :: lo <= p < lo + cap && p != at ==> Ix(cap, p) != Ix(cap, at)
  {
    forall p | lo <= p < lo + cap && p != at
      ensures Ix(cap, p) != Ix(cap, at)
    {
      if p < at { Apart(cap, p, at); } else { Apart(cap, at, p); }
    }
  }

  // ------------------------------------------------------------- preservation

  lemma {:induction false} InitInv<T>(cfg: Config)
    requires cfg.cap > 0 && cfg.wd == Unbounded
    ensures Inv(cfg, Init<T>(cfg))
  {
  }

  lemma {:induction false} WriteKeeps<T>(cfg: Config, s: State<T>)
    requires Inv(cfg, s) && s.ppc.PWrite?
    ensures Inv(cfg, ProducerNext(cfg, s))
  {
    var s' := ProducerNext(cfg, s);
    var i := Ix(cfg.cap, s.tail);
    assert s.slots[i] == None;
    OthersApart(cfg.cap, Low(s), s.tail);
    hide Ix;
    assert s'.slots[i] == ItemAt(s', s.tail);
  }

  lemma {:induction false} ReadKeeps<T>(cfg: Config, s: State<T>)
    requires Inv(cfg, s) && s.cpc.CRead?
    ensures Inv(cfg, ConsumerNext(cfg, s))
  {
    var i := Ix(cfg.cap, s.head);
    assert s.slots[i] == ItemAt(s, s.head) && s.slots[i].Some?;
    OthersApart(cfg.cap, s.head, s.head);
    ModShift(s.head, 1, cfg.cap);
    assert Ix(cfg.cap, s.head + cfg.cap) == i;
  }

  lemma {:induction false} TailStoreKeeps<T>(cfg: Config, s: State<T>)
    requires Inv(cfg, s) && s.ppc.PStore?
    ensures Inv(cfg, ProducerNext(cfg, s))
  {
    hide Ix, Accepted, Taken, FifoRun;
    var s' := ProducerNext(cfg, s);
    LogSnoc(cfg.cap, s.log, Pushed(s.ppc.item));
    assert Accepted(s'.log)[s.head..] == Accepted(s.log)[s.head..] + [s.ppc.item];
    assert Accepted(s'.log)[..s.head] == Accepted(s.log)[..s.head];
    forall p | Low(s') <= p < High(s')
      ensures ItemAt(s', p) == ItemAt(s, p)
    {
    }
  }

  lemma {:induction false} HeadStoreKeeps<T>(cfg: Config, s: State<T>)
    requires Inv(cfg, s) && s.cpc.CStore?
    ensures Inv(cfg, ConsumerNext(cfg, s))
  {
    hide Ix, Accepted, Taken, FifoRun;
    var s' := ConsumerNext(cfg, s);
    LogSnoc(cfg.cap, s.log, Popped(s.cpc.item));
    var q := Accepted(s.log);
    assert q[s.head..][0] == s.cpc.item && q[s.head..][1..] == q[s.head + 1..];
    assert q[..s.head] + [s.cpc.item] == q[..s.head + 1];
    forall p
      ensures ItemAt(s', p) == ItemAt(s, p)
    {
    }
  }

  lemma {:induction false} StartKeeps<T>(cfg: Config, s: State<T>, a: Act<T>)
    requires Inv(cfg, s) && (a.Push? || a.Pop?)
    ensures Inv(cfg, Next(cfg, s, a))
  {
    hide Ix, Accepted, Taken, FifoRun;
    var s' := Next(cfg, s, a);
    forall p
      ensures ItemAt(s', p) == ItemAt(s, p)
    {
    }
  }

  lemma {:induction false} HeadLoadKeeps<T>(cfg: Config, s: State<T>)
    requires Inv(cfg, s) && s.ppc.PFull?
    ensures Inv(cfg, ProducerNext(cfg, s))
  {
    hide Ix, Accepted, Taken, FifoRun;
    LogSnoc(cfg.cap, s.log, Rejected(s.ppc.item));
    var s' := ProducerNext(cfg, s);
    forall p
      ensures ItemAt(s', p) == ItemAt(s, p)
    {
    }
  }

  lemma {:induction false} TailLoadKeeps<T>(cfg: Config, s: State<T>)
    requires Inv(cfg, s) && s.cpc.CEmpty?
    ensures Inv(cfg, ConsumerNext(cfg, s))
  {
    hide Ix, Accepted, Taken, FifoRun;
    LogSnoc(cfg.cap, s.log, FoundEmpty);
    var s' := ConsumerNext(cfg, s);
    forall p
      ensures ItemAt(s', p) == ItemAt(s, p)
    {
    }
  }

  lemma {:induction false} NextInv<T>(cfg: Config, s: State<T>, a: Act<T>)
    requires Inv(cfg, s)
    ensures Inv(cfg, Next(cfg, s, a))
  {
    if a.PStep? && s.ppc.PWrite? {
      WriteKeeps(cfg, s);
    } else if a.PStep? && s.ppc.PStore? {
      TailStoreKeeps(cfg, s);
    } else if a.CStep? && s.cpc.CRead? {
      ReadKeeps(cfg, s);
    } else if a.CStep? && s.cpc.CStore? {
      HeadStoreKeeps(cfg, s);
    } else if a.PStep? && s.ppc.PFull? {
      HeadLoadKeeps(cfg, s);
    } else if a.CStep? && s.cpc.CEmpty? {
      TailLoadKeeps(cfg, s);
    } else if a.Push? || a.Pop? {
      StartKeeps(cfg, s, a);
    }
  }

  lemma {:induction false} RunInv<T>(cfg: Config, s: State<T>, t: seq<Act<T>>)
    requires Inv(cfg, s)
    ensures Inv(cfg, Run(cfg, s, t))
    decreases |t|
  {
    if t != [] {
      RunInv(cfg, s, t[..|t| - 1]);
      NextInv(cfg, Run(cfg, s, t[..|t| - 1]), t[|t| - 1]);
    }
  }

  lemma {:induction false} Reachable<T>(cfg: Config, t: seq<Act<T>>)
    requires cfg.cap > 0 && cfg.wd == Unbounded
    ensures Inv(cfg, Run(cfg, Init<T>(cfg), t))
  {
    InitInv<T>(cfg);
    RunInv(cfg, Init<T>(cfg), t);
  }

  // ------------------------------------------------------------ main results

  /** Linearizability.  In every interleaving the calls, in the order they return, are the
      operations of an atomic bounded FIFO: a push is accepted only with room and refused
      only when full, a pop takes the oldest item and finds nothing only when empty.  The
      items popped are always a prefix of the items pushed. */
  lemma {:induction false} Linearizable<T>(cfg: Config, t: seq<Act<T>>)
    requires cfg.cap > 0 && cfg.wd == Unbounded
    ensures var s := Run(cfg, Init<T>(cfg), t);
            && 0 <= s.head <= |Accepted(s.log)|
            && FifoRun(cfg.cap, s.log) == Some(Contents(s))
            && Taken(s.log) + Contents(s) == Accepted(s.log)
            && |Contents(s)| == s.tail - s.head <= cfg.cap
  {
    Reachable(cfg, t);
    var s := Run(cfg, Init<T>(cfg), t);
    assert Accepted(s.log)[..s.head] + Accepted(s.log)[s.head..] == Accepted(s.log);
  }

  /** No step of any run reads a slot that holds no item or overwrites one that does: the
      producer about to write finds its slot empty, and the consumer about to move out of its
      slot finds the oldest item there. */
  lemma {:induction false} NoFault<T>(cfg: Config, t: seq<Act<T>>)
    requires cfg.cap > 0 && cfg.wd == Unbounded
    ensures var s := Run(cfg, Init<T>(cfg), t);
            && !s.fault
            && (s.ppc.PWrite? ==> s.slots[Ix(cfg.cap, s.pTail)] == None)
            && (s.cpc.CRead? ==>
                && 0 <= s.head < |Accepted(s.log)|
                && s.slots[Ix(cfg.cap, s.cHead)] == Some(Accepted(s.log)[s.head]))
  {
    Reachable(cfg, t);
    var s := Run(cfg, Init<T>(cfg), t);
    if s.cpc.CRead? {
      assert s.slots[Ix(cfg.cap, s.head)] == ItemAt(s, s.head);
    }
  }

  /** From any state whatever, a step is recorded as a fault exactly when it overwrites an item
      or reads a slot without one; no later step clears it. */
  lemma {:induction false} FaultIsRecorded<T>(cfg: Config, s: State<T>, a: Act<T>)
    requires Shaped(cfg, s)
    ensures Next(cfg, s, a).fault <==>
              || s.fault
              || (a.PStep? && s.ppc.PWrite? && s.slots[Ix(cfg.cap, s.pTail)].Some?)
              || (a.CStep? && s.cpc.CRead? && s.slots[Ix(cfg.cap, s.cHead)].None?)
  {
    hide Ix;
  }

  lemma {:induction false} NextGrows<T>(cfg: Config, s: State<T>, a: Act<T>)
    requires Inv(cfg, s)
    ensures s.head <= Next(cfg, s, a).head && s.tail <= Next(cfg, s, a).tail
  {
    hide Ix, SlotsInv, LogInv;
  }

  /** One step of any thread: with room by the cached head no load of the head is begun, and
      with items by the cached tail none of the tail. */
  lemma {:induction false} CachedStep<T>(cfg: Config, s: State<T>, a: Act<T>)
    requires Inv(cfg, s)
    ensures var s' := Next(cfg, s, a);
            && (!s.ppc.PFull? && s.tail < s.pHead + cfg.cap ==> s'.pHead == s.pHead && !s'.ppc.PFull?)
            && (!s.cpc.CEmpty? && s.head < s.cTail ==> s'.cTail == s.cTail && !s'.cpc.CEmpty?)
  {
    hide Ix, SlotsInv, LogInv;
  }

  /** The producer's cache spares the shared head: in every interleaving, it loads the head no
      more until it has filled the room that its last load showed. */
  lemma {:induction false} HeadCached<T>(cfg: Config, s: State<T>, t: seq<Act<T>>)
    requires Inv(cfg, s) && !s.ppc.PFull? && Run(cfg, s, t).tail < s.pHead + cfg.cap
    ensures Run(cfg, s, t).pHead == s.pHead && !Run(cfg, s, t).ppc.PFull?
    decreases |t|
  {
    if t != [] {
      var u := t[..|t| - 1];
      RunInv(cfg, s, u);
      NextGrows(cfg, Run(cfg, s, u), t[|t| - 1]);
      HeadCached(cfg, s, u);
      CachedStep(cfg, Run(cfg, s, u), t[|t| - 1]);
      hide Inv, Next;
    }
  }

  /** And a load that finds room is kept. */
  lemma {:induction false} HeadKept<T>(cfg: Config, s: State<T>, t: seq<Act<T>>)
    requires Inv(cfg, s) && s.ppc.PFull? && Run(cfg, Next(cfg, s, PStep), t).tail < s.head + cfg.cap
    ensures var s' := Run(cfg, Next(cfg, s, PStep), t);
            s'.pHead == s.head && !s'.ppc.PFull?
  {
    NextInv(cfg, s, PStep);
    hide Ix, Inv;
    HeadCached(cfg, Next(cfg, s, PStep), t);
  }

  /** The consumer's cache spares the shared tail: in every interleaving, it loads the tail no
      more until it has popped the items that its last load showed. */
  lemma {:induction false} TailCached<T>(cfg: Config, s: State<T>, t: seq<Act<T>>)
    requires Inv(cfg, s) && !s.cpc.CEmpty? && Run(cfg, s, t).head < s.cTail
    ensures Run(cfg, s, t).cTail == s.cTail && !Run(cfg, s, t).cpc.CEmpty?
    decreases |t|
  {
    if t != [] {
      var u := t[..|t| - 1];
      RunInv(cfg, s, u);
      NextGrows(cfg, Run(cfg, s, u), t[|t| - 1]);
      TailCached(cfg, s, u);
      CachedStep(cfg, Run(cfg, s, u), t[|t| - 1]);
      hide Inv, Next;
    }
  }

  lemma {:induction false} TailKept<T>(cfg: Config, s: State<T>, t: seq<Act<T>>)
    requires Inv(cfg, s) && s.cpc.CEmpty? && Run(cfg, Next(cfg, s, CStep), t).head < s.tail
    ensures var s' := Run(cfg, Next(cfg, s, CStep), t);
            s'.cTail == s.tail && !s'.cpc.CEmpty?
  {
    NextInv(cfg, s, CStep);
    hide Ix, Inv;
    TailCached(cfg, Next(cfg, s, CStep), t);
  }

  /** The slot each side is about to access, or has accessed and not yet published. */
  function ProducerSlot<T>(cfg: Config, s: State<T>): nat
    requires cfg.cap > 0
  {
    Ix(cfg.cap, if s.ppc.PStore? then s.pTail - 1 else s.pTail)
  }

  function ConsumerSlot<T>(cfg: Config, s: State<T>): nat
    requires cfg.cap > 0
  {
    Ix(cfg.cap, if s.cpc.CStore? then s.cHead - 1 else s.cHead)
  }

  /** Race freedom: while the producer is between its full check and its tail store and the
      consumer between its empty check and its head store, they are at different slots. */
  lemma {:induction false} RaceFree<T>(cfg: Config, t: seq<Act<T>>)
    requires cfg.cap > 0 && cfg.wd == Unbounded
    requires var s := Run(cfg, Init<T>(cfg), t);
             (s.ppc.PWrite? || s.ppc.PStore?) && (s.cpc.CRead? || s.cpc.CStore?)
    ensures var s := Run(cfg, Init<T>(cfg), t);
            && s.pHead <= s.head <= s.cTail <= s.tail && s.tail - s.pHead <= cfg.cap
            && ProducerSlot(cfg, s) != ConsumerSlot(cfg, s)
  {
    Reachable(cfg, t);
    var s := Run(cfg, Init<T>(cfg), t);
    Apart(cfg.cap, s.head, s.tail);
  }
}
