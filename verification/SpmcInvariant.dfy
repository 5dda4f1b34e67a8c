/** What every step of the SPMC protocol keeps, over unbounded counters. */
module SpmcInvariant {
  import opened Words
  import opened Payloads
  import opened Threads
  import opened Spmc

  /** The publication whose stamp a slot carries; -1 for a slot never written. */
  function Gen(stamp: int): int {
    (stamp + 1) / 2 - 1
  }

  ghost predicate WriterInv(cfg: Config, m: Ring)
    requires ShapedRing(cfg, m)
  {
    match m.writer
    case WIdle => m.cursor == |m.hist|
    case WLoaded(v, pos) => pos == m.cursor == |m.hist|
    case WCopying(v, pos, done) =>
      && 0 <= pos == m.cursor == |m.hist| - 1
      && v == m.hist[pos]
      && m.slots[Ix(cfg.cap, pos)].stamp == 2 * pos + 1
      && (forall k :: k in done && k < cfg.nw ==> m.slots[Ix(cfg.cap, pos)].data[k] == v[k])
    case WSealed(pos) => pos == m.cursor == |m.hist| - 1
  }

  /** A slot with an even stamp holds the whole value of its publication; an odd
      stamp marks the one slot the writer is copying into. */
  ghost predicate SlotInv(cfg: Config, m: Ring, i: nat)
    requires ShapedRing(cfg, m) && i < cfg.cap
  {
    var slot := m.slots[i];
    var g := Gen(slot.stamp);
    && slot.stamp >= 0
    && (g >= 0 ==> g < |m.hist| && Ix(cfg.cap, g) == i)
    && (slot.stamp % 2 == 1 ==> m.writer.WCopying? && g == m.writer.pos)
    && (slot.stamp % 2 == 0 && g >= 0 ==> slot.data == m.hist[g])
  }

  ghost predicate RingInv(cfg: Config, m: Ring) {
    && ShapedRing(cfg, m)
    && WriterInv(cfg, m)
    && (forall p :: 0 <= p < |m.hist| ==> |m.hist[p]| == cfg.nw)
    && (forall i :: 0 <= i < cfg.cap ==> SlotInv(cfg, m, i))
    // no slot ever goes back to an earlier publication
    && (forall p :: 0 <= p < |m.hist| ==> m.slots[Ix(cfg.cap, p)].stamp >= 2 * p + 1)
  }

  /** The number of values that are whole in their slot: one more than the write
      cursor between the even stamp and the cursor store. */
  function SealedCount(m: Ring): int {
    if m.writer.WSealed? then m.cursor + 1 else m.cursor
  }

  function StampAt(cfg: Config, m: Ring, r: int): int
    requires ShapedRing(cfg, m)
  {
    m.slots[Ix(cfg.cap, r)].stamp
  }

  /** The reader is past its empty check. */
  predicate InCall(c: Reader) {
    c.pc.RSeq1? || c.pc.RCopy? || c.pc.RReload?
  }

  ghost predicate PcInv(cfg: Config, m: Ring, c: Reader)
    requires ShapedRing(cfg, m)
  {
    match c.pc
    case RIdle => true
    case RCheck => c.r == c.cached && c.copies == 0
    case RSeq1 => c.copies == 1 ==> StampAt(cfg, m, c.r) > 2 * c.r + 2
    case RCopy(seq1, buf) =>
      && c.copies == 1
      && seq1 == 2 * c.r + 2
      && 0 <= c.r < |m.hist| && |m.hist[c.r]| == cfg.nw
      && (StampAt(cfg, m, c.r) == seq1 ==>
          forall k :: k in buf && k < cfg.nw ==> buf[k] == m.hist[c.r][k])
    case RReload => c.r + cfg.cap < SealedCount(m)
  }

  ghost predicate ReaderInv(cfg: Config, m: Ring, c: Reader)
    requires ShapedRing(cfg, m)
  {
    && 0 <= c.base <= c.r <= c.cached <= m.cursor
    && (InCall(c) ==> c.r < c.cached)
    && c.copies <= 1
    && PcInv(cfg, m, c)
    && c.base + Advance(c.log) == c.r
    && LogOk(cfg.cap, c.log, c.base, m.hist)
  }

  ghost predicate Inv(cfg: Config, s: State) {
    && cfg.wd == Unbounded
    && RingInv(cfg, s.ring)
    && (forall i :: 0 <= i < |s.readers| ==> ReaderInv(cfg, s.ring, s.readers[i]))
  }

  // ------------------------------------------------------------ what slots hold

  /** The slot of a begun publication carries its stamp, or one at least a lap later. */
  lemma {:induction false} SlotOf(cfg: Config, m: Ring, r: int)
    requires RingInv(cfg, m) && 0 <= r < |m.hist|
    ensures StampAt(cfg, m, r) >= 2 * r + 1
    ensures Gen(StampAt(cfg, m, r)) == r || r + cfg.cap <= Gen(StampAt(cfg, m, r)) < |m.hist|
  {
    var x := StampAt(cfg, m, r);
    assert SlotInv(cfg, m, Ix(cfg.cap, r));
    assert m.slots[Ix(cfg.cap, r)].stamp >= 2 * r + 1;
    if Gen(x) > r {
      SameSlot(cfg.cap, r, Gen(x));
    }
  }

  /** The slot of a sealed value carries that value or a later one of the same slot. */
  lemma {:induction false} SealedStamp(cfg: Config, m: Ring, r: int)
    requires RingInv(cfg, m) && 0 <= r < SealedCount(m)
    ensures r < |m.hist|
    ensures StampAt(cfg, m, r) >= 2 * r + 2
    ensures StampAt(cfg, m, r) == 2 * r + 2 ==> m.slots[Ix(cfg.cap, r)].data == m.hist[r]
    ensures StampAt(cfg, m, r) > 2 * r + 2 ==> Gen(StampAt(cfg, m, r)) >= r + cfg.cap
    ensures StampAt(cfg, m, r) % 2 == 0 ==> Gen(StampAt(cfg, m, r)) < SealedCount(m)
  {
    SlotOf(cfg, m, r);
    hide Ix;
    var i := Ix(cfg.cap, r);
    assert SlotInv(cfg, m, i);
  }

  /** While the publication that would reuse the slot has not begun, the slot holds value `r`. */
  lemma {:induction false} NotOverrun(cfg: Config, m: Ring, r: int)
    requires RingInv(cfg, m) && 0 <= r < SealedCount(m) && |m.hist| <= r + cfg.cap
    ensures StampAt(cfg, m, r) == 2 * r + 2
    ensures r < |m.hist| && m.slots[Ix(cfg.cap, r)].data == m.hist[r]
  {
    SealedStamp(cfg, m, r);
    SlotOf(cfg, m, r);
  }

  // ------------------------------------------------------------- preservation

  lemma {:induction false} InitInv(cfg: Config)
    requires cfg.cap > 0 && cfg.wd == Unbounded
    ensures Inv(cfg, Init(cfg))
  {
  }

  lemma {:induction false} OddStoreKeeps(cfg: Config, m: Ring, j: nat)
    requires RingInv(cfg, m) && cfg.wd == Unbounded && m.writer.WLoaded?
    ensures RingInv(cfg, WriterNext(cfg, m, Store(j)))
  {
    var m' := WriterNext(cfg, m, Store(j));
    var at := Ix(cfg.cap, m.writer.pos);
    forall i | 0 <= i < cfg.cap
      ensures SlotInv(cfg, m', i)
    {
      assert SlotInv(cfg, m, i);
    }
    forall p | 0 <= p < |m'.hist|
      ensures m'.slots[Ix(cfg.cap, p)].stamp >= 2 * p + 1
    {
      if p < |m.hist| && Ix(cfg.cap, p) != at {
        assert m'.slots[Ix(cfg.cap, p)] == m.slots[Ix(cfg.cap, p)];
      }
    }
  }

  lemma {:induction false} CopyOrSealKeeps(cfg: Config, m: Ring, j: nat)
    requires RingInv(cfg, m) && cfg.wd == Unbounded && m.writer.WCopying?
    ensures RingInv(cfg, WriterNext(cfg, m, Store(j)))
  {
    var m' := WriterNext(cfg, m, Store(j));
    var at := Ix(cfg.cap, m.writer.pos);
    forall i | 0 <= i < cfg.cap
      ensures SlotInv(cfg, m', i)
    {
      assert SlotInv(cfg, m, i);
      if m'.writer.WSealed? && i == at {
        assert m'.slots[i].data == m.writer.v;
      }
    }
  }

  lemma {:induction false} WriterKeepsRing(cfg: Config, m: Ring, a: WriterAct)
    requires RingInv(cfg, m) && cfg.wd == Unbounded
    ensures RingInv(cfg, WriterNext(cfg, m, a))
  {
    if a.Store? && m.writer.WLoaded? {
      OddStoreKeeps(cfg, m, a.j);
    } else if a.Store? && m.writer.WCopying? {
      CopyOrSealKeeps(cfg, m, a.j);
    } else {
      var m' := WriterNext(cfg, m, a);
      forall i | 0 <= i < cfg.cap
        ensures SlotInv(cfg, m', i)
      {
        assert SlotInv(cfg, m, i);
      }
    }
  }

  /** Stamps, the cursor, the history and the sealed values only grow. */
  lemma {:induction false} WriterGrows(cfg: Config, m: Ring, a: WriterAct)
    requires RingInv(cfg, m) && cfg.wd == Unbounded
    ensures var m' := WriterNext(cfg, m, a);
            && m.cursor <= m'.cursor
            && m.hist <= m'.hist
            && SealedCount(m) <= SealedCount(m')
            && (forall r :: StampAt(cfg, m, r) <= StampAt(cfg, m', r))
  {
    var m' := WriterNext(cfg, m, a);
    forall r
      ensures StampAt(cfg, m, r) <= StampAt(cfg, m', r)
    {
      assert SlotInv(cfg, m, Ix(cfg.cap, r));
    }
  }

  lemma {:induction false} WriterKeepsReader(cfg: Config, m: Ring, a: WriterAct, c: Reader)
    requires RingInv(cfg, m) && cfg.wd == Unbounded && ReaderInv(cfg, m, c)
    ensures ReaderInv(cfg, WriterNext(cfg, m, a), c)
  {
    var m' := WriterNext(cfg, m, a);
    WriterGrows(cfg, m, a);
    LogGrow(cfg.cap, c.log, c.base, m.hist, m'.hist);
    if InCall(c) {
      SealedStamp(cfg, m, c.r);
    }
  }

  /** A result extends the log consistently. */
  lemma {:induction false} FinishKeeps(cfg: Config, m: Ring, c: Reader, c': Reader, o: Outcome)
    requires RingInv(cfg, m) && ReaderInv(cfg, m, c)
    requires c' == Finish(c.(r := c'.r, cached := c'.cached), o)
    requires c.r <= c'.r <= c'.cached <= m.cursor && c'.r == c.r + Span(o)
    requires o.Value? ==> c.r < |m.hist| && o.v == m.hist[c.r]
    requires o.Lapped? ==> o.skipped >= cfg.cap - 1
    ensures ReaderInv(cfg, m, c')
  {
    LogSnoc(cfg.cap, c.log, o, c.base, m.hist);
  }

  lemma {:induction false} ReaderKeeps(cfg: Config, m: Ring, c: Reader, j: nat)
    requires RingInv(cfg, m) && cfg.wd == Unbounded && ReaderInv(cfg, m, c)
    ensures ReaderInv(cfg, m, ReaderNext(cfg, m, c, j))
  {
    hide Ix;
    var c' := ReaderNext(cfg, m, c, j);
    match c.pc
    case RIdle =>
    case RCheck =>
      if c'.pc.RIdle? { FinishKeeps(cfg, m, c, c', Empty); }
    case RSeq1 => SealedStamp(cfg, m, c.r);
    case RCopy(seq1, buf) => CopyKeeps(cfg, m, c, j);
    case RReload => FinishKeeps(cfg, m, c, c', Lapped(m.cursor - 1 - c.r));
  }

  lemma {:induction false} CopyKeeps(cfg: Config, m: Ring, c: Reader, j: nat)
    requires RingInv(cfg, m) && cfg.wd == Unbounded && ReaderInv(cfg, m, c) && c.pc.RCopy?
    ensures ReaderInv(cfg, m, ReaderNext(cfg, m, c, j))
  {
    SealedStamp(cfg, m, c.r);
    var c' := ReaderNext(cfg, m, c, j);
    if c'.pc.RIdle? {
      var v := Assemble(cfg.nw, c.pc.buf);
      assert v == m.hist[c.r];
      FinishKeeps(cfg, m, c, c', Value(v));
    }
  }

  lemma {:induction false} NextInv(cfg: Config, s: State, a: Act)
    requires Inv(cfg, s)
    ensures Inv(cfg, Next(cfg, s, a))
  {
    match a
    case W(wa) =>
      WriterKeepsRing(cfg, s.ring, wa);
      forall i | 0 <= i < |s.readers|
        ensures ReaderInv(cfg, WriterNext(cfg, s.ring, wa), s.readers[i])
      {
        WriterKeepsReader(cfg, s.ring, wa, s.readers[i]);
      }
    case R(i, j) =>
      if i < |s.readers| {
        ReaderKeeps(cfg, s.ring, s.readers[i], j);
      }
    case Clone(i) =>
  }

  lemma {:induction false} RunInv(cfg: Config, s: State, t: seq<Act>)
    requires Inv(cfg, s)
    ensures Inv(cfg, Run(cfg, s, t))
    decreases |t|
  {
    if t != [] {
      RunInv(cfg, s, t[..|t| - 1]);
      NextInv(cfg, Run(cfg, s, t[..|t| - 1]), t[|t| - 1]);
    }
  }

  // -------------------------------------------------------------- whole runs

  /** The state after any run from the initial one. */
  lemma {:induction false} Reachable(cfg: Config, t: seq<Act>)
    requires cfg.cap > 0 && cfg.wd == Unbounded
    ensures Inv(cfg, Run(cfg, Init(cfg), t))
  {
    InitInv(cfg);
    RunInv(cfg, Init(cfg), t);
  }

  /** Along a run nothing is unpublished, no reader disappears, and a reader's
      results are only ever appended to. */
  lemma {:induction false} RunGrows(cfg: Config, s: State, t: seq<Act>)
    requires Inv(cfg, s)
    ensures var s' := Run(cfg, s, t);
            && s.ring.hist <= s'.ring.hist
            && s.ring.cursor <= s'.ring.cursor
            && SealedCount(s.ring) <= SealedCount(s'.ring)
            && |s.readers| <= |s'.readers|
            && (forall i :: 0 <= i < |s.readers| ==>
                && s.readers[i].base == s'.readers[i].base
                && s.readers[i].log <= s'.readers[i].log
                && s.readers[i].r <= s'.readers[i].r)
    decreases |t|
  {
    if t != [] {
      var u := t[..|t| - 1];
      RunGrows(cfg, s, u);
      RunInv(cfg, s, u);
      NextGrows(cfg, Run(cfg, s, u), t[|t| - 1]);
    }
  }

  lemma {:induction false} NextGrows(cfg: Config, s: State, a: Act)
    requires Inv(cfg, s)
    ensures var s' := Next(cfg, s, a);
            && s.ring.hist <= s'.ring.hist
            && s.ring.cursor <= s'.ring.cursor
            && SealedCount(s.ring) <= SealedCount(s'.ring)
            && |s.readers| <= |s'.readers|
            && (forall i :: 0 <= i < |s.readers| ==>
                && s.readers[i].base == s'.readers[i].base
                && s.readers[i].log <= s'.readers[i].log
                && s.readers[i].r <= s'.readers[i].r)
  {
    hide Ix;
    match a
    case W(wa) => WriterGrows(cfg, s.ring, wa);
    case R(i, j) =>
    case Clone(i) =>
  }
}
