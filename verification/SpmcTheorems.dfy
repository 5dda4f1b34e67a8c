/** The promises of the SPMC broadcast queue, for every interleaving. */
module SpmcTheorems {
  import opened Words
  import opened Payloads
  import opened Threads
  import opened Spmc
  import opened SpmcInvariant

  // ------------------------------------------------ integrity and accounting

  function Values(log: seq<Outcome>): seq<Payload> {
    if log == [] then []
    else
      var o := log[|log| - 1];
      Values(log[..|log| - 1]) + (if o.Value? then [o.v] else [])
  }

  /** The read cursor at each value of the log. */
  function Positions(log: seq<Outcome>, base: int): seq<int> {
    if log == [] then []
    else
      var init := log[..|log| - 1];
      Positions(init, base) + (if log[|log| - 1].Value? then [base + Advance(init)] else [])
  }

  function TotalSkipped(log: seq<Outcome>): int {
    if log == [] then 0
    else
      var o := log[|log| - 1];
      TotalSkipped(log[..|log| - 1]) + (if o.Lapped? then o.skipped else 0)
  }

  predicate NoLap(log: seq<Outcome>) {
    forall k :: 0 <= k < |log| ==> !log[k].Lapped?
  }

  /** The values of a stream are the published values at increasing positions. */
  ghost predicate IsStream(vs: seq<Payload>, ps: seq<int>, lo: int, hi: int, hist: seq<Payload>) {
    && |vs| == |ps|
    && (forall k :: 0 <= k < |ps| ==> lo <= ps[k] < hi && 0 <= ps[k] < |hist| && vs[k] == hist[ps[k]])
    && (forall k, l :: 0 <= k < l < |ps| ==> ps[k] < ps[l])
  }

  /** A stream may be given the value at its end, or a later end. */
  lemma {:induction false} StreamGrows(vs: seq<Payload>, ps: seq<int>, lo: int, hi: int, hi': int, hist: seq<Payload>)
    requires IsStream(vs, ps, lo, hi, hist) && lo <= hi <= hi'
    ensures IsStream(vs, ps, lo, hi', hist)
    ensures 0 <= hi < |hist| && hi < hi' ==> IsStream(vs + [hist[hi]], ps + [hi], lo, hi', hist)
  {
  }

  lemma {:induction false} LogParts(log: seq<Outcome>, o: Outcome, base: int)
    ensures Values(log + [o]) == Values(log) + (if o.Value? then [o.v] else [])
    ensures Positions(log + [o], base) == Positions(log, base) + (if o.Value? then [base + Advance(log)] else [])
    ensures TotalSkipped(log + [o]) == TotalSkipped(log) + (if o.Lapped? then o.skipped else 0)
    ensures Advance(log + [o]) == Advance(log) + Span(o)
  {
    assert (log + [o])[..|log + [o]| - 1] == log;
  }

  lemma {:induction false} StreamSnoc(log: seq<Outcome>, o: Outcome, base: int, hist: seq<Payload>)
    requires Advance(log) == |Values(log)| + TotalSkipped(log) >= 0 && Span(o) >= 0
    requires IsStream(Values(log), Positions(log, base), base, base + Advance(log), hist)
    requires o.Value? ==> 0 <= base + Advance(log) < |hist| && o.v == hist[base + Advance(log)]
    ensures Advance(log + [o]) == |Values(log + [o])| + TotalSkipped(log + [o]) >= 0
    ensures IsStream(Values(log + [o]), Positions(log + [o], base), base, base + Advance(log + [o]), hist)
  {
    hide IsStream, Values, Positions, TotalSkipped, Advance;
    LogParts(log, o, base);
    StreamGrows(Values(log), Positions(log, base), base, base + Advance(log), base + Advance(log) + Span(o), hist);
    if !o.Value? {
      assert Values(log) + [] == Values(log) && Positions(log, base) + [] == Positions(log, base);
    }
  }

  lemma {:induction false} LogIsStream(cap: nat, log: seq<Outcome>, base: int, hist: seq<Payload>)
    requires LogOk(cap, log, base, hist) && cap > 0
    ensures Advance(log) >= 0
    ensures IsStream(Values(log), Positions(log, base), base, base + Advance(log), hist)
    ensures |Values(log)| + TotalSkipped(log) == Advance(log)
    decreases |log|
  {
    if log != [] {
      hide IsStream, Values, Positions, TotalSkipped, Advance;
      var init, o := log[..|log| - 1], log[|log| - 1];
      LogIsStream(cap, init, base, hist);
      assert log == init + [o];
      hide LogOk;
      StreamSnoc(init, o, base, hist);
    }
  }

  /** Integrity and accounting.  After any run, the values a consumer has received are
      whole published values, each from the position of its read cursor, in publication
      order; and values plus skipped values are all it has moved past. */
  lemma {:induction false} ReaderStream(cfg: Config, t: seq<Act>, i: nat)
    requires cfg.cap > 0 && cfg.wd == Unbounded
    requires i < |Run(cfg, Init(cfg), t).readers|
    ensures var s := Run(cfg, Init(cfg), t);
            var c := s.readers[i];
            && IsStream(Values(c.log), Positions(c.log, c.base), c.base, c.r, s.ring.hist)
            && |Values(c.log)| + TotalSkipped(c.log) == c.r - c.base
            && c.r <= s.ring.cursor <= |s.ring.hist|
  {
    Reachable(cfg, t);
    var s := Run(cfg, Init(cfg), t);
    LogIsStream(cfg.cap, s.readers[i].log, s.readers[i].base, s.ring.hist);
  }

  /** Two consumers, or one consumer at two moments of a run, never disagree on the
      value at a position. */
  lemma {:induction false} ReadersAgree(cfg: Config, t: seq<Act>, u: seq<Act>, i: nat, j: nat, k: nat, l: nat)
    requires cfg.cap > 0 && cfg.wd == Unbounded
    requires i < |Run(cfg, Init(cfg), t).readers| && j < |Run(cfg, Init(cfg), t + u).readers|
    requires var c := Run(cfg, Init(cfg), t).readers[i];
             var d := Run(cfg, Init(cfg), t + u).readers[j];
             && k < |Values(c.log)| == |Positions(c.log, c.base)|
             && l < |Values(d.log)| == |Positions(d.log, d.base)|
             && Positions(c.log, c.base)[k] == Positions(d.log, d.base)[l]
    ensures Values(Run(cfg, Init(cfg), t).readers[i].log)[k] == Values(Run(cfg, Init(cfg), t + u).readers[j].log)[l]
  {
    ReaderStream(cfg, t, i);
    ReaderStream(cfg, t + u, j);
    Reachable(cfg, t);
    RunAppend(cfg, Init(cfg), t, u);
    RunGrows(cfg, Run(cfg, Init(cfg), t), u);
  }

  lemma {:induction false} NoLapIsSegment(cap: nat, log: seq<Outcome>, base: int, hist: seq<Payload>)
    requires LogOk(cap, log, base, hist) && cap > 0 && NoLap(log) && 0 <= base
    ensures 0 <= Advance(log) && (base + Advance(log) <= |hist| || Advance(log) == 0)
    ensures base <= |hist| ==> Values(log) == hist[base..base + Advance(log)]
    decreases |log|
  {
    if log != [] {
      hide Values, Advance;
      var init, o := log[..|log| - 1], log[|log| - 1];
      NoLapIsSegment(cap, init, base, hist);
      assert log == init + [o];
      LogParts(init, o, base);
      hide LogOk;
      if base <= |hist| && o.Value? {
        var at := base + Advance(init);
        assert hist[base..at] + [hist[at]] == hist[base..at + 1];
      }
    }
  }

  /** At every moment of the run, the publication that reuses the consumer's next slot
      has not begun. */
  ghost predicate NeverOverrun(cfg: Config, s: State, t: seq<Act>, i: nat)
    requires Shaped(cfg, s) && i < |s.readers|
    decreases |t|
  {
    && (t == [] || NeverOverrun(cfg, s, t[..|t| - 1], i))
    && i < |Run(cfg, s, t).readers|
    && |Run(cfg, s, t).ring.hist| <= Run(cfg, s, t).readers[i].r + cfg.cap
  }

  lemma {:induction false} NeverOverrunNoLap(cfg: Config, s: State, t: seq<Act>, i: nat)
    requires Inv(cfg, s) && i < |s.readers| && NoLap(s.readers[i].log) && NeverOverrun(cfg, s, t, i)
    ensures NoLap(Run(cfg, s, t).readers[i].log)
    decreases |t|
  {
    hide Ix, LogOk;
    if t != [] {
      var s1 := Run(cfg, s, t[..|t| - 1]);
      NeverOverrunNoLap(cfg, s, t[..|t| - 1], i);
      RunInv(cfg, s, t[..|t| - 1]);
      assert ReaderInv(cfg, s1.ring, s1.readers[i]);
      assert !s1.readers[i].pc.RReload?;
    }
  }

  /** A consumer that is never overrun misses nothing.  From any reachable state in which it
      has returned nothing yet, the first consumer or a fresh clone, it receives exactly the
      published values from the position it began at. */
  lemma {:induction false} NeverOverrunSeesAll(cfg: Config, s: State, t: seq<Act>, i: nat)
    requires Inv(cfg, s) && i < |s.readers| && s.readers[i].log == [] && NeverOverrun(cfg, s, t, i)
    ensures var s' := Run(cfg, s, t);
            var c := s'.readers[i];
            && c.base == s.readers[i].r && 0 <= c.base <= c.r <= |s'.ring.hist|
            && NoLap(c.log)
            && Values(c.log) == s'.ring.hist[c.base..c.r]
  {
    NeverOverrunNoLap(cfg, s, t, i);
    RunInv(cfg, s, t);
    RunGrows(cfg, s, t);
    var s' := Run(cfg, s, t);
    var c := s'.readers[i];
    assert ReaderInv(cfg, s'.ring, c) && ReaderInv(cfg, s.ring, s.readers[i]);
    NoLapIsSegment(cfg.cap, c.log, c.base, s'.ring.hist);
  }

  /** A clone goes on from the parent's position: it is never given a value the parent had
      passed, and accounts for every position from there. */
  lemma {:induction false} CloneContinues(cfg: Config, t: seq<Act>, i: nat, u: seq<Act>)
    requires cfg.cap > 0 && cfg.wd == Unbounded
    requires i < |Run(cfg, Init(cfg), t).readers| && Run(cfg, Init(cfg), t).readers[i].pc.RIdle?
    ensures var s := Run(cfg, Init(cfg), t);
            var s' := Run(cfg, Init(cfg), t + [Clone(i)] + u);
            && |s.readers| < |s'.readers|
            && var c := s'.readers[|s.readers|];
               && IsStream(Values(c.log), Positions(c.log, c.base), s.readers[i].r, c.r, s'.ring.hist)
               && |Values(c.log)| + TotalSkipped(c.log) == c.r - s.readers[i].r
  {
    var s := Run(cfg, Init(cfg), t);
    Reachable(cfg, t);
    RunSnoc(cfg, Init(cfg), t, Clone(i));
    NextInv(cfg, s, Clone(i));
    RunAppend(cfg, Init(cfg), t + [Clone(i)], u);
    RunGrows(cfg, Next(cfg, s, Clone(i)), u);
    ReaderStream(cfg, t + [Clone(i)] + u, |s.readers|);
  }

  /** A clone joins with both of its parent's cursors, and changes nothing else. */
  lemma {:induction false} CloneJoins(cfg: Config, s: State, i: nat)
    requires Shaped(cfg, s) && i < |s.readers| && s.readers[i].pc.RIdle?
    ensures var s' := Next(cfg, s, Clone(i));
            && s'.ring == s.ring && |s'.readers| == |s.readers| + 1 && s'.readers[..|s.readers|] == s.readers
            && Alike(s.readers[i], s'.readers[|s.readers|])
            && s'.readers[|s.readers|].log == [] && s'.readers[|s.readers|].base == s.readers[i].r
  {
  }

  /** Two readers at the same point with the same cursors. */
  predicate Alike(c: Reader, d: Reader) {
    && d.r == c.r && d.cached == c.cached && d.pc == c.pc
    && (!c.pc.RIdle? ==> d.copies == c.copies)
  }

  /** A clone does what its parent would: from the same ring their next steps, and so their
      next calls, go the same way and give the same results. */
  lemma {:induction false} CloneActsAlike(cfg: Config, m: Ring, c: Reader, d: Reader, j: nat)
    requires ShapedRing(cfg, m) && Alike(c, d)
    ensures var c', d' := ReaderNext(cfg, m, c, j), ReaderNext(cfg, m, d, j);
            && Alike(c', d')
            && ((c'.log == c.log && d'.log == d.log) ||
                exists o :: c'.log == c.log + [o] && d'.log == d.log + [o])
  {
    hide Ix;
    var c', d' := ReaderNext(cfg, m, c, j), ReaderNext(cfg, m, d, j);
    if c'.pc.RIdle? {
      var o := c'.log[|c.log|];
      assert c'.log == c.log + [o] && d'.log == d.log + [o];
    }
  }

  lemma {:induction false} CloneCallsAlike(cfg: Config, m: Ring, c: Reader, d: Reader, js: seq<nat>)
    requires ShapedRing(cfg, m) && Alike(c, d)
    ensures var c', d' := Solo(cfg, m, c, js), Solo(cfg, m, d, js);
            && Alike(c', d') && c.log <= c'.log && d.log <= d'.log
            && c'.log[|c.log|..] == d'.log[|d.log|..]
    decreases |js|
  {
    if js != [] && !c.pc.RIdle? {
      CloneActsAlike(cfg, m, c, d, js[0]);
      hide ReaderNext, Alike;
      CloneCallsAlike(cfg, m, ReaderNext(cfg, m, c, js[0]), ReaderNext(cfg, m, d, js[0]), js[1..]);
    }
  }

  // ------------------------------------------------------- the cached write cursor

  /** The results from number `n` on are no laps. */
  predicate NoLapFrom(log: seq<Outcome>, n: nat) {
    forall k :: n <= k < |log| ==> !log[k].Lapped?
  }

  /** The cache spares the shared cursor: in every interleaving, a consumer that is not lapped
      loads the write cursor no more until it has read up to the one it last loaded. */
  lemma {:induction false} CursorCached(cfg: Config, s: State, t: seq<Act>, i: nat)
    requires Inv(cfg, s) && i < |s.readers| && !s.readers[i].pc.RCheck?
    requires i < |Run(cfg, s, t).readers| && Run(cfg, s, t).readers[i].r < s.readers[i].cached
    requires NoLapFrom(Run(cfg, s, t).readers[i].log, |s.readers[i].log|)
    ensures var c, c' := s.readers[i], Run(cfg, s, t).readers[i];
            c'.cached == c.cached && !c'.pc.RCheck?
    decreases |t|
  {
    if t != [] {
      var u, a := t[..|t| - 1], t[|t| - 1];
      var s1 := Run(cfg, s, u);
      RunInv(cfg, s, u);
      RunGrows(cfg, s, u);
      NextGrows(cfg, s1, a);
      var c1, c' := s1.readers[i], Run(cfg, s, t).readers[i];
      assert forall k :: 0 <= k < |c1.log| ==> c1.log[k] == c'.log[k];
      CursorCached(cfg, s, u, i);
      hide Ix, Inv, Run, ReaderNext, WriterNext;
      if a.R? && a.i == i {
        CursorStep(cfg, s1.ring, c1, a.j);
      }
    }
  }

  lemma {:induction false} CursorStep(cfg: Config, m: Ring, c: Reader, j: nat)
    requires ShapedRing(cfg, m) && !c.pc.RCheck? && c.r < c.cached
    ensures var c' := ReaderNext(cfg, m, c, j);
            || (c'.cached == c.cached && !c'.pc.RCheck?)
            || (|c'.log| == |c.log| + 1 && c'.log[|c.log|].Lapped?)
  {
    hide Ix;
  }

  /** And the load is kept: after one that found values, the next is due only when all of
      those have been read. */
  lemma {:induction false} CursorKept(cfg: Config, s: State, i: nat, j: nat, t: seq<Act>)
    requires Inv(cfg, s) && i < |s.readers| && s.readers[i].pc.RCheck?
    requires var s' := Run(cfg, Next(cfg, s, R(i, j)), t);
             && i < |s'.readers| && s'.readers[i].r < s.ring.cursor
             && NoLapFrom(s'.readers[i].log, |s.readers[i].log|)
    ensures var c' := Run(cfg, Next(cfg, s, R(i, j)), t).readers[i];
            c'.cached == s.ring.cursor && !c'.pc.RCheck?
  {
    var s1 := Next(cfg, s, R(i, j));
    NextInv(cfg, s, R(i, j));
    assert s1.readers[i].cached == s.ring.cursor && |s1.readers[i].log| >= |s.readers[i].log|;
    assert !s1.readers[i].pc.RCheck?;
    hide Inv, Run, Next;
    CursorCached(cfg, s1, t, i);
  }

  // --------------------------------------------------------------------- laps

  /** The result of a consumer at position `r`, decided by the ring at the step that returns
      it: `Value` while the publication that reuses the slot has not begun, `Lapped` from
      then on, and `Empty` exactly at the write cursor. */
  ghost predicate ResultAt(cfg: Config, m: Ring, r: int, o: Outcome) {
    && (o.Value? <==> r < m.cursor && |m.hist| <= r + cfg.cap)
    && (o.Value? ==> 0 <= r < |m.hist| && o.v == m.hist[r])
    && (o.Empty? <==> r == m.cursor)
    && (o.Lapped? <==> r + cfg.cap < |m.hist|)
  }

  /** A slot whose value has been overwritten does not carry the expected stamp. */
  lemma {:induction false} OverrunStamp(cfg: Config, m: Ring, r: int)
    requires RingInv(cfg, m) && 0 <= r && r + cfg.cap < |m.hist|
    ensures StampAt(cfg, m, r) >= 2 * (r + cfg.cap) + 1
  {
    ModShift(r, 1, cfg.cap);
    assert Ix(cfg.cap, r + cfg.cap) == Ix(cfg.cap, r);
  }

  /** The second stamp load. */
  lemma {:induction false} ConfirmResult(cfg: Config, m: Ring, c: Reader, j: nat)
    requires RingInv(cfg, m) && cfg.wd == Unbounded && ReaderInv(cfg, m, c) && c.pc.RCopy?
    ensures var c' := ReaderNext(cfg, m, c, j);
            || (c'.log == c.log && c'.r == c.r)
            || (c.r < |m.hist| <= c.r + cfg.cap && c'.log == c.log + [Value(m.hist[c.r])])
  {
    hide Ix, LogOk, Advance;
    SealedStamp(cfg, m, c.r);
    if c.r + cfg.cap < |m.hist| {
      OverrunStamp(cfg, m, c.r);
    }
    hide RingInv;
    if Full(cfg.nw, c.pc.buf) && StampAt(cfg, m, c.r) == c.pc.seq1 {
      assert Assemble(cfg.nw, c.pc.buf) == m.hist[c.r];
    }
  }

  lemma {:induction false} StepResult(cfg: Config, m: Ring, c: Reader, j: nat)
    requires RingInv(cfg, m) && cfg.wd == Unbounded && ReaderInv(cfg, m, c)
    ensures var c' := ReaderNext(cfg, m, c, j);
            || (c'.log == c.log && c'.r == c.r)
            || (|c'.log| == |c.log| + 1 && c'.log == c.log + [c'.log[|c.log|]]
                && ResultAt(cfg, m, c.r, c'.log[|c.log|]))
  {
    hide Ix, LogOk, Advance;
    CursorNearEnd(cfg, m);
    if c.pc.RCopy? {
      ConfirmResult(cfg, m, c, j);
      hide ReaderNext;
    }
    hide RingInv;
  }

  /** The write cursor is at the last publication begun or one behind it. */
  lemma {:induction false} CursorNearEnd(cfg: Config, m: Ring)
    requires RingInv(cfg, m)
    ensures m.cursor <= SealedCount(m) <= |m.hist| <= m.cursor + 1
    ensures m.writer.WIdle? ==> m.cursor == |m.hist|
  {
    hide Ix, SlotInv;
  }

  /** What each result means at the step that returns it.  `Value` is the whole value of
      publication `r`, which the slot still holds.  `Empty` finds the write cursor at `r`.
      `Lapped` comes only after value `r + cap` is whole in its slot, jumps to the newest
      value of the write cursor just loaded, and skips nothing exactly when the capacity is 1
      and the writer stands between its even stamp and its cursor store. */
  lemma {:induction false} ResultSound(cfg: Config, t: seq<Act>, i: nat, j: nat)
    requires cfg.cap > 0 && cfg.wd == Unbounded
    requires i < |Run(cfg, Init(cfg), t).readers|
    requires var s := Run(cfg, Init(cfg), t);
             |Next(cfg, s, R(i, j)).readers[i].log| > |s.readers[i].log|
    ensures var s := Run(cfg, Init(cfg), t);
            var m, c, c' := s.ring, s.readers[i], Next(cfg, s, R(i, j)).readers[i];
            match c'.log[|c.log|]
            case Value(v) =>
              && 0 <= c.r < m.cursor <= |m.hist| && c'.r == c.r + 1
              && v == m.hist[c.r] && m.slots[Ix(cfg.cap, c.r)] == Slot(2 * c.r + 2, v)
            case Empty => c'.r == c.r == m.cursor
            case Lapped(skipped) =>
              && c.r + cfg.cap < SealedCount(m)
              && c'.cached == m.cursor && c'.r == m.cursor - 1
              && skipped == c'.r - c.r >= cfg.cap - 1
              && (skipped == 0 <==> cfg.cap == 1 && m.writer == WSealed(c.r + 1))
  {
    Reachable(cfg, t);
    hide Ix;
    var s := Run(cfg, Init(cfg), t);
    var c := s.readers[i];
    assert ReaderInv(cfg, s.ring, c);
    if c.pc.RCopy? {
      SealedStamp(cfg, s.ring, c.r);
      assert Full(cfg.nw, c.pc.buf);
      assert Assemble(cfg.nw, c.pc.buf) == s.ring.hist[c.r];
    }
  }

  // --------------------------------------------- when a value is missed, exactly

  /** The next result of a consumer, exactly, from any reachable state, in every interleaving
      and whatever it was doing.  It is decided by the position the consumer was at and the
      publications begun when it returns: value `r` if and only if publication `r + cap` has
      not begun, and a lap if and only if it has. */
  lemma {:induction false} NextResultExact(cfg: Config, s: State, t: seq<Act>, i: nat, j: nat)
    requires Inv(cfg, s) && i < |s.readers|
    requires i < |Run(cfg, s, t).readers| && Run(cfg, s, t).readers[i].log == s.readers[i].log
    requires Next(cfg, Run(cfg, s, t), R(i, j)).readers[i].log != s.readers[i].log
    ensures var c, s' := s.readers[i], Run(cfg, s, t);
            var log := Next(cfg, s', R(i, j)).readers[i].log;
            && |log| == |c.log| + 1 && log == c.log + [log[|c.log|]]
            && ResultAt(cfg, s'.ring, c.r, log[|c.log|])
  {
    hide Ix;
    var s' := Run(cfg, s, t);
    RunInv(cfg, s, t);
    RunGrows(cfg, s, t);
    assert ReaderInv(cfg, s.ring, s.readers[i]) && ReaderInv(cfg, s'.ring, s'.readers[i]);
    hide Run, Inv, RingInv, ReaderNext;
    StepResult(cfg, s'.ring, s'.readers[i], j);
  }

  /** From any reachable state in which value `r` is published: the first result a
      consumer at `r` returns while the publication that reuses its slot has not begun
      is value `r`, in every interleaving and whatever it was doing. */
  lemma {:induction false} NextResult(cfg: Config, s: State, t: seq<Act>, i: nat)
    requires Inv(cfg, s) && i < |s.readers| && s.readers[i].r < s.ring.cursor
    requires |Run(cfg, s, t).ring.hist| <= s.readers[i].r + cfg.cap
    ensures i < |Run(cfg, s, t).readers|
    ensures var c, s' := s.readers[i], Run(cfg, s, t);
            var c' := s'.readers[i];
            && c.log <= c'.log
            && 0 <= c.r < |s'.ring.hist|
            && (c'.log == c.log ==> c'.r == c.r)
            && (c'.log != c.log ==> c'.log[|c.log|] == Value(s'.ring.hist[c.r]))
    decreases |t|
  {
    hide Ix, LogOk, Advance;
    var c := s.readers[i];
    if t != [] {
      var u, a := t[..|t| - 1], t[|t| - 1];
      var s1 := Run(cfg, s, u);
      RunInv(cfg, s, u);
      NextGrows(cfg, s1, a);
      NextResult(cfg, s, u, i);
      RunGrows(cfg, s, u);
      if s1.readers[i].log == c.log && a.R? && a.i == i {
        StepResult(cfg, s1.ring, s1.readers[i], a.j);
      }
      hide Ix, RingInv, ReaderNext, PcInv;
    }
  }

  /** The other half: once publication `r + cap` has begun with the consumer still at `r`,
      from whatever program point, its next result is `Lapped`. */
  lemma {:induction false} OverrunLoses(cfg: Config, s: State, t: seq<Act>, i: nat)
    requires Inv(cfg, s) && i < |s.readers| && s.readers[i].r + cfg.cap < |s.ring.hist|
    ensures i < |Run(cfg, s, t).readers|
    ensures var c, c' := s.readers[i], Run(cfg, s, t).readers[i];
            && c.log <= c'.log
            && (c'.log == c.log ==> c'.r == c.r)
            && (c'.log != c.log ==> c'.log[|c.log|].Lapped?)
    decreases |t|
  {
    hide Ix, LogOk, Advance;
    var c := s.readers[i];
    if t != [] {
      var u, a := t[..|t| - 1], t[|t| - 1];
      var s1 := Run(cfg, s, u);
      RunInv(cfg, s, u);
      NextGrows(cfg, s1, a);
      OverrunLoses(cfg, s, u, i);
      RunGrows(cfg, s, u);
      if s1.readers[i].log == c.log && a.R? && a.i == i {
        StepResult(cfg, s1.ring, s1.readers[i], a.j);
      }
      hide Ix, RingInv, ReaderNext, PcInv;
    }
  }

  /** What the one result of a consumer during a run says of the states at its two ends.
      `Empty`: nothing published was unread at the start.  `Value`: the value at the cursor,
      whose slot was not reused at the start.  `Lapped`: the slot was reused by the end, and
      the consumer stands at the newest value of a write cursor loaded in between. */
  ghost predicate CallOk(cfg: Config, u: State, u': State, i: nat)
    requires i < |u.readers| <= |u'.readers| && |u'.readers[i].log| == |u.readers[i].log| + 1
  {
    var c, c' := u.readers[i], u'.readers[i];
    var o := c'.log[|c.log|];
    && c'.log == c.log + [o] && c'.r == c.r + Span(o)
    && match o
       case Value(v) =>
         && 0 <= c.r < u'.ring.cursor <= |u'.ring.hist| && v == u'.ring.hist[c.r]
         && |u.ring.hist| <= c.r + cfg.cap
       case Empty => c.r == u.ring.cursor
       case Lapped(skipped) =>
         && c.r + cfg.cap < |u'.ring.hist| && skipped >= cfg.cap - 1
         && u.ring.cursor <= c'.cached <= u'.ring.cursor && c'.r + 1 == c'.cached
  }

  lemma {:induction false} OneResult(cfg: Config, u: State, t: seq<Act>, i: nat)
    requires Inv(cfg, u) && i < |u.readers| <= |Run(cfg, u, t).readers|
    requires |Run(cfg, u, t).readers[i].log| == |u.readers[i].log| + 1
    ensures CallOk(cfg, u, Run(cfg, u, t), i)
    decreases |t|
  {
    assert t != [];
    var v, a := t[..|t| - 1], t[|t| - 1];
    var s := Run(cfg, u, v);
    RunInv(cfg, u, v);
    RunGrows(cfg, u, v);
    NextInv(cfg, s, a);
    NextGrows(cfg, s, a);
    if s.readers[i].log == u.readers[i].log {
      ResultStep(cfg, u, s, a, i);
    } else {
      OneResult(cfg, u, v, i);
      OthersKeepResult(cfg, u, s, a, i);
    }
  }

  /** The step that returns the result. */
  lemma {:induction false} ResultStep(cfg: Config, u: State, s: State, a: Act, i: nat)
    requires Inv(cfg, u) && Inv(cfg, s) && i < |u.readers| <= |s.readers|
    requires u.ring.hist <= s.ring.hist && u.ring.cursor <= s.ring.cursor
    requires s.readers[i].log == u.readers[i].log && s.readers[i].base == u.readers[i].base
    requires |Next(cfg, s, a).readers| >= |s.readers|
    requires |Next(cfg, s, a).readers[i].log| == |u.readers[i].log| + 1
    ensures CallOk(cfg, u, Next(cfg, s, a), i)
  {
    hide Ix;
    assert a.R? && a.i == i;
    var c := s.readers[i];
    assert ReaderInv(cfg, u.ring, u.readers[i]) && ReaderInv(cfg, s.ring, c);
    StepResult(cfg, s.ring, c, a.j);
    hide RingInv;
  }

  /** Steps after the result change nothing it says. */
  lemma {:induction false} OthersKeepResult(cfg: Config, u: State, s: State, a: Act, i: nat)
    requires Inv(cfg, s) && i < |u.readers| <= |s.readers|
    requires |s.readers[i].log| == |u.readers[i].log| + 1 && CallOk(cfg, u, s, i)
    requires |Next(cfg, s, a).readers| >= |s.readers|
    requires |Next(cfg, s, a).readers[i].log| == |u.readers[i].log| + 1
    ensures CallOk(cfg, u, Next(cfg, s, a), i)
  {
    hide Ix, LogOk;
    NextGrows(cfg, s, a);
    assert ReaderInv(cfg, s.ring, s.readers[i]);
    hide RingInv;
  }

  /** A value that the consumer has not passed, or has not received, when its slot is reused is
      delivered to it in no continuation. */
  lemma {:induction false} ValueLost(cfg: Config, s: State, t: seq<Act>, i: nat, p: int)
    requires Inv(cfg, s) && i < |s.readers| && p + cfg.cap < |s.ring.hist|
    requires s.readers[i].r <= p || p !in Positions(s.readers[i].log, s.readers[i].base)
    ensures i < |Run(cfg, s, t).readers|
    ensures var c := Run(cfg, s, t).readers[i];
            p !in Positions(c.log, c.base)
    decreases |t|
  {
    RunGrows(cfg, s, t);
    if t == [] {
      LogIsStream(cfg.cap, s.readers[i].log, s.readers[i].base, s.ring.hist);
    } else {
      var u, a := t[..|t| - 1], t[|t| - 1];
      ValueLost(cfg, s, u, i, p);
      RunInv(cfg, s, u);
      RunGrows(cfg, s, u);
      hide RingInv, Positions;
      if a.R? && a.i == i {
        LostStep(cfg, Run(cfg, s, u).ring, Run(cfg, s, u).readers[i], a.j, p);
      }
    }
  }

  lemma {:induction false} LostStep(cfg: Config, m: Ring, c: Reader, j: nat, p: int)
    requires RingInv(cfg, m) && cfg.wd == Unbounded && ReaderInv(cfg, m, c)
    requires p + cfg.cap < |m.hist| && p !in Positions(c.log, c.base)
    ensures var c' := ReaderNext(cfg, m, c, j);
            p !in Positions(c'.log, c'.base)
  {
    hide Ix;
    var c' := ReaderNext(cfg, m, c, j);
    StepResult(cfg, m, c, j);
    assert c'.base == c.base && c.base + Advance(c.log) == c.r;
    hide ReaderNext, RingInv, ReaderInv, Positions, Advance;
    if c'.log != c.log {
      LogParts(c.log, c'.log[|c.log|], c.base);
    }
  }

  /** A run that misses a value without falling behind by more than the capacity, for every
      capacity and all payloads: the ring is full, one more value is sealed and its cursor
      store still to come, and a consumer at position 0 finds its slot reused.  By the write
      cursor it is never more than `cap` behind, and no continuation gives it value 0. */
  lemma {:induction false} LostWithinCapacity(cfg: Config, vs: seq<Payload>) returns (t: seq<Act>)
    requires cfg.cap > 0 && cfg.wd == Unbounded && |vs| == cfg.cap + 1
    requires forall p :: 0 <= p < |vs| ==> |vs[p]| == cfg.nw
    ensures var s := Run(cfg, Init(cfg), t);
            && s.ring.cursor == cfg.cap && s.ring.hist == vs
            && s.readers == [Reader(cfg.cap - 1, cfg.cap, RIdle, 0, 0, [Lapped(cfg.cap - 1)])]
    ensures forall n :: 0 <= n <= |t| ==>
              var s := Run(cfg, Init(cfg), t[..n]);
              |s.readers| > 0 && s.ring.cursor - s.readers[0].r <= cfg.cap
    ensures forall u :: var s := Run(cfg, Init(cfg), t + u);
              |s.readers| > 0 && 0 !in Positions(s.readers[0].log, s.readers[0].base)
  {
    t := SealOverFull(cfg, vs);
    var s := Run(cfg, Init(cfg), t);
    Reachable(cfg, t);
    hide Run, Inv, Next;
    LapsOverSealed(cfg, s);
    var a := R(0, 0);
    RunAppend(cfg, Init(cfg), t, [a, a, a, a]);
    t := t + [a, a, a, a];
    LagOfRun(cfg, t);
    Reachable(cfg, t);
    forall u
      ensures var s := Run(cfg, Init(cfg), t + u);
              |s.readers| > 0 && 0 !in Positions(s.readers[0].log, s.readers[0].base)
    {
      RunAppend(cfg, Init(cfg), t, u);
      ValueLost(cfg, Run(cfg, Init(cfg), t), u, 0, 0);
    }
  }

  /** The first `cap` values published, and one more sealed. */
  lemma {:induction false} SealOverFull(cfg: Config, vs: seq<Payload>) returns (t: seq<Act>)
    requires cfg.cap > 0 && cfg.wd == Unbounded && |vs| == cfg.cap + 1
    requires forall p :: 0 <= p < |vs| ==> |vs[p]| == cfg.nw
    ensures var s := Run(cfg, Init(cfg), t);
            && s.ring.writer == WSealed(cfg.cap) && s.ring.cursor == cfg.cap && s.ring.hist == vs
            && s.readers == [NewReader(0, 0)]
  {
    hide Run, RingInv, ReaderInv;
    var v := vs[cfg.cap];
    t := PublishAll(cfg, vs[..cfg.cap]);
    var s := Run(cfg, Init(cfg), t);
    Reachable(cfg, t);
    CursorNearEnd(cfg, s.ring);
    var acts := SealStores(cfg.nw, v);
    Publishes(cfg, s.ring, v);
    RunWrites(cfg, s, acts);
    RunAppend(cfg, Init(cfg), t, Writes(acts));
    hide WriterRun, SealStores;
    t := t + Writes(acts);
  }

  lemma {:induction false} LapsOverSealed(cfg: Config, s: State)
    requires Inv(cfg, s) && s.ring.writer == WSealed(cfg.cap) && s.readers == [NewReader(0, 0)]
    ensures Run(cfg, s, [R(0, 0), R(0, 0), R(0, 0), R(0, 0)]) ==
            s.(readers := [Reader(cfg.cap - 1, cfg.cap, RIdle, 0, 0, [Lapped(cfg.cap - 1)])])
  {
    var a, m := R(0, 0), s.ring;
    OverrunStamp(cfg, m, 0);
    assert SlotInv(cfg, m, Ix(cfg.cap, 0));
    hide Ix, RingInv, Run;
    var s1 := s.(readers := [Reader(0, 0, RCheck, 0, 0, [])]);
    assert Next(cfg, s, a) == s1;
    var s2 := s.(readers := [Reader(0, cfg.cap, RSeq1, 0, 0, [])]);
    assert Next(cfg, s1, a) == s2;
    var s3 := s.(readers := [Reader(0, cfg.cap, RReload, 0, 0, [])]);
    assert Next(cfg, s2, a) == s3;
    var s4 := s.(readers := [Reader(cfg.cap - 1, cfg.cap, RIdle, 0, 0, [Lapped(cfg.cap - 1)])]);
    assert ReaderNext(cfg, m, s3.readers[0], 0) == s4.readers[0];
    assert Next(cfg, s3, a) == s4;
    hide Next;
    FourSteps(cfg, s, a);
  }

  lemma {:induction false} TwoSteps(cfg: Config, s: State, a: Act)
    requires Shaped(cfg, s)
    ensures Run(cfg, s, [a, a]) == Next(cfg, Next(cfg, s, a), a)
  {
    RunSnoc(cfg, s, [], a);
    RunSnoc(cfg, s, [a], a);
    hide Next;
    assert [] + [a] == [a] && [a] + [a] == [a, a];
  }

  lemma {:induction false} FourSteps(cfg: Config, s: State, a: Act)
    requires Shaped(cfg, s)
    ensures Run(cfg, s, [a, a, a, a]) == Next(cfg, Next(cfg, Next(cfg, Next(cfg, s, a), a), a), a)
  {
    hide Next, Run;
    TwoSteps(cfg, s, a);
    TwoSteps(cfg, Next(cfg, Next(cfg, s, a), a), a);
    RunAppend(cfg, s, [a, a], [a, a]);
    assert [a, a] + [a, a] == [a, a, a, a];
  }

  /** At no moment of a run is a reader further behind the write cursor than the cursor's
      last value. */
  lemma {:induction false} LagOfRun(cfg: Config, t: seq<Act>)
    requires cfg.cap > 0 && cfg.wd == Unbounded
    ensures forall n :: 0 <= n <= |t| ==>
              var s := Run(cfg, Init(cfg), t[..n]);
              |s.readers| > 0 && s.ring.cursor - s.readers[0].r <= Run(cfg, Init(cfg), t).ring.cursor
  {
    forall n | 0 <= n <= |t|
      ensures var s := Run(cfg, Init(cfg), t[..n]);
              |s.readers| > 0 && s.ring.cursor - s.readers[0].r <= Run(cfg, Init(cfg), t).ring.cursor
    {
      Reachable(cfg, t[..n]);
      Reachable(cfg, []);
      RunGrows(cfg, Init(cfg), t[..n]);
      assert t == t[..n] + t[n..];
      RunAppend(cfg, Init(cfg), t[..n], t[n..]);
      RunGrows(cfg, Run(cfg, Init(cfg), t[..n]), t[n..]);
    }
  }

  /** Skipping nothing does happen, with one slot and a reader that runs while the writer
      has sealed its second value and not yet moved the cursor, whatever the two values. */
  lemma {:induction false} LapOfNothing(nw: nat, v: Payload, v': Payload) returns (t: seq<Act>)
    requires |v| == |v'| == nw
    ensures var cfg := Config(1, nw, Unbounded);
            Run(cfg, Init(cfg), t).readers == [Reader(0, 1, RIdle, 0, 0, [Lapped(0)])]
  {
    t := LostWithinCapacity(Config(1, nw, Unbounded), [v, v']);
  }

  /** The step that returns `Lapped`. */
  lemma {:induction false} ReloadStep(cfg: Config, s: State, i: nat, j: nat)
    requires Inv(cfg, s) && i < |s.readers| && s.readers[i].pc.RReload?
    ensures var s1 := Next(cfg, s, R(i, j));
            && Inv(cfg, s1) && s1.ring == s.ring && i < |s1.readers|
            && 0 <= s1.readers[i].r == s.ring.cursor - 1
            && s1.readers[i].log == s.readers[i].log + [Lapped(s.ring.cursor - 1 - s.readers[i].r)]
  {
    NextInv(cfg, s, R(i, j));
    assert ReaderInv(cfg, s.ring, s.readers[i]);
    hide Ix, RingInv;
  }

  /** Lap recovery, from any reachable state.  After a `Lapped` that loaded write cursor
      `w`, the next call returns the value of publication `w - 1` unless publication
      `w - 1 + cap` begins first. */
  lemma {:induction false} LapRecovery(cfg: Config, s: State, i: nat, j: nat, u: seq<Act>)
    requires Inv(cfg, s) && i < |s.readers| && s.readers[i].pc.RReload?
    requires |Run(cfg, Next(cfg, s, R(i, j)), u).ring.hist| <= s.ring.cursor - 1 + cfg.cap
    ensures var s1 := Next(cfg, s, R(i, j));
            var s' := Run(cfg, s1, u);
            var log := s1.readers[i].log;
            && log == s.readers[i].log + [Lapped(s.ring.cursor - 1 - s.readers[i].r)]
            && i < |s'.readers| && log <= s'.readers[i].log
            && 0 <= s.ring.cursor - 1 < |s'.ring.hist|
            && (s'.readers[i].log == log ||
                s'.readers[i].log[|log|] == Value(s'.ring.hist[s.ring.cursor - 1]))
  {
    ReloadStep(cfg, s, i, j);
    hide Inv, Next, ReaderNext, Ix, Run;
    NextResult(cfg, Next(cfg, s, R(i, j)), u, i);
  }

  // --------------------------------------------------------------- torn reads

  /** Once the slot has moved past the consumer's value, the call in progress cannot
      begin another copy and can only end in `Lapped`. */
  lemma {:induction false} TornEndsInLapped(cfg: Config, s: State, t: seq<Act>, i: nat)
    requires Inv(cfg, s) && i < |s.readers| && InCall(s.readers[i])
    requires StampAt(cfg, s.ring, s.readers[i].r) != 2 * s.readers[i].r + 2
    ensures i < |Run(cfg, s, t).readers|
    ensures var c, c' := s.readers[i], Run(cfg, s, t).readers[i];
            && c.log <= c'.log
            && (c'.log == c.log ==> InCall(c') && c'.r == c.r && c'.copies == c.copies)
            && (c'.log != c.log ==> c'.log[|c.log|].Lapped?)
    decreases |t|
  {
    var c := s.readers[i];
    SealedStamp(cfg, s.ring, c.r);
    if t != [] {
      var u, a := t[..|t| - 1], t[|t| - 1];
      var s1 := Run(cfg, s, u);
      RunInv(cfg, s, u);
      NextGrows(cfg, s1, a);
      TornEndsInLapped(cfg, s, u, i);
      StampsGrow(cfg, s, u);
      hide RingInv, ReaderInv, ReaderNext, Ix;
      if s1.readers[i].log == c.log && a.R? && a.i == i {
        TornStep(cfg, s1.ring, s1.readers[i], a.j);
      }
    }
  }

  lemma {:induction false} TornStep(cfg: Config, m: Ring, c: Reader, j: nat)
    requires RingInv(cfg, m) && cfg.wd == Unbounded && ReaderInv(cfg, m, c) && InCall(c)
    requires StampAt(cfg, m, c.r) > 2 * c.r + 2
    ensures var c' := ReaderNext(cfg, m, c, j);
            || (c'.log == c.log && InCall(c') && c'.r == c.r && c'.copies == c.copies)
            || (|c'.log| == |c.log| + 1 && c.log <= c'.log && c'.log[|c.log|].Lapped?)
  {
    hide Ix, RingInv;
  }

  lemma {:induction false} StampsGrow(cfg: Config, s: State, t: seq<Act>)
    requires Inv(cfg, s)
    ensures forall r :: StampAt(cfg, s.ring, r) <= StampAt(cfg, Run(cfg, s, t).ring, r)
    decreases |t|
  {
    if t != [] {
      var u, a := t[..|t| - 1], t[|t| - 1];
      StampsGrow(cfg, s, u);
      RunInv(cfg, s, u);
      if a.W? {
        WriterGrows(cfg, Run(cfg, s, u).ring, a.wa);
      }
    }
  }

  /** Each call copies the payload at most once. */
  lemma {:induction false} OneCopyPerCall(cfg: Config, t: seq<Act>, i: nat)
    requires cfg.cap > 0 && cfg.wd == Unbounded
    requires i < |Run(cfg, Init(cfg), t).readers|
    ensures Run(cfg, Init(cfg), t).readers[i].copies <= 1
  {
    Reachable(cfg, t);
  }

  /** Step `m` of the run is the stamp load with which reader `i` begins a copy. */
  ghost predicate CopyBeginsAt(cfg: Config, s: State, t: seq<Act>, i: nat, m: nat)
    requires Shaped(cfg, s)
  {
    && m < |t| && t[m].R? && t[m].i == i
    && i < |Run(cfg, s, t[..m]).readers| && Run(cfg, s, t[..m]).readers[i].pc.RSeq1?
    && i < |Run(cfg, s, t[..m + 1]).readers| && Run(cfg, s, t[..m + 1]).readers[i].pc.RCopy?
  }

  lemma {:induction false} CopyStays(cfg: Config, s: State, t: seq<Act>, i: nat)
    requires Inv(cfg, s) && i < |s.readers| && InCall(s.readers[i]) && s.readers[i].copies == 1
    ensures i < |Run(cfg, s, t).readers|
    ensures var c, c' := s.readers[i], Run(cfg, s, t).readers[i];
            |c'.log| > |c.log| || (c'.log == c.log && InCall(c') && c'.copies == 1)
    decreases |t|
  {
    if t != [] {
      var u, a := t[..|t| - 1], t[|t| - 1];
      var s1 := Run(cfg, s, u);
      RunInv(cfg, s, u);
      RunGrows(cfg, s, u);
      NextGrows(cfg, s1, a);
      CopyStays(cfg, s, u, i);
      hide Ix, RingInv, ReaderInv, ReaderNext;
      if a.R? && a.i == i {
        CopyStaysStep(cfg, s1.ring, s1.readers[i], a.j);
      }
    }
  }

  lemma {:induction false} CopyStaysStep(cfg: Config, m: Ring, c: Reader, j: nat)
    requires RingInv(cfg, m) && cfg.wd == Unbounded && ReaderInv(cfg, m, c)
    ensures var c' := ReaderNext(cfg, m, c, j);
            && |c'.log| >= |c.log|
            && (InCall(c) && c.copies == 1 ==> |c'.log| > |c.log| || (c'.log == c.log && InCall(c') && c'.copies == 1))
  {
    hide Ix, LogOk, Advance, SlotInv;
  }

  /** Between two copies that a consumer begins in a run there is a result. */
  lemma {:induction false} CopiesNeedResults(cfg: Config, t: seq<Act>, i: nat, m: nat, n: nat)
    requires cfg.cap > 0 && cfg.wd == Unbounded && m < n
    requires CopyBeginsAt(cfg, Init(cfg), t, i, m) && CopyBeginsAt(cfg, Init(cfg), t, i, n)
    ensures |Run(cfg, Init(cfg), t[..n]).readers[i].log| > |Run(cfg, Init(cfg), t[..m]).readers[i].log|
  {
    hide Run, Inv;
    var s0 := Init(cfg);
    FirstCopy(cfg, t, i, m);
    FirstCopy(cfg, t, i, n);
    hide CopyBeginsAt;
    Reachable(cfg, t[..m + 1]);
    assert t[..n] == t[..m + 1] + t[m + 1..n];
    RunAppend(cfg, s0, t[..m + 1], t[m + 1..n]);
    CopyStays(cfg, Run(cfg, s0, t[..m + 1]), t[m + 1..n], i);
  }

  /** A copy that begins is the first of its call. */
  lemma {:induction false} FirstCopy(cfg: Config, t: seq<Act>, i: nat, m: nat)
    requires cfg.cap > 0 && cfg.wd == Unbounded && CopyBeginsAt(cfg, Init(cfg), t, i, m)
    ensures var c, c' := Run(cfg, Init(cfg), t[..m]).readers[i], Run(cfg, Init(cfg), t[..m + 1]).readers[i];
            c.copies == 0 && c'.copies == 1 && InCall(c') && c'.log == c.log
  {
    Reachable(cfg, t[..m]);
    var s := Run(cfg, Init(cfg), t[..m]);
    assert t[..m + 1] == t[..m] + [t[m]];
    RunSnoc(cfg, Init(cfg), t[..m], t[m]);
    assert ReaderInv(cfg, s.ring, s.readers[i]);
    hide Run, Ix, RingInv;
  }

  // --------------------------------------------------------------- solo calls

  /** The reader runs alone until its call returns; `js` chooses the words. */
  function Solo(cfg: Config, m: Ring, c: Reader, js: seq<nat>): Reader
    requires ShapedRing(cfg, m)
    decreases |js|
  {
    if js == [] || c.pc.RIdle? then c else Solo(cfg, m, ReaderNext(cfg, m, c, js[0]), js[1..])
  }

  /** The step is not a copy of a word already copied. */
  predicate Productive(cfg: Config, c: Reader, j: nat) {
    c.pc.RCopy? ==> Full(cfg.nw, c.pc.buf) || (j < cfg.nw && j !in c.pc.buf)
  }

  ghost predicate AllProductive(cfg: Config, m: Ring, c: Reader, js: seq<nat>)
    requires ShapedRing(cfg, m)
    decreases |js|
  {
    js == [] || c.pc.RIdle? ||
    (Productive(cfg, c, js[0]) && AllProductive(cfg, m, ReaderNext(cfg, m, c, js[0]), js[1..]))
  }

  /** Steps left: the current pass, and at most one more. */
  function Fuel(cfg: Config, m: Ring, c: Reader): nat
    requires ShapedRing(cfg, m)
  {
    match c.pc
    case RIdle => 0
    case RCheck => cfg.nw + 4
    case RSeq1 => if StampAt(cfg, m, c.r) == Expected(cfg, c.r) then cfg.nw + 2 else 2
    case RCopy(seq1, buf) => |Missing(cfg.nw, buf.Keys)| + (if StampAt(cfg, m, c.r) == seq1 then 1 else 3)
    case RReload => 1
  }

  lemma {:induction false} SoloStep(cfg: Config, m: Ring, c: Reader, j: nat)
    requires RingInv(cfg, m) && cfg.wd == Unbounded && ReaderInv(cfg, m, c) && !c.pc.RIdle?
    requires StampAt(cfg, m, c.r) % 2 == 0 && Productive(cfg, c, j)
    ensures Fuel(cfg, m, ReaderNext(cfg, m, c, j)) < Fuel(cfg, m, c)
    ensures var c' := ReaderNext(cfg, m, c, j);
            if c'.pc.RIdle? then c'.log[..|c'.log| - 1] == c.log else c'.log == c.log && c'.r == c.r
  {
    hide Ix, LogOk, Advance;
    MissingAll(cfg.nw);
    if c.pc.RCopy? && j < cfg.nw && j !in c.pc.buf {
      MissingNext(cfg.nw, c.pc.buf.Keys, j);
      assert c.pc.buf[j := m.slots[Ix(cfg.cap, c.r)].data[j]].Keys == c.pc.buf.Keys + {j};
    }
  }

  /** Solo termination.  From any program point of any reachable state whose slot the
      writer is not copying into, a reader that runs alone returns one result within
      `Fuel` steps, which is at most `nw + 4`; and it always has a step to take. */
  lemma {:induction false} SoloTerminates(cfg: Config, m: Ring, c: Reader, js: seq<nat>)
    requires RingInv(cfg, m) && cfg.wd == Unbounded && ReaderInv(cfg, m, c) && !c.pc.RIdle?
    requires StampAt(cfg, m, c.r) % 2 == 0 && AllProductive(cfg, m, c, js)
    ensures |js| >= Fuel(cfg, m, c) ==> Solo(cfg, m, c, js).pc.RIdle?
    ensures var c' := Solo(cfg, m, c, js);
            if c'.pc.RIdle? then |c'.log| == |c.log| + 1 && c.log <= c'.log else c'.log == c.log
    ensures exists j: nat :: Productive(cfg, c, j)
    decreases |js|
  {
    if c.pc.RCopy? && !Full(cfg.nw, c.pc.buf) {
      var k: nat :| k < cfg.nw && k !in c.pc.buf;
      assert Productive(cfg, c, k);
    } else {
      assert Productive(cfg, c, 0);
    }
    if js != [] {
      SoloStep(cfg, m, c, js[0]);
      ReaderKeeps(cfg, m, c, js[0]);
      var c1 := ReaderNext(cfg, m, c, js[0]);
      if !c1.pc.RIdle? {
        SoloTerminates(cfg, m, c1, js[1..]);
      }
    }
  }

  lemma {:induction false} FuelBound(cfg: Config, m: Ring, c: Reader)
    requires ShapedRing(cfg, m)
    ensures Fuel(cfg, m, c) <= cfg.nw + 4
  {
    if c.pc.RCopy? {
      MissingAtMost(cfg.nw, c.pc.buf.Keys);
    }
  }

  /** While the stamp is odd a call past its empty check, or about to find a new value in it,
      goes on for ever: it loads the stamp, or copies and finds the stamp moved, and loads it
      again. */
  lemma {:induction false} OddNeverReturns(cfg: Config, m: Ring, c: Reader, js: seq<nat>)
    requires ShapedRing(cfg, m) && StampAt(cfg, m, c.r) % 2 == 1
    requires c.pc.RSeq1? || (c.pc.RCopy? && c.pc.seq1 % 2 == 0) || (c.pc.RCheck? && c.r != m.cursor)
    ensures !Solo(cfg, m, c, js).pc.RIdle?
    decreases |js|
  {
    if js != [] {
      var c1 := ReaderNext(cfg, m, c, js[0]);
      hide Ix;
      OddNeverReturns(cfg, m, c1, js[1..]);
    }
  }

  /** Whatever the stamp, a call whose next step is its last. */
  lemma {:induction false} LastStep(cfg: Config, m: Ring, c: Reader, js: seq<nat>)
    requires ShapedRing(cfg, m) && js != [] && (c.pc.RReload? || (c.pc.RCheck? && c.r == m.cursor))
    ensures Solo(cfg, m, c, js).pc.RIdle?
  {
  }

  /** The exact condition of solo termination: a call in progress that runs alone for `nw + 4`
      steps returns if and only if the stamp of its slot is even, or it has only the reload
      of the write cursor to do, or it is about to find the queue empty. */
  lemma {:induction false} SoloReturns(cfg: Config, m: Ring, c: Reader, js: seq<nat>)
    requires RingInv(cfg, m) && cfg.wd == Unbounded && ReaderInv(cfg, m, c) && !c.pc.RIdle?
    requires AllProductive(cfg, m, c, js) && |js| >= cfg.nw + 4
    ensures Solo(cfg, m, c, js).pc.RIdle? <==>
              || StampAt(cfg, m, c.r) % 2 == 0
              || c.pc.RReload?
              || (c.pc.RCheck? && c.r == m.cursor)
  {
    if c.pc.RReload? || (c.pc.RCheck? && c.r == m.cursor) {
      LastStep(cfg, m, c, js);
    } else if StampAt(cfg, m, c.r) % 2 == 0 {
      FuelBound(cfg, m, c);
      SoloTerminates(cfg, m, c, js);
    } else {
      OddNeverReturns(cfg, m, c, js);
    }
  }

  /** Every step of reader `i` in the run is productive. */
  ghost predicate OwnProductive(cfg: Config, s: State, t: seq<Act>, i: nat)
    requires Shaped(cfg, s)
    decreases |t|
  {
    t == [] ||
    var u, a := t[..|t| - 1], t[|t| - 1];
    && OwnProductive(cfg, s, u, i)
    && (a.R? && a.i == i ==> i < |Run(cfg, s, u).readers| && Productive(cfg, Run(cfg, s, u).readers[i], a.j))
  }

  /** The steps of one whole call at most, and the steps a reader has left of its call, the
      next one if it is idle. */
  function CallCost(cfg: Config): nat {
    cfg.nw + 5
  }

  function CallFuel(cfg: Config, m: Ring, c: Reader): nat
    requires ShapedRing(cfg, m)
  {
    if c.pc.RIdle? then CallCost(cfg) else Fuel(cfg, m, c)
  }

  /** Wait freedom in the common case, a value available or the queue empty: in any
      interleaving in which the publication that reuses its slot has not begun, a reader has
      returned a result once it has taken `nw + 4` steps of its own call, or `nw + 5` from
      before its first. */
  lemma {:induction false} WaitFreeUnlessOverrun(cfg: Config, s: State, t: seq<Act>, i: nat)
    requires Inv(cfg, s) && i < |s.readers|
    requires |Run(cfg, s, t).ring.hist| <= s.readers[i].r + cfg.cap && OwnProductive(cfg, s, t, i)
    ensures i < |Run(cfg, s, t).readers|
    ensures OwnSteps(t, i) >= cfg.nw + (if s.readers[i].pc.RIdle? then 5 else 4) ==>
              Run(cfg, s, t).readers[i].log != s.readers[i].log
  {
    FuelBound(cfg, s.ring, s.readers[i]);
    FuelRunsDown(cfg, s, t, i);
    var s' := Run(cfg, s, t);
    if s'.readers[i].log == s.readers[i].log {
      FuelLeft(cfg, s'.ring, s'.readers[i]);
    }
  }

  /** While the slot keeps its stamp, nobody else's step changes a reader's fuel. */
  lemma {:induction false} OthersKeepFuel(cfg: Config, s: State, a: Act, i: nat)
    requires Inv(cfg, s) && i < |s.readers| && !(a.R? && a.i == i)
    requires |Next(cfg, s, a).ring.hist| <= s.readers[i].r + cfg.cap
    ensures i < |Next(cfg, s, a).readers| && Next(cfg, s, a).readers[i] == s.readers[i]
    ensures CallFuel(cfg, Next(cfg, s, a).ring, s.readers[i]) == CallFuel(cfg, s.ring, s.readers[i])
  {
    var r, s' := s.readers[i].r, Next(cfg, s, a);
    assert s'.readers[i] == s.readers[i];
    NextGrows(cfg, s, a);
    NextInv(cfg, s, a);
    assert ReaderInv(cfg, s.ring, s.readers[i]);
    hide Next;
    if InCall(s.readers[i]) {
      assert 0 <= r < s.ring.cursor;
      hide ReaderInv;
      NotOverrun(cfg, s.ring, r);
      NotOverrun(cfg, s'.ring, r);
    }
  }

  /** A reader's own step uses fuel. */
  lemma {:induction false} OwnStepUsesFuel(cfg: Config, m: Ring, c: Reader, j: nat)
    requires RingInv(cfg, m) && cfg.wd == Unbounded && ReaderInv(cfg, m, c)
    requires |m.hist| <= c.r + cfg.cap && Productive(cfg, c, j)
    ensures var c' := ReaderNext(cfg, m, c, j);
            c'.log == c.log ==> c'.r == c.r && CallFuel(cfg, m, c') < CallFuel(cfg, m, c)
  {
    if c.pc.RIdle? {
      FuelBound(cfg, m, ReaderNext(cfg, m, c, j));
      hide Ix, Fuel;
    } else if InCall(c) {
      NotOverrun(cfg, m, c.r);
      SoloStep(cfg, m, c, j);
      hide ReaderNext, ReaderInv, RingInv, Fuel, Ix;
    } else {
      hide Ix;
    }
  }

  lemma {:induction false} FuelRunsDown(cfg: Config, s: State, t: seq<Act>, i: nat)
    requires Inv(cfg, s) && i < |s.readers|
    requires |Run(cfg, s, t).ring.hist| <= s.readers[i].r + cfg.cap && OwnProductive(cfg, s, t, i)
    ensures i < |Run(cfg, s, t).readers|
    ensures var c, s' := s.readers[i], Run(cfg, s, t);
            var c' := s'.readers[i];
            c'.log == c.log ==>
              && c'.r == c.r
              && CallFuel(cfg, s'.ring, c') + OwnSteps(t, i) <= CallFuel(cfg, s.ring, c)
    decreases |t|
  {
    var c := s.readers[i];
    if t != [] {
      var u, a := t[..|t| - 1], t[|t| - 1];
      var s1 := Run(cfg, s, u);
      RunInv(cfg, s, u);
      NextGrows(cfg, s1, a);
      RunGrows(cfg, s, u);
      FuelRunsDown(cfg, s, u, i);
      hide CallFuel, ReaderInv, RingInv, ReaderNext;
      if s1.readers[i].log == c.log {
        if a.R? && a.i == i {
          OwnStepUsesFuel(cfg, s1.ring, s1.readers[i], a.j);
        } else {
          OthersKeepFuel(cfg, s1, a, i);
        }
      }
    }
  }

  lemma {:induction false} FuelLeft(cfg: Config, m: Ring, c: Reader)
    requires ShapedRing(cfg, m)
    ensures CallFuel(cfg, m, c) > 0
    ensures !c.pc.RIdle? ==> Fuel(cfg, m, c) > 0
  {
  }

  lemma {:induction false} StampsEven(cfg: Config, m: Ring, r: int)
    requires RingInv(cfg, m) && m.writer.WIdle?
    ensures StampAt(cfg, m, r) % 2 == 0
  {
    hide Ix;
    assert SlotInv(cfg, m, Ix(cfg.cap, r));
  }

  lemma {:induction false} ReadersOnly(cfg: Config, s: State, t: seq<Act>)
    requires Shaped(cfg, s) && forall k :: 0 <= k < |t| ==> t[k].R?
    ensures Run(cfg, s, t).ring == s.ring && |Run(cfg, s, t).readers| == |s.readers|
    decreases |t|
  {
    if t != [] {
      ReadersOnly(cfg, s, t[..|t| - 1]);
    }
  }

  /** The stamp loads of reader `i` in the run that find the writer copying into the slot. */
  ghost function Spins(cfg: Config, s: State, t: seq<Act>, i: nat): nat
    requires Shaped(cfg, s)
    decreases |t|
  {
    if t == [] then 0
    else
      var u, a := t[..|t| - 1], t[|t| - 1];
      var s1 := Run(cfg, s, u);
      Spins(cfg, s, u, i)
      + (if a.R? && a.i == i < |s1.readers| && Spinning(cfg, s1.ring, s1.readers[i]) then 1 else 0)
  }

  predicate Spinning(cfg: Config, m: Ring, c: Reader)
    requires ShapedRing(cfg, m)
  {
    c.pc.RSeq1? && StampAt(cfg, m, c.r) % 2 == 1
  }

  /** The steps a reader has left, whatever the writer does, if it never has to spin: the
      empty check, one pass, and a second stamp load that ends in a lap. */
  function StepsLeft(cfg: Config, c: Reader): nat {
    match c.pc
    case RIdle => cfg.nw + 6
    case RCheck => cfg.nw + 5
    case RSeq1 => if c.copies == 0 then cfg.nw + 4 else 2
    case RCopy(_, buf) => |Missing(cfg.nw, buf.Keys)| + 3
    case RReload => 1
  }

  lemma {:induction false} StepCounts(cfg: Config, m: Ring, c: Reader, j: nat)
    requires RingInv(cfg, m) && cfg.wd == Unbounded && ReaderInv(cfg, m, c) && Productive(cfg, c, j)
    ensures var c' := ReaderNext(cfg, m, c, j);
            c'.log == c.log ==>
              StepsLeft(cfg, c') + 1 <= StepsLeft(cfg, c) + (if Spinning(cfg, m, c) then 1 else 0)
  {
    hide Ix, LogOk, Advance, SlotInv;
    MissingAll(cfg.nw);
    if c.pc.RCopy? && j < cfg.nw && j !in c.pc.buf {
      MissingNext(cfg.nw, c.pc.buf.Keys, j);
      assert c.pc.buf[j := m.slots[Ix(cfg.cap, c.r)].data[j]].Keys == c.pc.buf.Keys + {j};
    }
  }

  lemma {:induction false} StepsRunDown(cfg: Config, s: State, t: seq<Act>, i: nat)
    requires Inv(cfg, s) && i < |s.readers| && OwnProductive(cfg, s, t, i)
    ensures i < |Run(cfg, s, t).readers|
    ensures var c, c' := s.readers[i], Run(cfg, s, t).readers[i];
            c'.log == c.log ==> OwnSteps(t, i) + StepsLeft(cfg, c') <= StepsLeft(cfg, c) + Spins(cfg, s, t, i)
    decreases |t|
  {
    var c := s.readers[i];
    if t != [] {
      var u, a := t[..|t| - 1], t[|t| - 1];
      var s1 := Run(cfg, s, u);
      RunInv(cfg, s, u);
      NextGrows(cfg, s1, a);
      RunGrows(cfg, s, u);
      StepsRunDown(cfg, s, u, i);
      hide StepsLeft, ReaderInv, RingInv, ReaderNext, Spinning;
      if s1.readers[i].log == c.log && a.R? && a.i == i {
        StepCounts(cfg, s1.ring, s1.readers[i], a.j);
      }
    }
  }

  /** Waiting for the writer is the only delay.  In every interleaving, overruns and laps
      included, a reader has returned a result once it has taken `nw + 6` steps besides the
      stamp loads that found the writer copying into its slot. */
  lemma {:induction false} DelayedBySpinsOnly(cfg: Config, s: State, t: seq<Act>, i: nat)
    requires Inv(cfg, s) && i < |s.readers| && OwnProductive(cfg, s, t, i)
    ensures i < |Run(cfg, s, t).readers|
    ensures OwnSteps(t, i) >= cfg.nw + 6 + Spins(cfg, s, t, i) ==>
              Run(cfg, s, t).readers[i].log != s.readers[i].log
  {
    StepsRunDown(cfg, s, t, i);
    StepsLeftBound(cfg, s.readers[i]);
    StepsLeftBound(cfg, Run(cfg, s, t).readers[i]);
  }

  lemma {:induction false} StepsLeftBound(cfg: Config, c: Reader)
    ensures 0 < StepsLeft(cfg, c) <= cfg.nw + 6
  {
    if c.pc.RCopy? {
      MissingAtMost(cfg.nw, c.pc.buf.Keys);
    }
  }

  // ------------------------------------------------------- cache transparency

  /** What a call returns when nothing else runs: a function of the history and the read
      cursor alone. */
  function CallResult(cap: nat, hist: seq<Payload>, r: int): Outcome
    requires 0 <= r <= |hist|
  {
    if r == |hist| then Empty
    else if |hist| - r <= cap then Value(hist[r])
    else Lapped(|hist| - 1 - r)
  }

  lemma {:induction false} SoloResultStep(cfg: Config, m: Ring, c: Reader, j: nat)
    requires RingInv(cfg, m) && cfg.wd == Unbounded && m.writer.WIdle?
    requires ReaderInv(cfg, m, c) && !c.pc.RIdle?
    ensures 0 <= c.r <= |m.hist|
    ensures var o, c' := CallResult(cfg.cap, m.hist, c.r), ReaderNext(cfg, m, c, j);
            if c'.pc.RIdle? then c'.log == c.log + [o] && c'.r == c.r + Span(o)
            else c'.log == c.log && c'.r == c.r
  {
    if c.r + cfg.cap < |m.hist| {
      OverrunStamp(cfg, m, c.r);
    } else if c.r < |m.hist| {
      NotOverrun(cfg, m, c.r);
      if c.pc.RCopy? && Full(cfg.nw, c.pc.buf) {
        assert Assemble(cfg.nw, c.pc.buf) == m.hist[c.r];
      }
    }
  }

  /** Cache transparency.  From any reachable state with the writer idle, a call that runs
      alone returns `CallResult`: the stale cached write cursor does not show. */
  lemma {:induction false} SoloResult(cfg: Config, m: Ring, c: Reader, js: seq<nat>)
    requires RingInv(cfg, m) && cfg.wd == Unbounded && m.writer.WIdle?
    requires ReaderInv(cfg, m, c) && !c.pc.RIdle?
    requires Solo(cfg, m, c, js).pc.RIdle?
    ensures 0 <= c.r <= |m.hist|
    ensures var o := CallResult(cfg.cap, m.hist, c.r);
            && Solo(cfg, m, c, js).log == c.log + [o]
            && Solo(cfg, m, c, js).r == c.r + Span(o)
    decreases |js|
  {
    SoloResultStep(cfg, m, c, js[0]);
    ReaderKeeps(cfg, m, c, js[0]);
    var c1 := ReaderNext(cfg, m, c, js[0]);
    if !c1.pc.RIdle? {
      SoloResult(cfg, m, c1, js[1..]);
    }
  }

  /** The same, as a caller sees it: after any sequence of publications, clones and calls,
      with the writer idle, a call from start to end depends on the history and the read
      cursor only. */
  lemma {:induction false} CallAlone(cfg: Config, t: seq<Act>, i: nat, js: seq<nat>)
    requires cfg.cap > 0 && cfg.wd == Unbounded
    requires var s := Run(cfg, Init(cfg), t);
             && i < |s.readers| && s.readers[i].pc.RIdle? && s.ring.writer.WIdle?
             && Solo(cfg, s.ring, ReaderNext(cfg, s.ring, s.readers[i], 0), js).pc.RIdle?
    ensures var s := Run(cfg, Init(cfg), t);
            var c := s.readers[i];
            var c' := Solo(cfg, s.ring, ReaderNext(cfg, s.ring, c, 0), js);
            && 0 <= c.r <= |s.ring.hist|
            && c'.log == c.log + [CallResult(cfg.cap, s.ring.hist, c.r)]
  {
    Reachable(cfg, t);
    var s := Run(cfg, Init(cfg), t);
    ReaderKeeps(cfg, s.ring, s.readers[i], 0);
    hide ReaderInv, RingInv;
    SoloResult(cfg, s.ring, ReaderNext(cfg, s.ring, s.readers[i], 0), js);
  }
}
