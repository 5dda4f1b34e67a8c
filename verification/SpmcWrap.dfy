/** The SPMC ring on `b`-bit words refines the ring on unbounded counters.

    `Wrap` reduces every counter of a state modulo `2^b`.  A step of the machine that
    computes with wrapping words and the step of the unbounded machine agree through
    `Wrap` except when a stamp or a cursor has moved by an exact multiple of the word,
    which needs a reader more than `2^(b-1)` publications behind.
 */
module SpmcWrap {
  import opened Words
  import opened Payloads
  import opened Threads
  import opened Spmc
  import opened SpmcInvariant
  import opened SpmcTheorems

  function Narrow(cfg: Config, b: nat): Config {
    cfg.(wd := Bits(b))
  }

  /** An unbounded configuration and the word it is narrowed to: the capacity is a power
      of two that is a `b`-bit number. */
  ghost predicate Fits(cfg: Config, b: nat, k: nat) {
    cfg.wd == Unbounded && cfg.cap == Pow2(k) && k < b
  }

  function WrapSlots(b: nat, slots: seq<Slot>): (r: seq<Slot>)
    ensures |r| == |slots|
  {
    seq(|slots|, i requires 0 <= i < |slots| => slots[i].(stamp := slots[i].stamp % Pow2(b)))
  }

  function WrapWriter(b: nat, w: WriterPc): WriterPc {
    if w.WIdle? then w else w.(pos := w.pos % Pow2(b))
  }

  function WrapRing(b: nat, m: Ring): Ring {
    Ring(m.cursor % Pow2(b), WrapSlots(b, m.slots), WrapWriter(b, m.writer), m.hist)
  }

  function WrapLog(b: nat, log: seq<Outcome>): (r: seq<Outcome>)
    ensures |r| == |log|
  {
    seq(|log|, i requires 0 <= i < |log| =>
      if log[i].Lapped? then Lapped(log[i].skipped % Pow2(b)) else log[i])
  }

  function WrapPc(b: nat, pc: ReaderPc): ReaderPc {
    if pc.RCopy? then pc.(seq1 := pc.seq1 % Pow2(b)) else pc
  }

  function WrapReader(b: nat, c: Reader): Reader {
    Reader(c.r % Pow2(b), c.cached % Pow2(b), WrapPc(b, c.pc), c.copies, c.base % Pow2(b), WrapLog(b, c.log))
  }

  function Wrap(b: nat, s: State): State {
    State(WrapRing(b, s.ring), seq(|s.readers|, i requires 0 <= i < |s.readers| => WrapReader(b, s.readers[i])))
  }

  // ------------------------------------------------------------------ writer

  /** Twice a wrapped position plus a constant wraps as the unbounded stamp does. */
  lemma {:induction false} StampWraps(b: nat, p: int, c: int)
    ensures Add(Bits(b), Mul(Bits(b), p % Pow2(b), 2), c) == (2 * p + c) % Pow2(b)
  {
    ModLinear(1, (p % Pow2(b)) * 2, c, Pow2(b));
    ModLinear(2, p, c, Pow2(b));
  }

  lemma {:induction false} SubWraps(b: nat, x: int, y: int)
    ensures Sub(Bits(b), x % Pow2(b), y % Pow2(b)) == Sub(Unbounded, x, y) % Pow2(b)
  {
    ModDiff(x, y, Pow2(b));
  }

  lemma {:induction false} WrapUpdate(b: nat, slots: seq<Slot>, i: nat, slot: Slot)
    requires i < |slots|
    ensures WrapSlots(b, slots[i := slot]) == WrapSlots(b, slots)[i := slot.(stamp := slot.stamp % Pow2(b))]
  {
  }

  lemma {:induction false} WriterSquare(cfg: Config, b: nat, k: nat, m: Ring, a: WriterAct)
    requires Fits(cfg, b, k) && ShapedRing(cfg, m)
    ensures ShapedRing(Narrow(cfg, b), WrapRing(b, m))
    ensures WriterNext(Narrow(cfg, b), WrapRing(b, m), a) == WrapRing(b, WriterNext(cfg, m, a))
  {
    if a.Store? && !m.writer.WIdle? {
      var pos := m.writer.pos;
      var i := Ix(cfg.cap, pos);
      FitKeeps(b, k, pos);
      assert Ix(cfg.cap, pos % Pow2(b)) == i;
      StampWraps(b, pos, 1);
      StampWraps(b, pos, 2);
      ModLinear(1, pos, 1, Pow2(b));
      hide Ix;
      match m.writer
      case WLoaded(v, _) => WrapUpdate(b, m.slots, i, m.slots[i].(stamp := 2 * pos + 1));
      case WCopying(v, _, done) =>
        if a.j < cfg.nw && a.j !in done {
          WrapUpdate(b, m.slots, i, m.slots[i].(data := m.slots[i].data[a.j := v[a.j]]));
        } else {
          WrapUpdate(b, m.slots, i, m.slots[i].(stamp := 2 * pos + 2));
        }
      case WSealed(_) =>
    }
  }

  // ------------------------------------------------------------------ readers

  /** Two different numbers that one word cannot tell apart. */
  predicate Collide(b: nat, x: int, y: int) {
    x != y && (x - y) % Pow2(b) == 0
  }

  /** The reader's next comparison is between two numbers that collide. */
  ghost predicate Ambiguous(cfg: Config, b: nat, m: Ring, c: Reader, j: nat)
    requires ShapedRing(cfg, m)
  {
    match c.pc
    case RIdle => Collide(b, c.cached, c.r)
    case RCheck => Collide(b, m.cursor, c.r)
    case RSeq1 => StampAt(cfg, m, c.r) % 2 == 0 && Collide(b, StampAt(cfg, m, c.r), 2 * c.r + 2)
    case RCopy(seq1, buf) =>
      Full(cfg.nw, buf) && !(j < cfg.nw && j !in buf) && Collide(b, StampAt(cfg, m, c.r), seq1)
    case RReload => false
  }

  lemma {:induction false} WrapLogSnoc(b: nat, log: seq<Outcome>, o: Outcome)
    ensures WrapLog(b, log + [o]) == WrapLog(b, log) + WrapLog(b, [o])
  {
  }

  /** The wrapping reader takes the step of the unbounded reader exactly when its next
      comparison is not ambiguous. */
  lemma {:induction false} ReaderSquare(cfg: Config, b: nat, k: nat, m: Ring, c: Reader, j: nat)
    requires Fits(cfg, b, k) && ShapedRing(cfg, m)
    ensures ShapedRing(Narrow(cfg, b), WrapRing(b, m))
    ensures ReaderNext(Narrow(cfg, b), WrapRing(b, m), WrapReader(b, c), j) == WrapReader(b, ReaderNext(cfg, m, c, j))
            <==> !Ambiguous(cfg, b, m, c, j)
  {
    var w := WrapReader(b, c);
    var i := Ix(cfg.cap, c.r);
    var x := m.slots[i].stamp;
    FitKeeps(b, k, c.r);
    FitKeeps(b, k, x);
    assert Ix(cfg.cap, c.r % Pow2(b)) == i;
    hide Ix;
    StampWraps(b, c.r, 2);
    match c.pc
    case RIdle => ModEq(c.cached, c.r, Pow2(b));
    case RCheck =>
      ModEq(m.cursor, c.r, Pow2(b));
      WrapLogSnoc(b, c.log, Empty);
    case RSeq1 => ModEq(x, 2 * c.r + 2, Pow2(b));
    case RCopy(seq1, buf) =>
      ModEq(x, seq1, Pow2(b));
      ModLinear(1, c.r, 1, Pow2(b));
      if Full(cfg.nw, buf) {
        WrapLogSnoc(b, c.log, Value(Assemble(cfg.nw, buf)));
      }
    case RReload => ReloadSquare(cfg, b, m, c, j);
  }

  lemma {:induction false} ReloadSquare(cfg: Config, b: nat, m: Ring, c: Reader, j: nat)
    requires cfg.wd == Unbounded && b > 0 && c.pc.RReload?
    requires ShapedRing(cfg, m) && ShapedRing(Narrow(cfg, b), WrapRing(b, m))
    ensures ReaderNext(Narrow(cfg, b), WrapRing(b, m), WrapReader(b, c), j) == WrapReader(b, ReaderNext(cfg, m, c, j))
  {
    var at := m.cursor - 1;
    SubWraps(b, m.cursor, 1);
    SubWraps(b, at, c.r);
    assert 1 % Pow2(b) == 1 by { DivUnique(1, Pow2(b), 0, 1); }
    hide Fit, Sub, Ix;
    WrapLogSnoc(b, c.log, Lapped(at - c.r));
  }

  /** The sufficient bound a user can keep: a reader at most `2^(b-1)` publications behind
      the writer never meets an ambiguous comparison. */
  lemma {:induction false} LagBound(cfg: Config, b: nat, m: Ring, c: Reader, j: nat)
    requires cfg.wd == Unbounded && b > 0 && RingInv(cfg, m) && ReaderInv(cfg, m, c)
    requires |m.hist| - c.r <= Pow2(b - 1)
    ensures !Ambiguous(cfg, b, m, c, j)
  {
    assert Pow2(b) == 2 * Pow2(b - 1);
    ModEq(c.cached, c.r, Pow2(b));
    FitEq(b, c.cached, c.r);
    ModEq(m.cursor, c.r, Pow2(b));
    FitEq(b, m.cursor, c.r);
    if InCall(c) {
      SlotOf(cfg, m, c.r);
      var x := StampAt(cfg, m, c.r);
      ModEq(x, 2 * c.r + 2, Pow2(b));
      FitEq(b, x, 2 * c.r + 2);
    }
  }

  // ------------------------------------------------------------------- system

  /** The step is a reader's and its next comparison is ambiguous. */
  ghost predicate StepAmbiguous(cfg: Config, b: nat, s: State, a: Act)
    requires Shaped(cfg, s)
  {
    a.R? && a.i < |s.readers| && Ambiguous(cfg, b, s.ring, s.readers[a.i], a.j)
  }

  lemma {:induction false} NextSquare(cfg: Config, b: nat, k: nat, s: State, a: Act)
    requires Fits(cfg, b, k) && Shaped(cfg, s)
    ensures Shaped(Narrow(cfg, b), Wrap(b, s))
    ensures Next(Narrow(cfg, b), Wrap(b, s), a) == Wrap(b, Next(cfg, s, a)) <==> !StepAmbiguous(cfg, b, s, a)
  {
    match a
    case W(wa) => WriterSquare(cfg, b, k, s.ring, wa);
    case R(i, j) =>
      if i < |s.readers| {
        ReaderSquare(cfg, b, k, s.ring, s.readers[i], j);
        var c := ReaderNext(cfg, s.ring, s.readers[i], j);
        var w := ReaderNext(Narrow(cfg, b), WrapRing(b, s.ring), WrapReader(b, s.readers[i]), j);
        hide Ambiguous, ReaderNext, WrapReader, WrapRing;
        assert Wrap(b, s.(readers := s.readers[i := c])).readers == Wrap(b, s).readers[i := WrapReader(b, c)];
        assert Wrap(b, s).readers[i := w][i] == w;
      }
    case Clone(i) =>
      if i < |s.readers| && s.readers[i].pc.RIdle? {
        var c := NewReader(s.readers[i].r, s.readers[i].cached);
        assert Wrap(b, s.(readers := s.readers + [c])).readers == Wrap(b, s).readers + [WrapReader(b, c)];
      }
  }

  /** No step of the run is ambiguous. */
  ghost predicate NeverAmbiguous(cfg: Config, b: nat, s: State, t: seq<Act>)
    requires Shaped(cfg, s)
    decreases |t|
  {
    t == [] ||
    var u := t[..|t| - 1];
    NeverAmbiguous(cfg, b, s, u) && !StepAmbiguous(cfg, b, Run(cfg, s, u), t[|t| - 1])
  }

  /** The wrapping run is the unbounded run with its counters reduced, at every moment. */
  ghost predicate Tracks(cfg: Config, b: nat, s: State, t: seq<Act>)
    requires Shaped(cfg, s) && Shaped(Narrow(cfg, b), Wrap(b, s))
  {
    forall m :: 0 <= m <= |t| ==> Run(Narrow(cfg, b), Wrap(b, s), t[..m]) == Wrap(b, Run(cfg, s, t[..m]))
  }

  lemma {:induction false} TracksSnoc(cfg: Config, b: nat, s: State, u: seq<Act>, a: Act)
    requires Shaped(cfg, s) && Shaped(Narrow(cfg, b), Wrap(b, s))
    ensures Tracks(cfg, b, s, u + [a]) <==>
              && Tracks(cfg, b, s, u)
              && Run(Narrow(cfg, b), Wrap(b, s), u + [a]) == Wrap(b, Run(cfg, s, u + [a]))
  {
    hide Run, Wrap;
    var t := u + [a];
    assert t[..|t|] == t;
    assert forall m :: 0 <= m <= |u| ==> t[..m] == u[..m];
  }

  /** Wrap-around, exactly, for runs of any length from any state: the machine on wrapping
      words is the unbounded machine with its counters reduced, at every moment of the run, if
      and only if no comparison of the run is between two different numbers that one word
      cannot tell apart. */
  lemma {:induction false} WrapExact(cfg: Config, b: nat, k: nat, s: State, t: seq<Act>)
    requires Fits(cfg, b, k) && Shaped(cfg, s)
    ensures Shaped(Narrow(cfg, b), Wrap(b, s))
    ensures Tracks(cfg, b, s, t) <==> NeverAmbiguous(cfg, b, s, t)
    decreases |t|
  {
    NextSquare(cfg, b, k, s, W(Store(0)));
    if t != [] {
      var u, a := t[..|t| - 1], t[|t| - 1];
      assert t == u + [a];
      WrapExact(cfg, b, k, s, u);
      TracksSnoc(cfg, b, s, u, a);
      RunSnoc(cfg, s, u, a);
      RunSnoc(Narrow(cfg, b), Wrap(b, s), u, a);
      NextSquare(cfg, b, k, Run(cfg, s, u), a);
      assert u[..|u|] == u;
      hide Run, Next, StepAmbiguous, Wrap;
    }
  }

  /** Along the run, a reader that steps is at most `2^(b-1)` publications behind. */
  ghost predicate WithinLag(cfg: Config, b: nat, s: State, t: seq<Act>)
    requires Shaped(cfg, s) && b > 0
    decreases |t|
  {
    t == [] ||
    var u, a := t[..|t| - 1], t[|t| - 1];
    var s1 := Run(cfg, s, u);
    && WithinLag(cfg, b, s, u)
    && (a.R? && a.i < |s1.readers| ==> |s1.ring.hist| - s1.readers[a.i].r <= Pow2(b - 1))
  }

  ghost predicate SkipsFit(b: nat, s: State) {
    forall i :: 0 <= i < |s.readers| ==> WrapLog(b, s.readers[i].log) == s.readers[i].log
  }

  lemma {:induction false} NextSkipsFit(cfg: Config, b: nat, s: State, a: Act)
    requires Inv(cfg, s) && b > 0 && SkipsFit(b, s)
    requires a.R? && a.i < |s.readers| ==> |s.ring.hist| - s.readers[a.i].r <= Pow2(b - 1)
    ensures SkipsFit(b, Next(cfg, s, a))
  {
    if a.R? && a.i < |s.readers| {
      var c := s.readers[a.i];
      var c' := ReaderNext(cfg, s.ring, c, a.j);
      if c.pc.RReload? {
        var skipped := s.ring.cursor - 1 - c.r;
        assert Pow2(b) == 2 * Pow2(b - 1);
        DivUnique(skipped, Pow2(b), 0, skipped);
        assert c'.log == c.log + [Lapped(skipped)];
      }
      if c'.log != c.log {
        WrapLogSnoc(b, c.log, c'.log[|c.log|]);
      }
      assert WrapLog(b, c'.log) == c'.log;
    }
  }

  lemma {:induction false} InitWraps(cfg: Config, b: nat)
    requires cfg.cap > 0
    ensures Wrap(b, Init(cfg)) == Init(Narrow(cfg, b))
  {
    DivUnique(0, Pow2(b), 0, 0);
  }

  lemma {:induction false} WithinLagIsClear(cfg: Config, b: nat, s: State, t: seq<Act>)
    requires Inv(cfg, s) && b > 0 && WithinLag(cfg, b, s, t)
    ensures NeverAmbiguous(cfg, b, s, t)
    decreases |t|
  {
    if t != [] {
      var u, a := t[..|t| - 1], t[|t| - 1];
      var s1 := Run(cfg, s, u);
      WithinLagIsClear(cfg, b, s, u);
      RunInv(cfg, s, u);
      if a.R? && a.i < |s1.readers| {
        LagBound(cfg, b, s1.ring, s1.readers[a.i], a.j);
      }
      hide Ambiguous, Run, Inv;
    }
  }

  lemma {:induction false} RunSkipsFit(cfg: Config, b: nat, s: State, t: seq<Act>)
    requires Inv(cfg, s) && b > 0 && SkipsFit(b, s) && WithinLag(cfg, b, s, t)
    ensures SkipsFit(b, Run(cfg, s, t))
    decreases |t|
  {
    if t != [] {
      var u := t[..|t| - 1];
      RunSkipsFit(cfg, b, s, u);
      RunInv(cfg, s, u);
      NextSkipsFit(cfg, b, Run(cfg, s, u), t[|t| - 1]);
    }
  }

  /** Wrap-around refinement, for runs of any length: within the lag bound, the machine
      on wrapping words is the unbounded machine with its counters reduced, and every
      result it returns, `skipped` included, is the unbounded one. */
  lemma {:induction false} WrapRefines(cfg: Config, b: nat, k: nat, s: State, t: seq<Act>)
    requires Fits(cfg, b, k) && Inv(cfg, s) && SkipsFit(b, s) && WithinLag(cfg, b, s, t)
    ensures Shaped(Narrow(cfg, b), Wrap(b, s))
    ensures Run(Narrow(cfg, b), Wrap(b, s), t) == Wrap(b, Run(cfg, s, t))
    ensures SkipsFit(b, Run(cfg, s, t))
  {
    WithinLagIsClear(cfg, b, s, t);
    WrapExact(cfg, b, k, s, t);
    RunSkipsFit(cfg, b, s, t);
    assert t[..|t|] == t;
    hide Run, Wrap, Inv;
  }

  /** The code starts as the unbounded machine starts. */
  lemma {:induction false} WrapRefinesFromInit(cfg: Config, b: nat, k: nat, t: seq<Act>)
    requires Fits(cfg, b, k) && WithinLag(cfg, b, Init(cfg), t)
    ensures Run(Narrow(cfg, b), Init(Narrow(cfg, b)), t) == Wrap(b, Run(cfg, Init(cfg), t))
    ensures SkipsFit(b, Run(cfg, Init(cfg), t))
  {
    InitWraps(cfg, b);
    InitInv(cfg);
    WrapRefines(cfg, b, k, Init(cfg), t);
  }

  /** Integrity on wrapping words: within the lag bound, what a consumer of the code
      receives is a stream of whole published values, none unaccounted for. */
  lemma {:induction false} WrappedReaderStream(cfg: Config, b: nat, k: nat, t: seq<Act>, i: nat)
    requires Fits(cfg, b, k) && WithinLag(cfg, b, Init(cfg), t)
    requires i < |Run(cfg, Init(cfg), t).readers|
    ensures i < |Run(Narrow(cfg, b), Init(Narrow(cfg, b)), t).readers|
    ensures var w := Run(Narrow(cfg, b), Init(Narrow(cfg, b)), t).readers[i];
            var s := Run(cfg, Init(cfg), t);
            var c := s.readers[i];
            && w.r == c.r % Pow2(b)
            && IsStream(Values(w.log), Positions(w.log, c.base), c.base, c.r, s.ring.hist)
            && |Values(w.log)| + TotalSkipped(w.log) == c.r - c.base
  {
    WrapRefinesFromInit(cfg, b, k, t);
    ReaderStream(cfg, t, i);
  }

  // ---------------------------------------------------------------- sharpness

  lemma {:induction false} WritersKeepLag(cfg: Config, b: nat, s: State, t: seq<Act>)
    requires Shaped(cfg, s) && b > 0 && forall j :: 0 <= j < |t| ==> t[j].W?
    ensures WithinLag(cfg, b, s, t)
    decreases |t|
  {
    if t != [] {
      WritersKeepLag(cfg, b, s, t[..|t| - 1]);
    }
  }

  /** A reader alone copies the first `n` words of its slot. */
  lemma {:induction false} CopyWords(cfg: Config, s: State, n: nat) returns (t: seq<Act>, buf: map<nat, Word>)
    requires Shaped(cfg, s) && n <= cfg.nw && |s.readers| == 1
    requires s.readers[0].pc.RCopy? && s.readers[0].pc.buf == map[]
    ensures Run(cfg, s, t) == s.(readers := [s.readers[0].(pc := s.readers[0].pc.(buf := buf))])
    ensures forall x: nat :: x in buf <==> x < n
    ensures forall x :: 0 <= x < n ==> buf[x] == s.ring.slots[Ix(cfg.cap, s.readers[0].r)].data[x]
  {
    hide Ix;
    if n == 0 {
      t, buf := [], map[];
      assert [s.readers[0]] == s.readers;
    } else {
      t, buf := CopyWords(cfg, s, n - 1);
      RunSnoc(cfg, s, t, R(0, n - 1));
      hide Run;
      t := t + [R(0, n - 1)];
      buf := buf[n - 1 := s.ring.slots[Ix(cfg.cap, s.readers[0].r)].data[n - 1]];
    }
  }

  /** A reader alone with a slot whose stamp is the one it expects returns what the slot holds. */
  lemma {:induction false} AcceptsMatchingStamp(cfg: Config, s: State) returns (t: seq<Act>)
    requires Shaped(cfg, s) && |s.readers| == 1 && s.readers[0].pc == RSeq1
    requires var slot := s.ring.slots[Ix(cfg.cap, s.readers[0].r)];
             slot.stamp % 2 == 0 && slot.stamp == Expected(cfg, s.readers[0].r)
    ensures var s' := Run(cfg, s, t);
            && s'.ring == s.ring && |s'.readers| == 1
            && s'.readers[0].log == s.readers[0].log + [Value(s.ring.slots[Ix(cfg.cap, s.readers[0].r)].data)]
  {
    hide Ix;
    var slot := s.ring.slots[Ix(cfg.cap, s.readers[0].r)];
    var s1 := Next(cfg, s, R(0, 0));
    assert s1.readers[0].pc == RCopy(slot.stamp, map[]);
    RunSnoc(cfg, s, [], R(0, 0));
    hide Run;
    var u, buf := CopyWords(cfg, s1, cfg.nw);
    RunAppend(cfg, s, [] + [R(0, 0)], u);
    assert Assemble(cfg.nw, buf) == slot.data;
    t := [] + [R(0, 0)] + u;
    RunSnoc(cfg, s, t, R(0, cfg.nw));
    t := t + [R(0, cfg.nw)];
  }

  /** Slot 0 after `2^(b-1) + 1` publications: its stamp is `2^b + 2`. */
  lemma {:induction false} LastLapStamp(cfg: Config, b: nat, k: nat, m: Ring)
    requires Fits(cfg, b, k) && RingInv(cfg, m) && m.writer == WIdle
    requires |m.hist| == Pow2(b - 1) + 1
    ensures Ix(cfg.cap, 0) == 0
    ensures m.slots[0] == Slot(2 * Pow2(b - 1) + 2, m.hist[Pow2(b - 1)])
  {
    var p := Pow2(b - 1);
    PowerInSlotZero(b - 1, k);
    SealedStamp(cfg, m, p);
    SlotOf(cfg, m, p);
    hide Ix;
    assert SlotInv(cfg, m, 0);
  }

  /** The wrapped ring after `2^(b-1) + 1` publications: slot 0 carries stamp 2 again, with
      publication `2^(b-1)` in it. */
  lemma {:induction false} StampComesRound(cfg: Config, b: nat, k: nat, m: Ring)
    requires Fits(cfg, b, k) && b >= 2 && RingInv(cfg, m) && m.writer == WIdle
    requires |m.hist| == Pow2(b - 1) + 1
    ensures Ix(cfg.cap, 0) == 0
    ensures var w := WrapRing(b, m);
            && w.cursor == Pow2(b - 1) + 1 && w.hist == m.hist
            && w.slots[0] == Slot(2, m.hist[Pow2(b - 1)])
  {
    assert Pow2(b) == 2 * Pow2(b - 1) && Pow2(b - 1) == 2 * Pow2(b - 2);
    LastLapStamp(cfg, b, k, m);
    hide Ix, RingInv;
    var n := Pow2(b - 1) + 1;
    DivUnique(n, Pow2(b), 0, n);
    DivUnique(2, Pow2(b), 0, 2);
    ModShift(2, 1, Pow2(b));
  }

  /** A new reader of that ring returns publication `2^(b-1)` as value 0. */
  lemma {:induction false} ReadsWrongValue(cfg: Config, s: State) returns (t: seq<Act>)
    requires Shaped(cfg, s) && s.readers == [NewReader(0, 0)] && s.ring.cursor != 0
    requires Ix(cfg.cap, 0) == 0 && s.ring.slots[0].stamp == 2 == Expected(cfg, 0)
    ensures var s' := Run(cfg, s, t);
            s'.ring == s.ring && |s'.readers| == 1 && s'.readers[0].log == [Value(s.ring.slots[0].data)]
  {
    hide Ix;
    var a := R(0, 0);
    var s1 := Next(cfg, s, a);
    assert s1 == s.(readers := [Reader(0, 0, RCheck, 0, 0, [])]);
    var s2 := Next(cfg, s1, a);
    assert s2 == s.(readers := [Reader(0, s.ring.cursor, RSeq1, 0, 0, [])]);
    RunSnoc(cfg, s, [], a);
    RunSnoc(cfg, s, [] + [a], a);
    hide Run, Next;
    t := AcceptsMatchingStamp(cfg, s2);
    RunAppend(cfg, s, [] + [a] + [a], t);
    t := [] + [a] + [a] + t;
  }

  /** The lag bound is sharp.  One publication beyond it, for every width of at least two
      bits, every capacity and all payloads, there is a run in which the code returns
      publication `2^(b-1)` as value 0. */
  lemma {:induction false} LagBoundSharp(b: nat, k: nat, nw: nat, vs: seq<Payload>) returns (t: seq<Act>)
    requires k < b && b >= 2 && |vs| == Pow2(b - 1) + 1
    requires forall p :: 0 <= p < |vs| ==> |vs[p]| == nw
    ensures var w := Run(Config(Pow2(k), nw, Bits(b)), Init(Config(Pow2(k), nw, Bits(b))), t);
            && w.ring.hist == vs
            && |w.readers| == 1 && w.readers[0].log == [Value(vs[Pow2(b - 1)])]
  {
    var cfg := Config(Pow2(k), nw, Unbounded);
    var narrow := Narrow(cfg, b);
    t := PublishAll(cfg, vs);
    WritersKeepLag(cfg, b, Init(cfg), t);
    WrapRefinesFromInit(cfg, b, k, t);
    Reachable(cfg, t);
    var s := Run(cfg, Init(cfg), t);
    StampComesRound(cfg, b, k, s.ring);
    var w := Run(narrow, Init(narrow), t);
    assert w.readers == [NewReader(0, 0)] by { InitWraps(cfg, b); }
    assert Expected(narrow, 0) == 2 by { ExpectedAtZero(b); }
    hide Run, Ix, Inv, Expected, Wrap;
    var u := ReadsWrongValue(narrow, w);
    RunAppend(narrow, Init(narrow), t, u);
    t := t + u;
  }

  lemma {:induction false} ExpectedAtZero(b: nat)
    requires b >= 2
    ensures Add(Bits(b), Mul(Bits(b), 0, 2), 2) == 2
  {
    assert Pow2(b) == 2 * Pow2(b - 1) && Pow2(b - 1) == 2 * Pow2(b - 2);
    DivUnique(0, Pow2(b), 0, 0);
    DivUnique(2, Pow2(b), 0, 2);
  }
}
