/** The seqlock on a `b`-bit sequence number refines the one on an unbounded number, as
    long as fewer than `2^(b-1)` writes fall between the two loads of a read; and beyond
    that a torn value does get through.
 */
module SeqLockWrap {
  import opened Words
  import opened Payloads
  import opened Threads
  import opened SeqLock
  import opened SeqLockTheorems

  function Narrow(cfg: Config, b: nat): Config {
    cfg.(wd := Bits(b))
  }

  function WrapCell(b: nat, m: Cell): Cell {
    m.(seqNo := m.seqNo % Pow2(b),
       writer := if m.writer.WIdle? then m.writer else m.writer.(s := m.writer.s % Pow2(b)))
  }

  function WrapReader(b: nat, c: Reader): Reader {
    if c.pc.LCopy? then c.(pc := c.pc.(s1 := c.pc.s1 % Pow2(b))) else c
  }

  function WrapLog(b: nat, log: seq<Got>): (r: seq<Got>)
    ensures |r| == |log|
  {
    seq(|log|, e requires 0 <= e < |log| => log[e].(stamp := log[e].stamp % Pow2(b)))
  }

  function Wrap(b: nat, s: State): State {
    State(WrapCell(b, s.cell),
          seq(|s.readers|, i requires 0 <= i < |s.readers| => WrapReader(b, s.readers[i])),
          WrapLog(b, s.log))
  }

  lemma {:induction false} WriterSquare(cfg: Config, b: nat, m: Cell, a: WriterAct)
    requires cfg.wd == Unbounded && ShapedCell(cfg, m)
    ensures WriterNext(Narrow(cfg, b), WrapCell(b, m), a) == WrapCell(b, WriterNext(cfg, m, a))
  {
    if !m.writer.WIdle? {
      ModLinear(1, m.writer.s, 1, Pow2(b));
      ModLinear(1, m.writer.s, 2, Pow2(b));
    }
  }

  /** The second load compares two different numbers that one word cannot tell apart. */
  predicate Ambiguous(cfg: Config, b: nat, m: Cell, c: Reader, j: nat) {
    && c.pc.LCopy? && Full(cfg.nw, c.pc.buf) && !(j < cfg.nw && j !in c.pc.buf)
    && m.seqNo != c.pc.s1 && (m.seqNo - c.pc.s1) % Pow2(b) == 0
  }

  /** The wrapping reader takes the step of the unbounded reader exactly when its second
      load is not ambiguous. */
  lemma {:induction false} ReaderSquare(cfg: Config, b: nat, m: Cell, c: Reader, j: nat, n: nat)
    requires cfg.wd == Unbounded && b > 0 && ShapedCell(cfg, m)
    ensures (var (w, wGot) := ReaderNext(Narrow(cfg, b), WrapCell(b, m), WrapReader(b, c), j, n);
             var (c', got) := ReaderNext(cfg, m, c, j, n);
             w == WrapReader(b, c') && wGot == WrapLog(b, got))
            <==> !Ambiguous(cfg, b, m, c, j)
  {
    ModMod(m.seqNo, 2, Pow2(b - 1));
    if c.pc.LCopy? {
      ModEq(m.seqNo, c.pc.s1, Pow2(b));
    }
  }

  /** The step is a reader's second load and it is ambiguous. */
  predicate StepAmbiguous(cfg: Config, b: nat, s: State, a: Act) {
    a.R? && a.i < |s.readers| && Ambiguous(cfg, b, s.cell, s.readers[a.i], a.j)
  }

  lemma {:induction false} NextSquare(cfg: Config, b: nat, s: State, a: Act)
    requires cfg.wd == Unbounded && b > 0 && Shaped(cfg, s)
    ensures Next(Narrow(cfg, b), Wrap(b, s), a) == Wrap(b, Next(cfg, s, a)) <==> !StepAmbiguous(cfg, b, s, a)
  {
    match a
    case W(wa) => WriterSquare(cfg, b, s.cell, wa);
    case R(i, j) =>
      if i < |s.readers| {
        ReaderSquare(cfg, b, s.cell, s.readers[i], j, |s.log|);
        var (c, got) := ReaderNext(cfg, s.cell, s.readers[i], j, |s.log|);
        var (w, wGot) := ReaderNext(Narrow(cfg, b), WrapCell(b, s.cell), WrapReader(b, s.readers[i]), j, |s.log|);
        hide Ambiguous, ReaderNext, WrapReader, WrapCell;
        WrapLogAppend(b, s.log, got);
        assert Wrap(b, s.(readers := s.readers[i := c])).readers == Wrap(b, s).readers[i := WrapReader(b, c)];
        assert Wrap(b, s).readers[i := w][i] == w;
        assert (WrapLog(b, s.log) + wGot)[|s.log|..] == wGot;
        assert (WrapLog(b, s.log) + WrapLog(b, got))[|s.log|..] == WrapLog(b, got);
      }
    case Clone(i) =>
      var c := Reader(LIdle, 0);
      assert Wrap(b, s.(readers := s.readers + [c])).readers == Wrap(b, s).readers + [WrapReader(b, c)];
  }

  lemma {:induction false} WrapLogAppend(b: nat, log: seq<Got>, got: seq<Got>)
    ensures WrapLog(b, log + got) == WrapLog(b, log) + WrapLog(b, got)
  {
  }

  /** No step of the run is ambiguous. */
  ghost predicate NeverAmbiguous(cfg: Config, b: nat, s: State, t: seq<Act>)
    requires Shaped(cfg, s)
    decreases |t|
  {
    t == [] ||
    var u := t[..|t| - 1];
    NeverAmbiguous(cfg, b, s, u) && !StepAmbiguous(cfg, b, Run(cfg, s, u), t[|t| - 1])
  }

  /** The wrapping run is the unbounded run with its sequence numbers reduced, at every
      moment. */
  ghost predicate Tracks(cfg: Config, b: nat, s: State, t: seq<Act>)
    requires Shaped(cfg, s)
  {
    forall m :: 0 <= m <= |t| ==> Before(Narrow(cfg, b), Wrap(b, s), t, m) == Wrap(b, Before(cfg, s, t, m))
  }

  lemma {:induction false} TracksSnoc(cfg: Config, b: nat, s: State, u: seq<Act>, a: Act)
    requires Shaped(cfg, s)
    ensures Tracks(cfg, b, s, u + [a]) <==>
              && Tracks(cfg, b, s, u)
              && Run(Narrow(cfg, b), Wrap(b, s), u + [a]) == Wrap(b, Run(cfg, s, u + [a]))
  {
    BeforeSnoc(cfg, s, u, a);
    BeforeSnoc(Narrow(cfg, b), Wrap(b, s), u, a);
    hide Run, Next, Before, Wrap;
  }

  /** Wrap-around, exactly, for runs of any length from any state: the machine on a wrapping
      number is the unbounded machine with its numbers reduced, at every moment of the run, if
      and only if no second load of the run is ambiguous. */
  lemma {:induction false} WrapExact(cfg: Config, b: nat, s: State, t: seq<Act>)
    requires cfg.wd == Unbounded && b > 0 && Shaped(cfg, s)
    ensures Tracks(cfg, b, s, t) <==> NeverAmbiguous(cfg, b, s, t)
    decreases |t|
  {
    if t != [] {
      var u, a := t[..|t| - 1], t[|t| - 1];
      assert t == u + [a];
      WrapExact(cfg, b, s, u);
      TracksSnoc(cfg, b, s, u, a);
      BeforeSnoc(cfg, s, u, a);
      BeforeSnoc(Narrow(cfg, b), Wrap(b, s), u, a);
      NextSquare(cfg, b, Run(cfg, s, u), a);
      hide Run, Next, StepAmbiguous, Wrap, Before;
    }
  }

  /** Along the run, fewer than `2^(b-1)` writes begin between a reader's first load and
      its second. */
  ghost predicate FewWrites(cfg: Config, b: nat, s: State, t: seq<Act>)
    requires Shaped(cfg, s) && b > 0
    decreases |t|
  {
    t == [] ||
    var u, a := t[..|t| - 1], t[|t| - 1];
    var s1 := Run(cfg, s, u);
    && FewWrites(cfg, b, s, u)
    && (a.R? && a.i < |s1.readers| && s1.readers[a.i].pc.LCopy? ==>
        |s1.cell.vers| - 1 - s1.readers[a.i].pc.s1 / 2 < Pow2(b - 1))
  }

  lemma {:induction false} FewWritesIsClear(cfg: Config, b: nat, s: State, t: seq<Act>)
    requires b > 0 && Inv(cfg, s) && FewWrites(cfg, b, s, t)
    ensures NeverAmbiguous(cfg, b, s, t)
    decreases |t|
  {
    if t != [] {
      var u, a := t[..|t| - 1], t[|t| - 1];
      var s1 := Run(cfg, s, u);
      FewWritesIsClear(cfg, b, s, u);
      RunInv(cfg, s, u);
      if a.R? && a.i < |s1.readers| && s1.readers[a.i].pc.LCopy? {
        var c := s1.readers[a.i];
        assert ReaderInv(cfg, s1.cell, c, s1.log);
        ModEq(s1.cell.seqNo, c.pc.s1, Pow2(b));
        FitEq(b, s1.cell.seqNo, c.pc.s1);
      }
      hide Run, LogInv;
    }
  }

  /** Version bound: within it, the code's machine is the unbounded machine with its
      sequence number reduced, at every moment, and every read returns the same value. */
  lemma {:induction false} WrapRefines(cfg: Config, b: nat, s: State, t: seq<Act>)
    requires b > 0 && Inv(cfg, s) && FewWrites(cfg, b, s, t)
    ensures Run(Narrow(cfg, b), Wrap(b, s), t) == Wrap(b, Run(cfg, s, t))
    ensures Tracks(cfg, b, s, t)
  {
    FewWritesIsClear(cfg, b, s, t);
    WrapExact(cfg, b, s, t);
    assert t[..|t|] == t;
    assert Before(cfg, s, t, |t|) == Run(cfg, s, t);
    assert Before(Narrow(cfg, b), Wrap(b, s), t, |t|) == Run(Narrow(cfg, b), Wrap(b, s), t);
    hide Run, Wrap, Inv;
  }

  lemma {:induction false} ShowsWraps(b: nat, m: Cell, got: Got)
    requires b > 0 && Shows(m, got)
    ensures Shows(WrapCell(b, m), got.(stamp := got.stamp % Pow2(b)))
  {
    ModMod(got.stamp, 2, Pow2(b - 1));
  }

  lemma {:induction false} IsCallWraps(
    cfg: Config, b: nat, s: State, t: seq<Act>, e: nat, i: nat, from: nat, k: nat)
    requires b > 0 && Inv(cfg, s) && FewWrites(cfg, b, s, t) && IsCall(cfg, s, t, e, i, from, k)
    ensures IsCall(Narrow(cfg, b), Wrap(b, s), t, e, i, from, k)
  {
    WrapRefines(cfg, b, s, t);
    var got := Run(cfg, s, t).log[e];
    hide Run, Before, FewWrites, Inv;
    assert InCall(Narrow(cfg, b), Wrap(b, s), t, i, from, k);
    hide InCall;
    assert Wrap(b, Before(cfg, s, t, k + 1)).log == Wrap(b, Before(cfg, s, t, k)).log + WrapLog(b, [got]);
  }

  lemma {:induction false} IsCurrentWraps(cfg: Config, b: nat, s: State, t: seq<Act>, got: Got, n: nat, k: nat)
    requires b > 0 && Inv(cfg, s) && FewWrites(cfg, b, s, t) && IsCurrent(cfg, s, t, got, n, k)
    ensures IsCurrent(Narrow(cfg, b), Wrap(b, s), t, got.(stamp := got.stamp % Pow2(b)), n, k)
  {
    WrapRefines(cfg, b, s, t);
    hide Run, Before, FewWrites, Inv;
    forall m | n <= m <= k
      ensures Shows(Wrap(b, Before(cfg, s, t, m)).cell, got.(stamp := got.stamp % Pow2(b)))
    {
      ShowsWraps(b, Before(cfg, s, t, m).cell, got);
    }
    hide Shows;
  }

  /** A read of the unbounded run, its call and the moments its value is current are those of
      the wrapping run. */
  lemma {:induction false} LinearizedWraps(
    cfg: Config, b: nat, s: State, t: seq<Act>, e: nat, i: nat, from: nat, n: nat, k: nat)
    requires b > 0 && Inv(cfg, s) && FewWrites(cfg, b, s, t) && Linearized(cfg, s, t, e, i, from, n, k)
    ensures Linearized(Narrow(cfg, b), Wrap(b, s), t, e, i, from, n, k)
  {
    WrapRefines(cfg, b, s, t);
    IsCallWraps(cfg, b, s, t, e, i, from, k);
    IsCurrentWraps(cfg, b, s, t, Run(cfg, s, t).log[e], n, k);
    hide Run, FewWrites, Inv, IsCurrent;
  }

  /** Linearizability on wrapping words: within the bound, every read of the code has a moment
      inside its call at which the cell held its value, whole and as the newest value
      written; so it is not older than any value whose write had begun when it began. */
  lemma {:induction false} WrappedReadsLinearize(cfg: Config, b: nat, v: Payload, t: seq<Act>, e: nat)
    returns (i: nat, from: nat, n: nat, k: nat)
    requires b > 0 && |v| == cfg.nw && cfg.wd == Unbounded && FewWrites(cfg, b, Init(cfg, v), t)
    requires e < |Run(Narrow(cfg, b), Init(Narrow(cfg, b), v), t).log|
    ensures var w0 := Init(Narrow(cfg, b), v);
            && Linearized(Narrow(cfg, b), w0, t, e, i, from, n, k)
            && Before(Narrow(cfg, b), w0, t, from).cell.vers <= Before(Narrow(cfg, b), w0, t, n).cell.vers
  {
    InitInv(cfg, v);
    DivUnique(0, Pow2(b), 0, 0);
    assert Wrap(b, Init(cfg, v)) == Init(Narrow(cfg, b), v);
    WrapRefines(cfg, b, Init(cfg, v), t);
    hide Run, IsCall, IsCurrent;
    i, from, n, k := ReadsLinearize(cfg, v, t, e);
    LinearizedWraps(cfg, b, Init(cfg, v), t, e, i, from, n, k);
    VersionsGrow(Narrow(cfg, b), Init(Narrow(cfg, b), v), t, from, n);
  }

  // ---------------------------------------------------------------- sharpness

  /** The versions `[0, 0]`, `[1, 1]`, and so on. */
  function Counting(n: nat): (h: seq<Payload>)
    ensures |h| == n
  {
    seq(n, i requires 0 <= i < n => [i, i])
  }

  /** The sequence number after `n` writes. */
  function NumberAfter(b: nat, n: nat): nat {
    (2 * n) % Pow2(b)
  }

  lemma {:induction false} NumberNext(b: nat, n: nat)
    ensures NumberAfter(b, 0) == 0
    ensures Add(Bits(b), NumberAfter(b, n), 2) == NumberAfter(b, n + 1)
  {
    DivUnique(0, Pow2(b), 0, 0);
    ModLinear(1, 2 * n, 2, Pow2(b));
  }

  /** `n` writes in a row, from sequence number 0 and version `[0, 0]`. */
  lemma {:induction false} WriteMany(cfg: Config, s: State, n: nat) returns (t: seq<Act>)
    requires Shaped(cfg, s) && cfg.nw == 2 && cfg.wd.Bits?
    requires s.cell == Cell(0, [0, 0], WIdle, [[0, 0]])
    ensures Run(cfg, s, t) == s.(cell := Cell(NumberAfter(cfg.wd.b, n), [n, n], WIdle, Counting(n + 1)))
  {
    if n == 0 {
      t := [];
      NumberNext(cfg.wd.b, 0);
      assert Counting(1) == [[0, 0]];
    } else {
      hide Run, NumberAfter, Counting;
      t := WriteMany(cfg, s, n - 1);
      WriteNext(cfg, Run(cfg, s, t), n - 1);
      RunAppend(cfg, s, t, Writes(SealStores(2, [n, n])));
      t := t + Writes(SealStores(2, [n, n]));
    }
  }

  lemma {:induction false} WriteNext(cfg: Config, s: State, n: nat)
    requires cfg.nw == 2 && cfg.wd.Bits?
    requires s.cell == Cell(NumberAfter(cfg.wd.b, n), [n, n], WIdle, Counting(n + 1))
    ensures Run(cfg, s, Writes(SealStores(2, [n + 1, n + 1]))) ==
            s.(cell := Cell(NumberAfter(cfg.wd.b, n + 1), [n + 1, n + 1], WIdle, Counting(n + 2)))
  {
    assert Counting(n + 1) + [[n + 1, n + 1]] == Counting(n + 2);
    NumberNext(cfg.wd.b, n);
    hide Run, WriterRun, SealStores, NumberAfter, Add, Counting;
    WriteEffect(cfg, s.cell, [n + 1, n + 1]);
    RunWrites(cfg, s, SealStores(2, [n + 1, n + 1]));
  }

  /** The bound is sharp.  With `2^(b-1)` writes between the loads, for every width, there is
      a run in which the code returns a value that was never written: its first word from
      version 0, its second from version `2^(b-1)`. */
  lemma {:induction false} VersionBoundSharp(b: nat) returns (t: seq<Act>)
    requires b > 0
    ensures var cfg := Config(2, Bits(b));
            var s := Run(cfg, Init(cfg, [0, 0]), t);
            && s.cell.vers == Counting(Pow2(b - 1) + 1)
            && |s.log| == 1 && s.log[0].value == [0, Pow2(b - 1)]
            && s.log[0].value !in s.cell.vers
  {
    var cfg := Config(2, Bits(b));
    var n := Pow2(b - 1);
    var s;
    t, s := HalfRead(cfg);
    var u := WriteMany(cfg, s, n);
    RunAppend(cfg, Init(cfg, [0, 0]), t, u);
    t, s := t + u, Run(cfg, s, u);
    DivUnique(2 * n, Pow2(b), 1, 0);
    var v;
    v, s := FinishRead(cfg, s, n);
    RunAppend(cfg, Init(cfg, [0, 0]), t, v);
    t := t + v;
    NeverWritten(n);
  }

  /** A reader has loaded sequence number 0 and copied the first word of version 0. */
  lemma {:induction false} HalfRead(cfg: Config) returns (t: seq<Act>, s: State)
    requires cfg.nw == 2
    ensures s == Run(cfg, Init(cfg, [0, 0]), t)
    ensures s == State(Cell(0, [0, 0], WIdle, [[0, 0]]), [Reader(LCopy(0, map[0 := 0]), 0)], [])
  {
    s := Init(cfg, [0, 0]);
    t := [];
    t, s := Then(cfg, t, s, R(0, 0));
    assert s.readers == [Reader(LSeq1, 0)];
    t, s := Then(cfg, t, s, R(0, 0));
    assert s.readers == [Reader(LCopy(0, map[]), 0)];
    t, s := Then(cfg, t, s, R(0, 0));
    assert s.readers == [Reader(LCopy(0, map[0 := 0]), 0)];
  }

  /** It copies the second word of version `n` and finds the sequence number it first loaded. */
  lemma {:induction false} FinishRead(cfg: Config, s: State, n: nat) returns (t: seq<Act>, s': State)
    requires cfg.nw == 2 && s.cell.seqNo == 0 && s.cell.data == [n, n] && s.cell.writer == WIdle
    requires s.readers == [Reader(LCopy(0, map[0 := 0]), 0)] && s.log == []
    ensures s' == Run(cfg, s, t) && s'.cell == s.cell && s'.log == [Got([0, n], 0, 0)]
  {
    var s1 := Next(cfg, s, R(0, 1));
    var buf := map[0 := 0, 1 := n];
    assert s1.readers == [Reader(LCopy(0, buf), 0)];
    assert Run(cfg, s, [R(0, 1)]) == s1 by { RunSnoc(cfg, s, [], R(0, 1)); }
    assert Assemble(2, buf) == [0, n];
    s' := Next(cfg, s1, R(0, 0));
    RunSnoc(cfg, s, [R(0, 1)], R(0, 0));
    t := [R(0, 1)] + [R(0, 0)];
  }

  /** Every version has two equal words. */
  lemma {:induction false} NeverWritten(n: nat)
    requires n > 0
    ensures [0, n] !in Counting(n + 1)
  {
  }

  lemma {:induction false} Then(cfg: Config, t: seq<Act>, s: State, a: Act) returns (t': seq<Act>, s': State)
    requires cfg.nw == 2 && s == Run(cfg, Init(cfg, [0, 0]), t)
    ensures t' == t + [a] && s' == Next(cfg, s, a) == Run(cfg, Init(cfg, [0, 0]), t')
  {
    RunSnoc(cfg, Init(cfg, [0, 0]), t, a);
    t', s' := t + [a], Next(cfg, s, a);
  }
}
