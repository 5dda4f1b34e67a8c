/** What every step of the seqlock keeps, and what follows for every interleaving. */
module SeqLockTheorems {
  import opened Words
  import opened Payloads
  import opened Threads
  import opened SeqLock

  /** An even sequence number `2k` means the cell holds version `k`, whole. */
  ghost predicate CellInv(cfg: Config, m: Cell) {
    && ShapedCell(cfg, m)
    && |m.vers| > 0
    && (forall p :: 0 <= p < |m.vers| ==> |m.vers[p]| == cfg.nw)
    && match m.writer
       case WIdle => m.seqNo == 2 * (|m.vers| - 1) && m.data == m.vers[|m.vers| - 1]
       case WLoaded(v, s) => s == m.seqNo == 2 * (|m.vers| - 1) && m.data == m.vers[|m.vers| - 1]
       case WCopying(v, s, done) =>
         && |m.vers| >= 2
         && s == 2 * (|m.vers| - 2) && m.seqNo == s + 1
         && v == m.vers[|m.vers| - 1]
         && (forall k :: k in done && k < cfg.nw ==> m.data[k] == v[k])
  }

  ghost predicate ReaderInv(cfg: Config, m: Cell, c: Reader, log: seq<Got>)
    requires ShapedCell(cfg, m)
  {
    && (!c.pc.LIdle? ==> c.since <= |log|)
    && match c.pc
       case LIdle => true
       case LSeq1 => true
       case LCopy(s1, buf) =>
         && s1 % 2 == 0 && 0 <= s1 <= m.seqNo && s1 / 2 < |m.vers| && |m.vers[s1 / 2]| == cfg.nw
         && (s1 == m.seqNo ==> forall k :: k in buf && k < cfg.nw ==> buf[k] == m.vers[s1 / 2][k])
         && (forall e :: 0 <= e < c.since ==> log[e].stamp <= s1)
  }

  /** Every read so far returned one whole version, at least as new as every read that had
      returned when it began. */
  ghost predicate LogInv(m: Cell, log: seq<Got>) {
    && (forall e :: 0 <= e < |log| ==>
        && log[e].stamp % 2 == 0 && 0 <= log[e].stamp <= m.seqNo && log[e].stamp / 2 < |m.vers|
        && log[e].value == m.vers[log[e].stamp / 2]
        && log[e].since <= e)
    && (forall d, e :: 0 <= d < e < |log| && d < log[e].since ==> log[d].stamp <= log[e].stamp)
  }

  ghost predicate Inv(cfg: Config, s: State) {
    && cfg.wd == Unbounded
    && CellInv(cfg, s.cell)
    && LogInv(s.cell, s.log)
    && (forall i :: 0 <= i < |s.readers| ==> ReaderInv(cfg, s.cell, s.readers[i], s.log))
  }

  lemma {:induction false} WriterKeepsCell(cfg: Config, m: Cell, a: WriterAct)
    requires CellInv(cfg, m) && cfg.wd == Unbounded
    ensures var m' := WriterNext(cfg, m, a);
            CellInv(cfg, m') && m.seqNo <= m'.seqNo && m.vers <= m'.vers
  {
    var m' := WriterNext(cfg, m, a);
    if m.writer.WCopying? && m'.writer.WIdle? {
      assert m'.data == m.writer.v;
    }
  }

  lemma {:induction false} ReaderKeeps(cfg: Config, m: Cell, c: Reader, j: nat, log: seq<Got>)
    requires CellInv(cfg, m) && LogInv(m, log) && ReaderInv(cfg, m, c, log)
    ensures var (c', got) := ReaderNext(cfg, m, c, j, |log|);
            ReaderInv(cfg, m, c', log + got) && LogInv(m, log + got)
  {
    if c.pc.LCopy? && Full(cfg.nw, c.pc.buf) && m.seqNo == c.pc.s1 {
      assert Assemble(cfg.nw, c.pc.buf) == m.vers[c.pc.s1 / 2];
    }
  }

  lemma {:induction false} WriterKeepsLog(cfg: Config, m: Cell, a: WriterAct, log: seq<Got>)
    requires CellInv(cfg, m) && cfg.wd == Unbounded && LogInv(m, log)
    ensures LogInv(WriterNext(cfg, m, a), log)
  {
    WriterKeepsCell(cfg, m, a);
    hide WriterNext;
  }

  lemma {:induction false} WriterKeepsReader(cfg: Config, m: Cell, a: WriterAct, c: Reader, log: seq<Got>)
    requires CellInv(cfg, m) && cfg.wd == Unbounded && ReaderInv(cfg, m, c, log)
    ensures ReaderInv(cfg, WriterNext(cfg, m, a), c, log)
  {
    WriterKeepsCell(cfg, m, a);
    hide WriterNext;
  }

  /** Another reader's result changes nothing for a reader. */
  lemma {:induction false} LogExtends(cfg: Config, m: Cell, c: Reader, log: seq<Got>, got: seq<Got>)
    requires CellInv(cfg, m) && ReaderInv(cfg, m, c, log)
    ensures ReaderInv(cfg, m, c, log + got)
  {
  }

  lemma {:induction false} NextInv(cfg: Config, s: State, a: Act)
    requires Inv(cfg, s)
    ensures Inv(cfg, Next(cfg, s, a))
  {
    match a
    case W(wa) =>
      WriterKeepsCell(cfg, s.cell, wa);
      WriterKeepsLog(cfg, s.cell, wa, s.log);
      forall i | 0 <= i < |s.readers|
        ensures ReaderInv(cfg, WriterNext(cfg, s.cell, wa), s.readers[i], s.log)
      {
        WriterKeepsReader(cfg, s.cell, wa, s.readers[i], s.log);
      }
    case R(i, j) =>
      if i < |s.readers| {
        ReaderKeeps(cfg, s.cell, s.readers[i], j, s.log);
        var (c, got) := ReaderNext(cfg, s.cell, s.readers[i], j, |s.log|);
        forall k | 0 <= k < |s.readers|
          ensures ReaderInv(cfg, s.cell, s.readers[k], s.log + got)
        {
          LogExtends(cfg, s.cell, s.readers[k], s.log, got);
        }
        hide ReaderInv, ReaderNext, CellInv, LogInv;
      }
    case Clone(_) =>
  }

  lemma {:induction false} RunInv(cfg: Config, s: State, t: seq<Act>)
    requires Inv(cfg, s)
    ensures Inv(cfg, Run(cfg, s, t))
    decreases |t|
  {
    if t != [] {
      RunInv(cfg, s, t[..|t| - 1]);
      NextInv(cfg, Run(cfg, s, t[..|t| - 1]), t[|t| - 1]);
    }
  }

  lemma {:induction false} InitInv(cfg: Config, v: Payload)
    requires |v| == cfg.nw && cfg.wd == Unbounded
    ensures Inv(cfg, Init(cfg, v))
  {
  }

  lemma {:induction false} RunGrows(cfg: Config, s: State, t: seq<Act>)
    requires Inv(cfg, s)
    ensures var s' := Run(cfg, s, t);
            && s.cell.seqNo <= s'.cell.seqNo && s.cell.vers <= s'.cell.vers
            && s.log <= s'.log && |s.readers| <= |s'.readers|
    decreases |t|
  {
    if t != [] {
      var u, a := t[..|t| - 1], t[|t| - 1];
      RunGrows(cfg, s, u);
      RunInv(cfg, s, u);
      if a.W? {
        WriterKeepsCell(cfg, Run(cfg, s, u).cell, a.wa);
      }
    }
  }

  // ------------------------------------------------------------ main results

  /** The state before step `m` of the run. */
  function Before(cfg: Config, s: State, t: seq<Act>, m: nat): (r: State)
    requires Shaped(cfg, s) && m <= |t|
    ensures Shaped(cfg, r)
  {
    Run(cfg, s, t[..m])
  }

  /** At step `b` reader `i` begins a call, and it is in that call at every moment up to `k`. */
  ghost predicate InCall(cfg: Config, s: State, t: seq<Act>, i: nat, b: nat, k: nat)
    requires Shaped(cfg, s) && b < k <= |t|
  {
    && t[b].R? && t[b].i == i
    && i < |Before(cfg, s, t, b).readers| && Before(cfg, s, t, b).readers[i].pc.LIdle?
    && forall m :: b < m <= k ==>
         && i < |Before(cfg, s, t, m).readers|
         && !Before(cfg, s, t, m).readers[i].pc.LIdle?
         && Before(cfg, s, t, m).readers[i].since == |Before(cfg, s, t, b).log|
  }

  /** Entry `e` of the log is a call of reader `i` that began at step `b` and returned at
      step `k`. */
  ghost predicate IsCall(cfg: Config, s: State, t: seq<Act>, e: nat, i: nat, b: nat, k: nat)
    requires Shaped(cfg, s)
  {
    && b < k < |t| && InCall(cfg, s, t, i, b, k)
    && t[k].R? && t[k].i == i
    && e < |Run(cfg, s, t).log|
    && |Before(cfg, s, t, k).log| == e
    && Before(cfg, s, t, k + 1).log == Before(cfg, s, t, k).log + [Run(cfg, s, t).log[e]]
    && Run(cfg, s, t).log[e].since == |Before(cfg, s, t, b).log|
  }

  /** The cell holds the value of `got`, whole: it is the last value whose write has begun,
      and its write is complete. */
  predicate Shows(m: Cell, got: Got) {
    && m.seqNo == got.stamp && got.stamp % 2 == 0 && !m.writer.WCopying?
    && m.vers != [] && got.value == m.vers[|m.vers| - 1] == m.data
  }

  /** The cell shows `got` from moment `n` to moment `k`, and no write begins meanwhile. */
  ghost predicate IsCurrent(cfg: Config, s: State, t: seq<Act>, got: Got, n: nat, k: nat)
    requires Shaped(cfg, s)
  {
    && n <= k <= |t|
    && forall m :: n <= m <= k ==>
         && Shows(Before(cfg, s, t, m).cell, got)
         && Before(cfg, s, t, m).cell.vers == Before(cfg, s, t, n).cell.vers
  }

  /** Entry `e` of the log takes effect at moment `n`, inside its call, and until it returns. */
  ghost predicate Linearized(cfg: Config, s: State, t: seq<Act>, e: nat, i: nat, b: nat, n: nat, k: nat)
    requires Shaped(cfg, s)
  {
    && b < n && IsCall(cfg, s, t, e, i, b, k)
    && IsCurrent(cfg, s, t, Run(cfg, s, t).log[e], n, k)
  }

  lemma {:induction false} BeforeSnoc(cfg: Config, s: State, u: seq<Act>, a: Act)
    requires Shaped(cfg, s)
    ensures forall m :: 0 <= m <= |u| ==> Before(cfg, s, u + [a], m) == Before(cfg, s, u, m)
    ensures Before(cfg, s, u, |u|) == Run(cfg, s, u)
    ensures Before(cfg, s, u + [a], |u| + 1) == Run(cfg, s, u + [a]) == Next(cfg, Run(cfg, s, u), a)
  {
    RunSnoc(cfg, s, u, a);
    assert (u + [a])[..|u| + 1] == u + [a];
    assert u[..|u|] == u;
    forall m | 0 <= m <= |u|
      ensures Before(cfg, s, u + [a], m) == Before(cfg, s, u, m)
    {
      assert (u + [a])[..m] == u[..m];
    }
  }

  ghost predicate AllIdle(s: State) {
    forall i :: 0 <= i < |s.readers| ==> s.readers[i].pc.LIdle?
  }

  /** A reader in a call stays in it until it returns. */
  lemma {:induction false} InCallSnoc(cfg: Config, s: State, u: seq<Act>, a: Act, i: nat, b: nat)
    requires Shaped(cfg, s) && b < |u| && InCall(cfg, s, u, i, b, |u|)
    ensures var s' := Run(cfg, s, u + [a]);
            i < |s'.readers| && (!s'.readers[i].pc.LIdle? ==> InCall(cfg, s, u + [a], i, b, |u| + 1))
  {
    BeforeSnoc(cfg, s, u, a);
    var c, c' := Run(cfg, s, u).readers[i], Next(cfg, Run(cfg, s, u), a).readers[i];
    assert !c'.pc.LIdle? ==> c'.since == c.since;
    hide Run, Next;
  }

  /** The step that begins a call. */
  lemma {:induction false} InCallStart(cfg: Config, s: State, u: seq<Act>, a: Act, i: nat)
    requires Shaped(cfg, s)
    requires i < |Run(cfg, s, u).readers| ==> Run(cfg, s, u).readers[i].pc.LIdle?
    requires i < |Run(cfg, s, u + [a]).readers| && !Run(cfg, s, u + [a]).readers[i].pc.LIdle?
    ensures InCall(cfg, s, u + [a], i, |u|, |u| + 1) && Run(cfg, s, u + [a]).readers[i].pc.LSeq1?
  {
    BeforeSnoc(cfg, s, u, a);
    hide Run;
  }

  /** A reader in a call began it at some step `b`; if it is copying, the number it loaded
      was the cell's at some later moment `n`. */
  lemma {:induction false} CallBegan(cfg: Config, s: State, t: seq<Act>, i: nat) returns (b: nat, n: nat)
    requires Shaped(cfg, s) && AllIdle(s)
    requires i < |Run(cfg, s, t).readers| && !Run(cfg, s, t).readers[i].pc.LIdle?
    ensures b < |t| && InCall(cfg, s, t, i, b, |t|)
    ensures b < n <= |t|
    ensures Run(cfg, s, t).readers[i].pc.LCopy? ==>
              Before(cfg, s, t, n).cell.seqNo == Run(cfg, s, t).readers[i].pc.s1
    decreases |t|
  {
    assert t != [];
    var u, a := t[..|t| - 1], t[|t| - 1];
    var s1 := Run(cfg, s, u);
    assert t == u + [a];
    if i < |s1.readers| && !s1.readers[i].pc.LIdle? {
      b, n := CallBegan(cfg, s, u, i);
      InCallSnoc(cfg, s, u, a, i, b);
      BeforeSnoc(cfg, s, u, a);
      hide Run, InCall;
      if a.R? && a.i == i && s1.readers[i].pc.LSeq1? {
        n := |u|;
      }
    } else {
      b, n := |u|, |t|;
      InCallStart(cfg, s, u, a, i);
    }
  }

  /** When a later load finds the even number of an earlier one, the cell has not moved
      between: it holds version `seqNo / 2` at every moment. */
  lemma {:induction false} CurrentThroughout(cfg: Config, s: State, t: seq<Act>, n: nat, m: nat)
    requires Inv(cfg, s) && n <= m <= |t|
    requires Before(cfg, s, t, n).cell.seqNo == Run(cfg, s, t).cell.seqNo
    requires Before(cfg, s, t, n).cell.seqNo % 2 == 0
    ensures var cell := Before(cfg, s, t, m).cell;
            && cell.seqNo == Run(cfg, s, t).cell.seqNo && !cell.writer.WCopying?
            && cell.vers == Before(cfg, s, t, n).cell.vers
            && 0 < |cell.vers| == cell.seqNo / 2 + 1 && cell.data == cell.vers[|cell.vers| - 1]
  {
    hide Run, ReaderInv, LogInv;
    MomentsGrow(cfg, s, t, n, m);
    MomentsGrow(cfg, s, t, m, |t|);
    assert t[..|t|] == t;
    RunInv(cfg, s, t[..n]);
    RunInv(cfg, s, t[..m]);
  }

  lemma {:induction false} MomentsGrow(cfg: Config, s: State, t: seq<Act>, m: nat, n: nat)
    requires Inv(cfg, s) && m <= n <= |t|
    ensures Before(cfg, s, t, m).cell.seqNo <= Before(cfg, s, t, n).cell.seqNo
    ensures Before(cfg, s, t, m).cell.vers <= Before(cfg, s, t, n).cell.vers
  {
    assert t[..n] == t[..m] + t[m..n];
    RunInv(cfg, s, t[..m]);
    RunAppend(cfg, s, t[..m], t[m..n]);
    hide Inv;
    RunGrows(cfg, Run(cfg, s, t[..m]), t[m..n]);
  }

  /** The step that returns a read: its call, and the number its first load found. */
  lemma {:induction false} ReturnIsCall(cfg: Config, s: State, u: seq<Act>, i: nat, j: nat) returns (b: nat, n: nat)
    requires Inv(cfg, s) && AllIdle(s) && i < |Run(cfg, s, u).readers|
    requires |Run(cfg, s, u + [R(i, j)]).log| > |Run(cfg, s, u).log|
    ensures b < n <= |u| && IsCall(cfg, s, u + [R(i, j)], |Run(cfg, s, u).log|, i, b, |u|)
    ensures var s1, got := Run(cfg, s, u), Run(cfg, s, u + [R(i, j)]).log[|Run(cfg, s, u).log|];
            && Before(cfg, s, u, n).cell.seqNo == got.stamp == s1.cell.seqNo && got.stamp % 2 == 0
            && 0 <= got.stamp / 2 < |s1.cell.vers| && got.value == s1.cell.vers[got.stamp / 2]
  {
    var t, s1 := u + [R(i, j)], Run(cfg, s, u);
    BeforeSnoc(cfg, s, u, R(i, j));
    RunInv(cfg, s, u);
    NextInv(cfg, s1, R(i, j));
    assert LogInv(s1.cell, Run(cfg, s, t).log);
    b, n := CallBegan(cfg, s, u, i);
    var e := |s1.log|;
    var got := Run(cfg, s, t).log[e];
    assert got.stamp == s1.readers[i].pc.s1 == s1.cell.seqNo && got.since == s1.readers[i].since;
    assert Run(cfg, s, t).log == s1.log + [got];
    hide Run, Inv, Next;
    assert InCall(cfg, s, t, i, b, |u|);
    assert Before(cfg, s, t, |u|) == s1;
  }

  /** Its value has been current since its first load. */
  lemma {:induction false} ReturnIsCurrent(cfg: Config, s: State, u: seq<Act>, i: nat, j: nat) returns (b: nat, n: nat)
    requires Inv(cfg, s) && AllIdle(s) && i < |Run(cfg, s, u).readers|
    requires |Run(cfg, s, u + [R(i, j)]).log| > |Run(cfg, s, u).log|
    ensures Linearized(cfg, s, u + [R(i, j)], |Run(cfg, s, u).log|, i, b, n, |u|)
  {
    hide Run, Next, IsCall, Before;
    b, n := ReturnIsCall(cfg, s, u, i, j);
    forall m | n <= m <= |u|
      ensures var cell := Before(cfg, s, u, m).cell;
              && cell.seqNo == Run(cfg, s, u).cell.seqNo && !cell.writer.WCopying?
              && cell.vers == Before(cfg, s, u, n).cell.vers
              && |cell.vers| == cell.seqNo / 2 + 1 && cell.data == cell.vers[|cell.vers| - 1]
    {
      CurrentThroughout(cfg, s, u, n, m);
    }
    BeforeSnoc(cfg, s, u, R(i, j));
    hide Inv;
  }

  lemma {:induction false} IsCallSnoc(cfg: Config, s: State, u: seq<Act>, a: Act, e: nat, i: nat, b: nat, k: nat)
    requires Shaped(cfg, s) && IsCall(cfg, s, u, e, i, b, k)
    ensures IsCall(cfg, s, u + [a], e, i, b, k)
    ensures Run(cfg, s, u + [a]).log[e] == Run(cfg, s, u).log[e]
  {
    BeforeSnoc(cfg, s, u, a);
    assert Run(cfg, s, u).log <= Next(cfg, Run(cfg, s, u), a).log;
    hide Run, Next, Before;
    assert InCall(cfg, s, u + [a], i, b, k);
    hide InCall;
  }

  lemma {:induction false} IsCurrentSnoc(cfg: Config, s: State, u: seq<Act>, a: Act, got: Got, n: nat, k: nat)
    requires Shaped(cfg, s) && IsCurrent(cfg, s, u, got, n, k)
    ensures IsCurrent(cfg, s, u + [a], got, n, k)
  {
    BeforeSnoc(cfg, s, u, a);
    hide Run, Next, Before, Shows;
    assert Before(cfg, s, u + [a], n) == Before(cfg, s, u, n);
  }

  /** Every read that returns in a run from `s`, where no read is in progress, has a moment
      inside its call at which its value was current. */
  lemma {:induction false} ReadIsCurrent(cfg: Config, s: State, t: seq<Act>, e: nat)
    returns (i: nat, b: nat, n: nat, k: nat)
    requires Inv(cfg, s) && AllIdle(s) && |s.log| <= e < |Run(cfg, s, t).log|
    ensures Linearized(cfg, s, t, e, i, b, n, k)
    decreases |t|
  {
    var u, a := t[..|t| - 1], t[|t| - 1];
    assert t == u + [a];
    RunSnoc(cfg, s, u, a);
    if e < |Run(cfg, s, u).log| {
      i, b, n, k := ReadIsCurrent(cfg, s, u, e);
      IsCallSnoc(cfg, s, u, a, e, i, b, k);
      IsCurrentSnoc(cfg, s, u, a, Run(cfg, s, u).log[e], n, k);
    } else {
      i, k := a.i, |u|;
      b, n := ReturnIsCurrent(cfg, s, u, a.i, a.j);
    }
  }

  /** The version of a read, from the moment it takes effect: it is not older than any whose
      write had begun when the read began, nor than any that a read that had returned by then
      returned. */
  lemma {:induction false} LinearizedVersion(
    cfg: Config, s: State, t: seq<Act>, e: nat, i: nat, b: nat, n: nat, k: nat)
    requires Inv(cfg, s) && Linearized(cfg, s, t, e, i, b, n, k)
    ensures var s', got := Run(cfg, s, t), Run(cfg, s, t).log[e];
            && 0 <= got.stamp / 2 < |s'.cell.vers| && got.value == s'.cell.vers[got.stamp / 2]
            && |Before(cfg, s, t, b).cell.vers| - 1 <= got.stamp / 2 == |Before(cfg, s, t, n).cell.vers| - 1
            && got.since == |Before(cfg, s, t, b).log| <= |s'.log|
            && (forall d :: 0 <= d < got.since ==> s'.log[d].stamp <= got.stamp)
  {
    RunInv(cfg, s, t);
    RunInv(cfg, s, t[..n]);
    VersionsGrow(cfg, s, t, b, n);
    VersionsGrow(cfg, s, t, b, |t|);
    assert t[..|t|] == t;
    hide Run;
    assert Shows(Before(cfg, s, t, n).cell, Run(cfg, s, t).log[e]);
  }

  /** Linearizability.  Every read of every run has a moment between its call and its return
      at which the cell held its value, whole and as the newest value written, and it held it
      until the read returned.  So the version it returns is not older than any whose write
      had begun when the read began, nor than any an earlier read returned. */
  lemma {:induction false} ReadsLinearize(cfg: Config, v: Payload, t: seq<Act>, e: nat)
    returns (i: nat, b: nat, n: nat, k: nat)
    requires |v| == cfg.nw && cfg.wd == Unbounded && e < |Run(cfg, Init(cfg, v), t).log|
    ensures Linearized(cfg, Init(cfg, v), t, e, i, b, n, k)
    ensures var s, got := Run(cfg, Init(cfg, v), t), Run(cfg, Init(cfg, v), t).log[e];
            && s.cell.vers != [] && s.cell.vers[0] == v
            && 0 <= got.stamp / 2 < |s.cell.vers| && got.value == s.cell.vers[got.stamp / 2]
            && |Before(cfg, Init(cfg, v), t, b).cell.vers| - 1 <= got.stamp / 2
            && (forall d :: 0 <= d < got.since <= |s.log| ==> s.log[d].stamp <= got.stamp)
  {
    InitInv(cfg, v);
    i, b, n, k := ReadIsCurrent(cfg, Init(cfg, v), t, e);
    LinearizedVersion(cfg, Init(cfg, v), t, e, i, b, n, k);
    RunGrows(cfg, Init(cfg, v), t);
  }

  /** Versions and returned reads are only ever added, on words of any width. */
  lemma {:induction false} VersionsGrow(cfg: Config, s: State, t: seq<Act>, m: nat, n: nat)
    requires Shaped(cfg, s) && m <= n <= |t|
    ensures Before(cfg, s, t, m).cell.vers <= Before(cfg, s, t, n).cell.vers
    ensures Before(cfg, s, t, m).log <= Before(cfg, s, t, n).log
    decreases n
  {
    if m < n {
      VersionsGrow(cfg, s, t, m, n - 1);
      assert t[..n][..n - 1] == t[..n - 1];
    }
  }

  /** Reads take effect in an order that respects their calls, on words of any width: a read
      that had returned when another began was done before the other's call, and saw no
      version the other did not. */
  lemma {:induction false} ReadsInOrder(
    cfg: Config, s: State, t: seq<Act>,
    d: nat, i: nat, b: nat, n: nat, k: nat, e: nat, i': nat, b': nat, n': nat, k': nat)
    requires Shaped(cfg, s) && Linearized(cfg, s, t, d, i, b, n, k) && Linearized(cfg, s, t, e, i', b', n', k')
    requires d < Run(cfg, s, t).log[e].since
    ensures k < b' && Before(cfg, s, t, n).cell.vers <= Before(cfg, s, t, n').cell.vers
  {
    if b' <= k {
      VersionsGrow(cfg, s, t, b', k);
    }
    VersionsGrow(cfg, s, t, n, n');
  }

  // --------------------------------------------------------------- solo reads

  /** The reader runs alone until it returns; `js` chooses the words. */
  function Solo(cfg: Config, m: Cell, c: Reader, js: seq<nat>): (Reader, seq<Got>)
    requires ShapedCell(cfg, m)
    decreases |js|
  {
    if js == [] || c.pc.LIdle? then (c, [])
    else
      var (c', got) := ReaderNext(cfg, m, c, js[0], 0);
      if got != [] then (c', got) else Solo(cfg, m, c', js[1..])
  }

  predicate Productive(cfg: Config, c: Reader, j: nat) {
    c.pc.LCopy? ==> Full(cfg.nw, c.pc.buf) || (j < cfg.nw && j !in c.pc.buf)
  }

  ghost predicate AllProductive(cfg: Config, m: Cell, c: Reader, js: seq<nat>)
    requires ShapedCell(cfg, m)
    decreases |js|
  {
    js == [] || c.pc.LIdle? ||
    (Productive(cfg, c, js[0]) && AllProductive(cfg, m, ReaderNext(cfg, m, c, js[0], 0).0, js[1..]))
  }

  /** Steps left: the current pass, and one more if it is already stale. */
  function Fuel(cfg: Config, m: Cell, c: Reader): nat {
    match c.pc
    case LIdle => 0
    case LSeq1 => cfg.nw + 2
    case LCopy(s1, buf) => |Missing(cfg.nw, buf.Keys)| + 1 + (if m.seqNo == s1 then 0 else cfg.nw + 2)
  }

  /** One productive step of a reader that runs alone: it returns the current version, or
      it has less to do. */
  lemma {:induction false} SoloStep(cfg: Config, m: Cell, c: Reader, j: nat, log: seq<Got>)
    requires CellInv(cfg, m) && LogInv(m, log) && ReaderInv(cfg, m, c, log) && !c.pc.LIdle?
    requires m.seqNo % 2 == 0 && Productive(cfg, c, j)
    ensures var (c', got) := ReaderNext(cfg, m, c, j, 0);
            if got == [] then
              !c'.pc.LIdle? && c'.since == c.since && ReaderInv(cfg, m, c', log) && Fuel(cfg, m, c') < Fuel(cfg, m, c)
            else got == [Got(m.vers[|m.vers| - 1], m.seqNo, c.since)]
  {
    MissingAll(cfg.nw);
    if c.pc.LCopy? && j < cfg.nw && j !in c.pc.buf {
      MissingNext(cfg.nw, c.pc.buf.Keys, j);
      assert c.pc.buf[j := m.data[j]].Keys == c.pc.buf.Keys + {j};
    } else if c.pc.LCopy? && m.seqNo == c.pc.s1 {
      assert Assemble(cfg.nw, c.pc.buf) == m.vers[c.pc.s1 / 2];
    }
  }

  /** Solo termination.  From any program point, while the writer stands still and is not
      between its odd and its even store, a reader that runs alone returns within `Fuel`
      steps, and it returns the current version. */
  lemma {:induction false} SoloTerminates(cfg: Config, m: Cell, c: Reader, js: seq<nat>, log: seq<Got>)
    requires CellInv(cfg, m) && LogInv(m, log) && ReaderInv(cfg, m, c, log) && !c.pc.LIdle?
    requires m.seqNo % 2 == 0 && AllProductive(cfg, m, c, js)
    ensures |js| >= Fuel(cfg, m, c) ==> |Solo(cfg, m, c, js).1| == 1
    ensures |Solo(cfg, m, c, js).1| > 0 ==>
              Solo(cfg, m, c, js).1 == [Got(m.vers[|m.vers| - 1], m.seqNo, c.since)]
    decreases |js|
  {
    if js != [] {
      SoloStep(cfg, m, c, js[0], log);
      var (c', got) := ReaderNext(cfg, m, c, js[0], 0);
      if got == [] {
        SoloTerminates(cfg, m, c', js[1..], log);
      }
    }
  }

  /** Mid-write no reader returns, whatever it is doing: the number it may have loaded is
      even and the cell's is odd. */
  lemma {:induction false} OddNeverReturns(cfg: Config, m: Cell, c: Reader, js: seq<nat>)
    requires ShapedCell(cfg, m) && m.seqNo % 2 == 1 && (c.pc.LCopy? ==> c.pc.s1 % 2 == 0)
    ensures Solo(cfg, m, c, js).1 == []
    decreases |js|
  {
    if js != [] {
      OddNeverReturns(cfg, m, ReaderNext(cfg, m, c, js[0], 0).0, js[1..]);
    }
  }

  lemma {:induction false} FuelBound(cfg: Config, m: Cell, c: Reader)
    ensures Fuel(cfg, m, c) <= 2 * cfg.nw + 3
  {
    if c.pc.LCopy? {
      MissingAtMost(cfg.nw, c.pc.buf.Keys);
    }
  }

  /** The exact condition of solo termination: a reader in a call that runs alone for
      `2 nw + 3` steps returns if and only if the writer is not between its odd and its even
      store, and then it returns the current version. */
  lemma {:induction false} SoloReturns(cfg: Config, m: Cell, c: Reader, js: seq<nat>, log: seq<Got>)
    requires CellInv(cfg, m) && LogInv(m, log) && ReaderInv(cfg, m, c, log) && !c.pc.LIdle?
    requires AllProductive(cfg, m, c, js) && |js| >= 2 * cfg.nw + 3
    ensures Solo(cfg, m, c, js).1 == [Got(m.vers[|m.vers| - 1], m.seqNo, c.since)] <==> !m.writer.WCopying?
    ensures Solo(cfg, m, c, js).1 == [] <==> m.writer.WCopying?
  {
    if m.writer.WCopying? {
      OddNeverReturns(cfg, m, c, js);
    } else {
      FuelBound(cfg, m, c);
      SoloTerminates(cfg, m, c, js, log);
    }
  }

  // ------------------------------------------------------------ reads among writes

  /** Every step of reader `i` in the run is productive. */
  ghost predicate OwnProductive(cfg: Config, s: State, t: seq<Act>, i: nat)
    requires Shaped(cfg, s)
    decreases |t|
  {
    t == [] ||
    var u, a := t[..|t| - 1], t[|t| - 1];
    && OwnProductive(cfg, s, u, i)
    && (a.R? && a.i == i ==> i < |Run(cfg, s, u).readers| && Productive(cfg, Run(cfg, s, u).readers[i], a.j))
  }

  /** No step of reader `i` in the run returns a read. */
  ghost predicate NoReturn(cfg: Config, s: State, t: seq<Act>, i: nat)
    requires Shaped(cfg, s)
    decreases |t|
  {
    t == [] ||
    var u, a := t[..|t| - 1], t[|t| - 1];
    && NoReturn(cfg, s, u, i)
    && (a.R? && a.i == i ==> |Run(cfg, s, t).log| == |Run(cfg, s, u).log|)
  }

  /** The loads of reader `i` in the run that find an odd number. */
  function Spins(cfg: Config, s: State, t: seq<Act>, i: nat): nat
    requires Shaped(cfg, s)
    decreases |t|
  {
    if t == [] then 0
    else
      var u, a := t[..|t| - 1], t[|t| - 1];
      var s1 := Run(cfg, s, u);
      Spins(cfg, s, u, i) + (if a.R? && a.i == i < |s1.readers| && Spinning(s1.cell, s1.readers[i]) then 1 else 0)
  }

  predicate Spinning(m: Cell, c: Reader) {
    c.pc.LSeq1? && m.seqNo % 2 == 1
  }

  /** The steps of `k` passes of the loop. */
  function Passes(cfg: Config, k: int): int {
    k * (cfg.nw + 2)
  }

  lemma {:induction false} PassesNext(cfg: Config, k: int)
    ensures Passes(cfg, k + 1) == Passes(cfg, k) + cfg.nw + 2
    ensures Passes(cfg, 0) == 0
  {
  }

  /** The steps a reader has left of its call, the next one if it is idle. */
  function CallFuel(cfg: Config, m: Cell, c: Reader): (f: nat)
    ensures f > 0
  {
    if c.pc.LIdle? then cfg.nw + 3 else Fuel(cfg, m, c)
  }

  /** A step of the writer makes a copy stale only when it begins to write a value. */
  lemma {:induction false} WriterDelays(cfg: Config, m: Cell, a: WriterAct, c: Reader, log: seq<Got>)
    requires CellInv(cfg, m) && cfg.wd == Unbounded && ReaderInv(cfg, m, c, log)
    ensures var m' := WriterNext(cfg, m, a);
            && |m.vers| <= |m'.vers| <= |m.vers| + 1
            && CallFuel(cfg, m', c) <= CallFuel(cfg, m, c) + (if |m'.vers| > |m.vers| then cfg.nw + 2 else 0)
  {
  }

  /** A productive step that does not return uses fuel, unless it finds an odd number. */
  lemma {:induction false} OwnStepUsesFuel(cfg: Config, m: Cell, c: Reader, j: nat, n: nat)
    requires ShapedCell(cfg, m) && Productive(cfg, c, j)
    ensures var (c', got) := ReaderNext(cfg, m, c, j, n);
            got == [] ==>
              CallFuel(cfg, m, c') + 1 <= CallFuel(cfg, m, c) + (if Spinning(m, c) then 1 else 0)
  {
    MissingAll(cfg.nw);
    if c.pc.LCopy? && j < cfg.nw && j !in c.pc.buf {
      MissingNext(cfg.nw, c.pc.buf.Keys, j);
      assert c.pc.buf[j := m.data[j]].Keys == c.pc.buf.Keys + {j};
    }
  }

  lemma {:induction false} StepCost(cfg: Config, s: State, a: Act, i: nat)
    requires Inv(cfg, s) && i < |s.readers|
    requires a.R? && a.i == i ==> Productive(cfg, s.readers[i], a.j) && |Next(cfg, s, a).log| == |s.log|
    ensures var s' := Next(cfg, s, a);
            && i < |s'.readers| && |s.cell.vers| <= |s'.cell.vers| <= |s.cell.vers| + 1
            && CallFuel(cfg, s'.cell, s'.readers[i]) + (if a.R? && a.i == i then 1 else 0)
               <= CallFuel(cfg, s.cell, s.readers[i])
                  + (if |s'.cell.vers| > |s.cell.vers| then cfg.nw + 2 else 0)
                  + (if a.R? && a.i == i && Spinning(s.cell, s.readers[i]) then 1 else 0)
  {
    hide CallFuel, Productive, Spinning, ReaderNext, WriterNext, CellInv, ReaderInv, LogInv;
    if a.W? {
      WriterDelays(cfg, s.cell, a.wa, s.readers[i], s.log);
    } else if a.R? && a.i == i {
      OwnStepUsesFuel(cfg, s.cell, s.readers[i], a.j, |s.log|);
    }
  }

  /** Reader `i` took `own` steps from `s` to `s'` without a return: no more than its call had
      left, a pass for each write begun, and its spins. */
  ghost predicate CostOk(cfg: Config, s: State, s': State, i: nat, own: nat, spins: nat) {
    && i < |s.readers| && i < |s'.readers| && |s.cell.vers| <= |s'.cell.vers|
    && own + CallFuel(cfg, s'.cell, s'.readers[i])
       <= CallFuel(cfg, s.cell, s.readers[i]) + Passes(cfg, |s'.cell.vers| - |s.cell.vers|) + spins
  }

  lemma {:induction false} CostSnoc(cfg: Config, s: State, s': State, a: Act, i: nat, own: nat, spins: nat)
    requires Inv(cfg, s') && CostOk(cfg, s, s', i, own, spins)
    requires a.R? && a.i == i ==> Productive(cfg, s'.readers[i], a.j) && |Next(cfg, s', a).log| == |s'.log|
    ensures CostOk(cfg, s, Next(cfg, s', a), i, own + (if a.R? && a.i == i then 1 else 0),
                   spins + (if a.R? && a.i == i && Spinning(s'.cell, s'.readers[i]) then 1 else 0))
  {
    StepCost(cfg, s', a, i);
    PassesNext(cfg, |s'.cell.vers| - |s.cell.vers|);
    hide Next, Inv, CallFuel, Passes, Productive, Spinning;
  }

  /** The cost of a read, in every interleaving: one pass of `nw + 2` steps, one more for each
      write that begins meanwhile, and the loads that find an odd number.  A reader repeats
      work only because the writer has made progress. */
  lemma {:induction false} ReadCost(cfg: Config, s: State, t: seq<Act>, i: nat)
    requires Inv(cfg, s) && i < |s.readers| && NoReturn(cfg, s, t, i) && OwnProductive(cfg, s, t, i)
    ensures CostOk(cfg, s, Run(cfg, s, t), i, OwnSteps(t, i), Spins(cfg, s, t, i))
    decreases |t|
  {
    PassesNext(cfg, 0);
    if t != [] {
      hide CostOk, Productive, Spinning, Next;
      var u, a := t[..|t| - 1], t[|t| - 1];
      ReadCost(cfg, s, u, i);
      RunInv(cfg, s, u);
      assert i < |Run(cfg, s, u).readers| by { RunGrows(cfg, s, u); }
      CostSnoc(cfg, s, Run(cfg, s, u), a, i, OwnSteps(u, i), Spins(cfg, s, u, i));
    }
  }

  /** A read among writes has returned once its reader has taken those steps. */
  lemma {:induction false} ReadReturns(cfg: Config, s: State, t: seq<Act>, i: nat)
    requires Inv(cfg, s) && i < |s.readers| && s.readers[i].pc.LIdle? && OwnProductive(cfg, s, t, i)
    requires OwnSteps(t, i) > Passes(cfg, |Run(cfg, s, t).cell.vers| - |s.cell.vers| + 1) + Spins(cfg, s, t, i)
    ensures !NoReturn(cfg, s, t, i)
  {
    PassesNext(cfg, |Run(cfg, s, t).cell.vers| - |s.cell.vers|);
    if NoReturn(cfg, s, t, i) {
      ReadCost(cfg, s, t, i);
    }
  }

  /** While the number stays even and the same, no load spins and no write begins. */
  lemma {:induction false} Undisturbed(cfg: Config, s: State, t: seq<Act>, i: nat)
    requires Inv(cfg, s) && !s.cell.writer.WCopying? && Run(cfg, s, t).cell.seqNo == s.cell.seqNo
    ensures Spins(cfg, s, t, i) == 0 && Run(cfg, s, t).cell.vers == s.cell.vers
    decreases |t|
  {
    RunInv(cfg, s, t);
    RunGrows(cfg, s, t);
    if t != [] {
      var u, a := t[..|t| - 1], t[|t| - 1];
      RunInv(cfg, s, u);
      RunGrows(cfg, s, u);
      if a.W? {
        WriterKeepsCell(cfg, Run(cfg, s, u).cell, a.wa);
      }
      Undisturbed(cfg, s, u, i);
      hide Run, WriterNext;
    }
  }

  // -------------------------------------------------------------------- clones

  /** A clone adds one idle reader and changes nothing else, on words of any width. */
  lemma {:induction false} CloneJoins(cfg: Config, s: State, i: nat)
    requires Shaped(cfg, s) && i < |s.readers|
    ensures var s' := Next(cfg, s, Clone(i));
            && s'.cell == s.cell && s'.log == s.log
            && |s'.readers| == |s.readers| + 1 && s'.readers[..|s.readers|] == s.readers
            && s'.readers[|s.readers|].pc.LIdle?
  {
  }

  /** Every number of readers is reached, on words of any width. */
  lemma {:induction false} ReadersReached(cfg: Config, v: Payload, n: nat) returns (t: seq<Act>)
    requires |v| == cfg.nw && n > 0
    ensures var s := Run(cfg, Init(cfg, v), t);
            |s.readers| == n && AllIdle(s) && s.cell == Init(cfg, v).cell && s.log == []
  {
    if n == 1 {
      t := [];
    } else {
      t := ReadersReached(cfg, v, n - 1);
      RunSnoc(cfg, Init(cfg, v), t, Clone(0));
      CloneJoins(cfg, Run(cfg, Init(cfg, v), t), 0);
      var s, s' := Run(cfg, Init(cfg, v), t), Next(cfg, Run(cfg, Init(cfg, v), t), Clone(0));
      assert forall i :: 0 <= i < |s.readers| ==> s'.readers[i] == s'.readers[..|s.readers|][i];
      hide Run, Next;
      t := t + [Clone(0)];
    }
  }

  ghost predicate AllBy(t: seq<Act>, i: nat) {
    forall k :: 0 <= k < |t| ==> t[k].R? && t[k].i == i
  }

  lemma {:induction false} AllOwnSteps(t: seq<Act>, i: nat)
    requires AllBy(t, i)
    ensures OwnSteps(t, i) == |t|
    decreases |t|
  {
    if t != [] {
      AllOwnSteps(t[..|t| - 1], i);
    }
  }

  /** Reader `i` alone: the cell stands still, and every read it returns is the current one. */
  lemma {:induction false} AloneReads(cfg: Config, s: State, t: seq<Act>, i: nat)
    requires Inv(cfg, s) && i < |s.readers| && s.readers[i].pc.LIdle? && !s.cell.writer.WCopying?
    requires AllBy(t, i)
    ensures var s' := Run(cfg, s, t);
            && s'.cell == s.cell && |s'.readers| == |s.readers| && s.log <= s'.log && s.cell.vers != []
            && (s'.readers[i].pc.LCopy? ==> s'.readers[i].pc.s1 == s.cell.seqNo)
            && (forall k :: 0 <= k < |s.readers| && k != i ==> s'.readers[k] == s.readers[k])
            && (forall e :: |s.log| <= e < |s'.log| ==>
                s'.log[e].value == s.cell.vers[|s.cell.vers| - 1] && s'.log[e].stamp == s.cell.seqNo)
    decreases |t|
  {
    if t != [] {
      var u, a := t[..|t| - 1], t[|t| - 1];
      AloneReads(cfg, s, u, i);
      RunInv(cfg, s, u);
      AloneStep(cfg, Run(cfg, s, u), i, a.j);
      hide Inv, Next, CellInv;
    }
  }

  lemma {:induction false} AloneStep(cfg: Config, s: State, i: nat, j: nat)
    requires Inv(cfg, s) && i < |s.readers| && !s.cell.writer.WCopying?
    requires s.readers[i].pc.LCopy? ==> s.readers[i].pc.s1 == s.cell.seqNo
    ensures s.cell.vers != []
    ensures var s' := Next(cfg, s, R(i, j));
            && s'.cell == s.cell && |s'.readers| == |s.readers|
            && |s.log| <= |s'.log| <= |s.log| + 1 && s.log <= s'.log
            && (s'.readers[i].pc.LCopy? ==> s'.readers[i].pc.s1 == s.cell.seqNo)
            && (forall k :: 0 <= k < |s.readers| && k != i ==> s'.readers[k] == s.readers[k])
            && (|s'.log| > |s.log| ==>
                && s'.log[|s.log|].value == s.cell.vers[|s.cell.vers| - 1]
                && s'.log[|s.log|].stamp == s.cell.seqNo)
  {
    NextInv(cfg, s, R(i, j));
    hide ReaderInv, Assemble;
  }

  /** The first read of a clone: alone, with the writer not mid-write, it returns the current
      version within `nw + 3` steps. */
  lemma {:induction false} CloneReads(cfg: Config, s: State, i: nat, t: seq<Act>)
    requires Inv(cfg, s) && i < |s.readers| && !s.cell.writer.WCopying?
    requires AllBy(t, |s.readers|) && |t| >= cfg.nw + 3
    requires OwnProductive(cfg, Next(cfg, s, Clone(i)), t, |s.readers|)
    ensures var s' := Run(cfg, Next(cfg, s, Clone(i)), t);
            && s'.cell == s.cell && |s'.log| > |s.log| && s.log <= s'.log
            && s'.log[|s.log|].value == s.cell.vers[|s.cell.vers| - 1]
            && s'.log[|s.log|].stamp == s.cell.seqNo
  {
    var s1, k := Next(cfg, s, Clone(i)), |s.readers|;
    CloneJoins(cfg, s, i);
    NextInv(cfg, s, Clone(i));
    AloneReads(cfg, s1, t, k);
    AllOwnSteps(t, k);
    PassesNext(cfg, 0);
    Undisturbed(cfg, s1, t, k);
    hide Next, Inv, Run, OwnProductive, Passes, Spins, AllBy, NoReturn;
    ReadReturns(cfg, s1, t, k);
    if |Run(cfg, s1, t).log| == |s1.log| {
      SameLogNoReturn(cfg, s1, t, k);
    }
  }

  lemma {:induction false} SameLogNoReturn(cfg: Config, u: State, t: seq<Act>, i: nat)
    requires Inv(cfg, u) && |Run(cfg, u, t).log| == |u.log|
    ensures NoReturn(cfg, u, t, i)
    decreases |t|
  {
    if t != [] {
      RunGrows(cfg, u, t[..|t| - 1]);
      assert |Run(cfg, u, t[..|t| - 1]).log| <= |Run(cfg, u, t).log|;
      SameLogNoReturn(cfg, u, t[..|t| - 1], i);
    }
  }
}
