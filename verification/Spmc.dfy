/** The SPMC broadcast ring as a step machine.

    One step is one atomic load or store, or the copy of one payload word.  The
    writer thread and any number of readers interleave freely: a run is an
    arbitrary sequence of actions, and an action that its thread cannot take at
    its program point leaves the state as it is.

    The same machine is read twice: over `Unbounded` counters, where the protocol
    is proved, and over `Bits(b)` words, which is what the code computes.
 */
module Spmc {
  import opened Words
  import opened Payloads
  import opened Threads

  /** Capacity, words per payload and width of the counters. */
  datatype Config = Config(cap: nat, nw: nat, wd: Width)

  datatype Slot = Slot(stamp: int, data: Payload)

  /** Where the writer stands inside `publish`. */
  datatype WriterPc =
    | WIdle
    | WLoaded(v: Payload, pos: int)                   // write cursor loaded
    | WCopying(v: Payload, pos: int, done: set<nat>)  // odd stamp stored
    | WSealed(pos: int)                               // even stamp stored, cursor not yet

  /** The shared memory, the writer and the values whose publication has begun. */
  datatype Ring = Ring(cursor: int, slots: seq<Slot>, writer: WriterPc, hist: seq<Payload>)

  datatype Outcome = Value(v: Payload) | Empty | Lapped(skipped: int)

  /** Where a reader stands inside `try_read`. */
  datatype ReaderPc =
    | RIdle
    | RCheck                                    // about to load the write cursor
    | RSeq1                                     // about to load the stamp
    | RCopy(seq1: int, buf: map<nat, Word>)     // copying; when full, about to reload the stamp
    | RReload                                   // lapped, about to reload the write cursor

  /** A consumer.  `base`, `log` and `copies` only record what happened: the cursor
      it was created with, the results it returned, and the payload copies the
      current call began. */
  datatype Reader = Reader(r: int, cached: int, pc: ReaderPc, copies: nat, base: int, log: seq<Outcome>)

  datatype State = State(ring: Ring, readers: seq<Reader>)

  ghost predicate ShapedRing(cfg: Config, m: Ring) {
    && cfg.cap > 0
    && |m.slots| == cfg.cap
    && (forall i :: 0 <= i < cfg.cap ==> |m.slots[i].data| == cfg.nw)
    && (m.writer.WLoaded? || m.writer.WCopying? ==> |m.writer.v| == cfg.nw)
  }

  ghost predicate Shaped(cfg: Config, s: State) {
    ShapedRing(cfg, s.ring)
  }

  function InitRing(cfg: Config): (m: Ring)
    requires cfg.cap > 0
    ensures ShapedRing(cfg, m)
  {
    Ring(0, seq(cfg.cap, _ => Slot(0, Zeroes(cfg.nw))), WIdle, [])
  }

  function NewReader(at: int, cached: int): Reader {
    Reader(at, cached, RIdle, 0, at, [])
  }

  function Init(cfg: Config): (s: State)
    requires cfg.cap > 0
    ensures Shaped(cfg, s)
  {
    State(InitRing(cfg), [NewReader(0, 0)])
  }

  // ------------------------------------------------------------------- writer

  function WithSlot(m: Ring, i: nat, slot: Slot): Ring
    requires i < |m.slots|
  {
    m.(slots := m.slots[i := slot])
  }

  /** One store of `publish`. */
  function WriterNext(cfg: Config, m: Ring, a: WriterAct): (m': Ring)
    requires ShapedRing(cfg, m)
    ensures ShapedRing(cfg, m')
  {
    match a
    case Begin(v) =>
      if m.writer.WIdle? && |v| == cfg.nw then m.(writer := WLoaded(v, m.cursor)) else m
    case Store(j) =>
      match m.writer
      case WIdle => m
      case WLoaded(v, pos) =>
        var i := Ix(cfg.cap, pos);
        var odd := Add(cfg.wd, Mul(cfg.wd, pos, 2), 1);
        WithSlot(m, i, m.slots[i].(stamp := odd)).(writer := WCopying(v, pos, {}), hist := m.hist + [v])
      case WCopying(v, pos, done) =>
        var i := Ix(cfg.cap, pos);
        if j < cfg.nw && j !in done then
          WithSlot(m, i, m.slots[i].(data := m.slots[i].data[j := v[j]])).(writer := WCopying(v, pos, done + {j}))
        else if AllWords(cfg.nw, done) then
          var even := Add(cfg.wd, Mul(cfg.wd, pos, 2), 2);
          WithSlot(m, i, m.slots[i].(stamp := even)).(writer := WSealed(pos))
        else m
      case WSealed(pos) =>
        m.(cursor := Add(cfg.wd, pos, 1), writer := WIdle)
  }

  /** The writer alone. */
  function WriterRun(cfg: Config, m: Ring, acts: seq<WriterAct>): (m': Ring)
    requires ShapedRing(cfg, m)
    ensures ShapedRing(cfg, m')
    ensures cfg.wd.Bits? && m.cursor >= 0 ==> m'.cursor >= 0
    decreases |acts|
  {
    if acts == [] then m else WriterNext(cfg, WriterRun(cfg, m, acts[..|acts| - 1]), acts[|acts| - 1])
  }

  lemma {:induction false} WriterRunSnoc(cfg: Config, m: Ring, acts: seq<WriterAct>, a: WriterAct)
    requires ShapedRing(cfg, m)
    ensures WriterRun(cfg, m, []) == m
    ensures WriterRun(cfg, m, acts + [a]) == WriterNext(cfg, WriterRun(cfg, m, acts), a)
  {
    assert (acts + [a])[..|acts + [a]| - 1] == acts;
  }

  /** The stores of one uninterrupted `publish`. */
  function PublishStores(nw: nat, v: Payload): seq<WriterAct> {
    SealStores(nw, v) + [Store(0)]
  }

  /** The odd stamp stored, and then one word more. */
  lemma {:induction false} CopyBegins(cfg: Config, m: Ring, v: Payload)
    requires ShapedRing(cfg, m) && m.writer == WIdle && |v| == cfg.nw
    ensures var m' := WriterNext(cfg, WriterNext(cfg, m, Begin(v)), Store(0));
            m'.writer == WCopying(v, m.cursor, {}) && m'.cursor == m.cursor && m'.hist == m.hist + [v]
  {
    hide Ix;
  }

  lemma {:induction false} WordCopied(cfg: Config, m: Ring, j: nat)
    requires ShapedRing(cfg, m) && m.writer.WCopying? && j < cfg.nw && j !in m.writer.done
    ensures var m' := WriterNext(cfg, m, Store(j));
            && m'.writer == m.writer.(done := m.writer.done + {j})
            && m'.cursor == m.cursor && m'.hist == m.hist
  {
    hide Ix;
  }

  lemma {:induction false} WordsCopied(cfg: Config, m: Ring, v: Payload, n: nat)
    requires ShapedRing(cfg, m) && m.writer == WIdle && |v| == cfg.nw && n <= cfg.nw
    ensures var m' := WriterRun(cfg, m, CopyStores(v, n));
            && m'.writer.WCopying? && m'.writer.v == v && m'.writer.pos == m.cursor
            && (forall x: nat :: x in m'.writer.done <==> x < n)
            && m'.cursor == m.cursor && m'.hist == m.hist + [v]
  {
    hide WriterNext, WriterRun;
    if n == 0 {
      CopyBegins(cfg, m, v);
      WriterRunSnoc(cfg, m, [], Begin(v));
      assert [] + [Begin(v)] == [Begin(v)];
      WriterRunSnoc(cfg, m, [Begin(v)], Store(0));
    } else {
      WordsCopied(cfg, m, v, n - 1);
      WriterRunSnoc(cfg, m, CopyStores(v, n - 1), Store(n - 1));
      WordCopied(cfg, WriterRun(cfg, m, CopyStores(v, n - 1)), n - 1);
    }
  }

  /** An uninterrupted `publish` first seals its value, then shows it in the cursor. */
  lemma {:induction false} Publishes(cfg: Config, m: Ring, v: Payload)
    requires ShapedRing(cfg, m) && m.writer == WIdle && |v| == cfg.nw
    ensures var m' := WriterRun(cfg, m, SealStores(cfg.nw, v));
            m'.writer == WSealed(m.cursor) && m'.cursor == m.cursor && m'.hist == m.hist + [v]
    ensures var m' := WriterRun(cfg, m, PublishStores(cfg.nw, v));
            m'.writer == WIdle && m'.cursor == Add(cfg.wd, m.cursor, 1) && m'.hist == m.hist + [v]
  {
    WordsCopied(cfg, m, v, cfg.nw);
    WriterRunSnoc(cfg, m, CopyStores(v, cfg.nw), Store(0));
    WriterRunSnoc(cfg, m, SealStores(cfg.nw, v), Store(0));
    hide WriterRun, Ix;
  }

  // ------------------------------------------------------------------ readers

  /** The stamp of the slot of position `r` once value `r` is in it. */
  function Expected(cfg: Config, r: int): int {
    Add(cfg.wd, Mul(cfg.wd, r, 2), 2)
  }

  function Finish(c: Reader, o: Outcome): Reader {
    c.(pc := RIdle, log := c.log + [o])
  }

  /** One step of `try_read`; `j` chooses the next word to copy. */
  function ReaderNext(cfg: Config, m: Ring, c: Reader, j: nat): Reader
    requires ShapedRing(cfg, m)
  {
    var slot := m.slots[Ix(cfg.cap, c.r)];
    match c.pc
    case RIdle =>
      c.(pc := if c.r == c.cached then RCheck else RSeq1, copies := 0)
    case RCheck =>
      var c' := c.(cached := m.cursor);
      if c.r == m.cursor then Finish(c', Empty) else c'.(pc := RSeq1)
    case RSeq1 =>
      if slot.stamp % 2 == 1 then c
      else if slot.stamp != Expected(cfg, c.r) then c.(pc := RReload)
      else c.(pc := RCopy(slot.stamp, map[]), copies := c.copies + 1)
    case RCopy(seq1, buf) =>
      if j < cfg.nw && j !in buf then c.(pc := RCopy(seq1, buf[j := slot.data[j]]))
      else if !Full(cfg.nw, buf) then c
      else if slot.stamp == seq1 then
        Finish(c.(r := Add(cfg.wd, c.r, 1)), Value(Assemble(cfg.nw, buf)))
      else c.(pc := RSeq1)
    case RReload =>
      var at := Sub(cfg.wd, m.cursor, 1);
      Finish(c.(cached := m.cursor, r := at), Lapped(Sub(cfg.wd, at, c.r)))
  }

  // ------------------------------------------------------------------- system

  function Next(cfg: Config, s: State, a: Act): (s': State)
    requires Shaped(cfg, s)
    ensures Shaped(cfg, s')
  {
    match a
    case W(wa) => s.(ring := WriterNext(cfg, s.ring, wa))
    case R(i, j) =>
      if i < |s.readers| then
        s.(readers := s.readers[i := ReaderNext(cfg, s.ring, s.readers[i], j)])
      else s
    case Clone(i) =>
      if i < |s.readers| && s.readers[i].pc.RIdle? then
        s.(readers := s.readers + [NewReader(s.readers[i].r, s.readers[i].cached)])
      else s
  }

  /** The state after a sequence of actions. */
  function Run(cfg: Config, s: State, t: seq<Act>): (s': State)
    requires Shaped(cfg, s)
    ensures Shaped(cfg, s')
    decreases |t|
  {
    if t == [] then s else Next(cfg, Run(cfg, s, t[..|t| - 1]), t[|t| - 1])
  }

  lemma {:induction false} RunSnoc(cfg: Config, s: State, t: seq<Act>, a: Act)
    requires Shaped(cfg, s)
    ensures Run(cfg, s, t + [a]) == Next(cfg, Run(cfg, s, t), a)
  {
    assert (t + [a])[..|t + [a]| - 1] == t;
  }

  lemma {:induction false} RunAppend(cfg: Config, s: State, t: seq<Act>, u: seq<Act>)
    requires Shaped(cfg, s)
    ensures Run(cfg, s, t + u) == Run(cfg, Run(cfg, s, t), u)
    decreases |u|
  {
    if u == [] {
      assert t + u == t;
    } else {
      var u' := u[..|u| - 1];
      assert (t + u)[..|t + u| - 1] == t + u';
      RunAppend(cfg, s, t, u');
    }
  }

  /** Writer stores inside a run act on the ring alone. */
  lemma {:induction false} RunWrites(cfg: Config, s: State, acts: seq<WriterAct>)
    requires Shaped(cfg, s)
    ensures Run(cfg, s, Writes(acts)) == State(WriterRun(cfg, s.ring, acts), s.readers)
    decreases |acts|
  {
    if acts != [] {
      var init := acts[..|acts| - 1];
      RunWrites(cfg, s, init);
      assert Writes(acts)[..|Writes(acts)| - 1] == Writes(init);
    }
  }

  /** The values `vs` published one after another, before any reader moves. */
  lemma {:induction false} PublishAll(cfg: Config, vs: seq<Payload>) returns (t: seq<Act>)
    requires cfg.cap > 0 && forall p :: 0 <= p < |vs| ==> |vs[p]| == cfg.nw
    ensures forall j :: 0 <= j < |t| ==> t[j].W?
    ensures var s := Run(cfg, Init(cfg), t);
            s.ring.writer == WIdle && s.ring.hist == vs && s.readers == Init(cfg).readers
    decreases |vs|
  {
    if vs == [] {
      t := [];
    } else {
      var v := vs[|vs| - 1];
      t := PublishAll(cfg, vs[..|vs| - 1]);
      var s := Run(cfg, Init(cfg), t);
      var acts := PublishStores(cfg.nw, v);
      Publishes(cfg, s.ring, v);
      RunWrites(cfg, s, acts);
      RunAppend(cfg, Init(cfg), t, Writes(acts));
      hide Run, WriterRun, PublishStores;
      t := t + Writes(acts);
    }
  }

  // ---------------------------------------------------------------- accounting

  /** How far a result moves the read cursor. */
  function Span(o: Outcome): int {
    match o
    case Value(_) => 1
    case Empty => 0
    case Lapped(skipped) => skipped
  }

  function Advance(log: seq<Outcome>): int {
    if log == [] then 0 else Advance(log[..|log| - 1]) + Span(log[|log| - 1])
  }

  /** Every value in `log` is the value published at the cursor it was read at, and
      every lap skips at least `cap - 1` values. */
  ghost predicate LogOk(cap: nat, log: seq<Outcome>, base: int, hist: seq<Payload>) {
    log == [] ||
    var init, o := log[..|log| - 1], log[|log| - 1];
    var at := base + Advance(init);
    && LogOk(cap, init, base, hist)
    && (o.Value? ==> 0 <= at < |hist| && o.v == hist[at])
    && (o.Lapped? ==> o.skipped >= cap - 1)
  }

  lemma {:induction false} LogSnoc(cap: nat, log: seq<Outcome>, o: Outcome, base: int, hist: seq<Payload>)
    requires LogOk(cap, log, base, hist)
    requires o.Value? ==> 0 <= base + Advance(log) < |hist| && o.v == hist[base + Advance(log)]
    requires o.Lapped? ==> o.skipped >= cap - 1
    ensures LogOk(cap, log + [o], base, hist)
    ensures Advance(log + [o]) == Advance(log) + Span(o)
  {
    assert (log + [o])[..|log + [o]| - 1] == log;
  }

  lemma {:induction false} LogGrow(cap: nat, log: seq<Outcome>, base: int, hist: seq<Payload>, hist': seq<Payload>)
    requires LogOk(cap, log, base, hist) && hist <= hist'
    ensures LogOk(cap, log, base, hist')
    decreases |log|
  {
    if log != [] {
      LogGrow(cap, log[..|log| - 1], base, hist, hist');
    }
  }
}
