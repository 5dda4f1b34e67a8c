/** The seqlock as a step machine: one writer, any number of readers, and a value of
    several words that is copied one word at a time and in any order.
 */
module SeqLock {
  import opened Words
  import opened Payloads
  import opened Threads

  /** Words per value, and width of the sequence number. */
  datatype Config = Config(nw: nat, wd: Width)

  datatype WriterPc =
    | WIdle
    | WLoaded(v: Payload, s: int)                    // sequence number loaded
    | WCopying(v: Payload, s: int, done: set<nat>)   // odd number stored

  /** The shared cell and, as a record, every value whose write has begun; the first one
      is the initial value. */
  datatype Cell = Cell(seqNo: int, data: Payload, writer: WriterPc, vers: seq<Payload>)

  datatype ReaderPc =
    | LIdle
    | LSeq1                                    // about to load the sequence number
    | LCopy(s1: int, buf: map<nat, Word>)      // copying; when full, about to reload it

  /** `since` records how many reads had returned when the current call began. */
  datatype Reader = Reader(pc: ReaderPc, since: nat)

  /** A read that returned `value`, having loaded `stamp` both times. */
  datatype Got = Got(value: Payload, stamp: int, since: nat)

  datatype State = State(cell: Cell, readers: seq<Reader>, log: seq<Got>)

  predicate ShapedCell(cfg: Config, m: Cell) {
    && |m.data| == cfg.nw
    && (!m.writer.WIdle? ==> |m.writer.v| == cfg.nw)
  }

  predicate Shaped(cfg: Config, s: State) {
    ShapedCell(cfg, s.cell)
  }

  function Init(cfg: Config, v: Payload): (s: State)
    requires |v| == cfg.nw
    ensures Shaped(cfg, s)
  {
    State(Cell(0, v, WIdle, [v]), [Reader(LIdle, 0)], [])
  }

  /** One store of `write`. */
  function WriterNext(cfg: Config, m: Cell, a: WriterAct): (m': Cell)
    requires ShapedCell(cfg, m)
    ensures ShapedCell(cfg, m')
  {
    match a
    case Begin(v) =>
      if m.writer.WIdle? && |v| == cfg.nw then m.(writer := WLoaded(v, m.seqNo)) else m
    case Store(j) =>
      match m.writer
      case WIdle => m
      case WLoaded(v, s) =>
        m.(seqNo := Add(cfg.wd, s, 1), writer := WCopying(v, s, {}), vers := m.vers + [v])
      case WCopying(v, s, done) =>
        if j < cfg.nw && j !in done then
          m.(data := m.data[j := v[j]], writer := WCopying(v, s, done + {j}))
        else if AllWords(cfg.nw, done) then
          m.(seqNo := Add(cfg.wd, s, 2), writer := WIdle)
        else m
  }

  /** The writer alone. */
  function WriterRun(cfg: Config, m: Cell, acts: seq<WriterAct>): (m': Cell)
    requires ShapedCell(cfg, m)
    ensures ShapedCell(cfg, m')
    ensures cfg.wd.Bits? && m.seqNo >= 0 ==> m'.seqNo >= 0
    decreases |acts|
  {
    if acts == [] then m else WriterNext(cfg, WriterRun(cfg, m, acts[..|acts| - 1]), acts[|acts| - 1])
  }

  lemma {:induction false} WriterRunSnoc(cfg: Config, m: Cell, acts: seq<WriterAct>, a: WriterAct)
    requires ShapedCell(cfg, m)
    ensures WriterRun(cfg, m, []) == m
    ensures WriterRun(cfg, m, acts + [a]) == WriterNext(cfg, WriterRun(cfg, m, acts), a)
  {
    assert (acts + [a])[..|acts + [a]| - 1] == acts;
  }

  lemma {:induction false} WordsCopied(cfg: Config, m: Cell, v: Payload, n: nat)
    requires ShapedCell(cfg, m) && m.writer == WIdle && |v| == cfg.nw && n <= cfg.nw
    ensures var m' := WriterRun(cfg, m, CopyStores(v, n));
            && m'.writer.WCopying? && m'.writer.v == v && m'.writer.s == m.seqNo
            && (forall x: nat :: x in m'.writer.done <==> x < n)
            && (forall x :: 0 <= x < n ==> m'.data[x] == v[x])
            && m'.vers == m.vers + [v]
  {
    hide WriterRun;
    if n == 0 {
      WriterRunSnoc(cfg, m, [], Begin(v));
      assert [] + [Begin(v)] == [Begin(v)];
      WriterRunSnoc(cfg, m, [Begin(v)], Store(0));
    } else {
      WordsCopied(cfg, m, v, n - 1);
      WriterRunSnoc(cfg, m, CopyStores(v, n - 1), Store(n - 1));
    }
  }

  /** An uninterrupted `write` leaves its value in the cell and a number two higher. */
  lemma {:induction false} WriteEffect(cfg: Config, m: Cell, v: Payload)
    requires ShapedCell(cfg, m) && m.writer == WIdle && |v| == cfg.nw
    ensures WriterRun(cfg, m, SealStores(cfg.nw, v)) == Cell(Add(cfg.wd, m.seqNo, 2), v, WIdle, m.vers + [v])
  {
    WordsCopied(cfg, m, v, cfg.nw);
    WriterRunSnoc(cfg, m, CopyStores(v, cfg.nw), Store(0));
    hide WriterRun;
    assert WriterRun(cfg, m, CopyStores(v, cfg.nw)).data == v;
  }

  /** One step of `read`, and the read it returns, if any. */
  function ReaderNext(cfg: Config, m: Cell, c: Reader, j: nat, returned: nat): (Reader, seq<Got>)
    requires ShapedCell(cfg, m)
  {
    match c.pc
    case LIdle => (Reader(LSeq1, returned), [])
    case LSeq1 =>
      if m.seqNo % 2 == 1 then (c, []) else (c.(pc := LCopy(m.seqNo, map[])), [])
    case LCopy(s1, buf) =>
      if j < cfg.nw && j !in buf then (c.(pc := LCopy(s1, buf[j := m.data[j]])), [])
      else if !Full(cfg.nw, buf) then (c, [])
      else if m.seqNo == s1 then (c.(pc := LIdle), [Got(Assemble(cfg.nw, buf), s1, c.since)])
      else (c.(pc := LSeq1), [])
  }

  function Next(cfg: Config, s: State, a: Act): (s': State)
    requires Shaped(cfg, s)
    ensures Shaped(cfg, s')
  {
    match a
    case W(wa) => s.(cell := WriterNext(cfg, s.cell, wa))
    case R(i, j) =>
      if i < |s.readers| then
        var (c, got) := ReaderNext(cfg, s.cell, s.readers[i], j, |s.log|);
        s.(readers := s.readers[i := c], log := s.log + got)
      else s
    case Clone(i) =>
      if i < |s.readers| then s.(readers := s.readers + [Reader(LIdle, 0)]) else s
  }

  function Run(cfg: Config, s: State, t: seq<Act>): (s': State)
    requires Shaped(cfg, s)
    ensures Shaped(cfg, s')
    decreases |t|
  {
    if t == [] then s else Next(cfg, Run(cfg, s, t[..|t| - 1]), t[|t| - 1])
  }

  lemma {:induction false} RunSnoc(cfg: Config, s: State, t: seq<Act>, a: Act)
    requires Shaped(cfg, s)
    ensures Run(cfg, s, t + [a]) == Next(cfg, Run(cfg, s, t), a)
  {
    assert (t + [a])[..|t + [a]| - 1] == t;
  }

  lemma {:induction false} RunAppend(cfg: Config, s: State, t: seq<Act>, u: seq<Act>)
    requires Shaped(cfg, s)
    ensures Run(cfg, s, t + u) == Run(cfg, Run(cfg, s, t), u)
    decreases |u|
  {
    if u == [] {
      assert t + u == t;
    } else {
      var u' := u[..|u| - 1];
      assert (t + u)[..|t + u| - 1] == t + u';
      RunAppend(cfg, s, t, u');
    }
  }

  /** Writer stores inside a run act on the cell alone. */
  lemma {:induction false} RunWrites(cfg: Config, s: State, acts: seq<WriterAct>)
    requires Shaped(cfg, s)
    ensures Run(cfg, s, Writes(acts)) == s.(cell := WriterRun(cfg, s.cell, acts))
    decreases |acts|
  {
    if acts != [] {
      var init := acts[..|acts| - 1];
      RunWrites(cfg, s, init);
      assert Writes(acts)[..|Writes(acts)| - 1] == Writes(init);
    }
  }
}
