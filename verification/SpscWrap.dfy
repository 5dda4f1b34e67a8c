/** The SPSC queue on `b`-bit words refines the queue on unbounded counters, for runs of
    any length and without any bound: the indices are never more than a capacity apart,
    and a capacity is a `b`-bit power of two.
 */
module SpscWrap {
  import opened Words
  import opened Spsc
  import opened SpscTheorems

  function Narrow(cfg: Config, b: nat): Config {
    cfg.(wd := Bits(b))
  }

  ghost predicate Fits(cfg: Config, b: nat, k: nat) {
    cfg.wd == Unbounded && cfg.cap == Pow2(k) && k < b
  }

  function Wrap<T>(b: nat, s: State<T>): State<T> {
    var n := Pow2(b);
    s.(head := s.head % n, tail := s.tail % n, pHead := s.pHead % n, pTail := s.pTail % n,
       cHead := s.cHead % n, cTail := s.cTail % n)
  }

  lemma {:induction false} CapFits(cfg: Config, b: nat, k: nat)
    requires Fits(cfg, b, k)
    ensures 0 < cfg.cap < Pow2(b)
  {
    Pow2Add(k, b - k);
    assert Pow2(b - k) == 2 * Pow2(b - k - 1);
    assert Pow2(k) * Pow2(b - k) >= Pow2(k) * 2;
  }

  /** The wrapping full test. */
  lemma {:induction false} FullTest(cfg: Config, b: nat, k: nat, x: int, y: int)
    requires Fits(cfg, b, k) && 0 <= x - y <= cfg.cap
    ensures Sub(Bits(b), x % Pow2(b), y % Pow2(b)) == cfg.cap <==> x - y == cfg.cap
  {
    CapFits(cfg, b, k);
    ModDiff(x, y, Pow2(b));
    DivUnique(x - y, Pow2(b), 0, x - y);
  }

  /** The wrapping empty test. */
  lemma {:induction false} EmptyTest(cfg: Config, b: nat, k: nat, x: int, y: int)
    requires Fits(cfg, b, k) && 0 <= y - x <= cfg.cap
    ensures x % Pow2(b) == y % Pow2(b) <==> x == y
  {
    CapFits(cfg, b, k);
    FitEq(b, x, y);
  }

  lemma {:induction false} NextSquare<T>(cfg: Config, b: nat, k: nat, s: State<T>, a: Act<T>)
    requires Fits(cfg, b, k) && Inv(cfg, s)
    ensures Next(Narrow(cfg, b), Wrap(b, s), a) == Wrap(b, Next(cfg, s, a))
  {
    match a
    case Push(x) => if s.ppc.PIdle? { FullTest(cfg, b, k, s.pTail, s.pHead); }
    case Pop => if s.cpc.CIdle? { EmptyTest(cfg, b, k, s.cHead, s.cTail); }
    case PStep =>
      if s.ppc.PFull? { FullTest(cfg, b, k, s.pTail, s.head); }
      FitKeeps(b, k, s.pTail);
      ModLinear(1, s.pTail, 1, Pow2(b));
    case CStep =>
      if s.cpc.CEmpty? { EmptyTest(cfg, b, k, s.cHead, s.tail); }
      FitKeeps(b, k, s.cHead);
      ModLinear(1, s.cHead, 1, Pow2(b));
  }

  /** Wrap-around refinement: the code's machine is, in every run, the unbounded machine
      with its six counters reduced. */
  lemma {:induction false} WrapRefines<T>(cfg: Config, b: nat, k: nat, s: State<T>, t: seq<Act<T>>)
    requires Fits(cfg, b, k) && Inv(cfg, s)
    ensures Run(Narrow(cfg, b), Wrap(b, s), t) == Wrap(b, Run(cfg, s, t))
    decreases |t|
  {
    if t != [] {
      var u := t[..|t| - 1];
      WrapRefines(cfg, b, k, s, u);
      RunInv(cfg, s, u);
      NextSquare(cfg, b, k, Run(cfg, s, u), t[|t| - 1]);
    }
  }

  /** Linearizability of the wrapping machine, from its own initial state. */
  lemma {:induction false} WrappedLinearizable<T>(cfg: Config, b: nat, k: nat, t: seq<Act<T>>)
    requires Fits(cfg, b, k)
    ensures var w := Run(Narrow(cfg, b), Init<T>(Narrow(cfg, b)), t);
            && !w.fault
            && FifoRun(cfg.cap, w.log).Some?
            && Taken(w.log) + FifoRun(cfg.cap, w.log).value == Accepted(w.log)
            && |FifoRun(cfg.cap, w.log).value| == Sub(Bits(b), w.tail, w.head)
  {
    DivUnique(0, Pow2(b), 0, 0);
    assert Wrap(b, Init<T>(cfg)) == Init<T>(Narrow(cfg, b));
    InitInv<T>(cfg);
    WrapRefines(cfg, b, k, Init<T>(cfg), t);
    Linearizable(cfg, t);
    NoFault(cfg, t);
    var s := Run(cfg, Init<T>(cfg), t);
    CapFits(cfg, b, k);
    ModDiff(s.tail, s.head, Pow2(b));
    DivUnique(s.tail - s.head, Pow2(b), 0, s.tail - s.head);
  }
}
