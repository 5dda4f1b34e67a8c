/** Machine-word arithmetic: powers of two, the `&` of a power-of-two mask, and
    the wrapping operations of a `b`-bit unsigned integer.

    The step machines of this project are written once, over a `Width`.  With
    `Unbounded` they count for ever; with `Bits(b)` they compute exactly what the
    `wrapping_*` operations of a `b`-bit `usize` or `u64` compute.
 */
module Words {

  function Pow2(k: nat): (r: nat)
    ensures r > 0
  {
    if k == 0 then 1 else 2 * Pow2(k - 1)
  }

  /** The bitwise `&` of two natural numbers. */
  function BitAnd(a: nat, b: nat): (r: nat)
    ensures r <= b
  {
    if a == 0 || b == 0 then 0
    else 2 * BitAnd(a / 2, b / 2) + (if a % 2 == 1 && b % 2 == 1 then 1 else 0)
  }

  datatype Width = Unbounded | Bits(b: nat)

  /** The value a word of width `wd` holds after `x` is stored in it. */
  function Fit(wd: Width, x: int): int {
    if wd.Unbounded? then x else x % Pow2(wd.b)
  }

  function Add(wd: Width, x: int, y: int): int {
    Fit(wd, x + y)
  }

  function Sub(wd: Width, x: int, y: int): int {
    Fit(wd, x - y)
  }

  function Mul(wd: Width, x: int, y: int): int {
    Fit(wd, x * y)
  }

  /** The slot a position falls in. */
  function Ix(cap: nat, i: int): (r: nat)
    requires cap > 0
    ensures r < cap
  {
    i % cap
  }

  // ---------------------------------------------------------------- remainders

  lemma {:induction false} MulGap(d: int, m: int)
    requires m >= 0
    ensures d >= 1 ==> d * m >= m
    ensures d <= -1 ==> d * m <= -m
  {
    if d <= -1 {
      assert d * m == -((-d) * m);
    }
  }

  /** Every number has one quotient and remainder. */
  lemma {:induction false} DivUnique(x: int, m: nat, q: int, r: int)
    requires m > 0 && 0 <= r < m && x == q * m + r
    ensures x / m == q && x % m == r
  {
    var q', r' := x / m, x % m;
    assert x == q' * m + r';
    MulGap(q - q', m);
    assert (q - q') * m == r' - r;
  }

  /** Adding a multiple of `m` does not change the remainder. */
  lemma {:induction false} ModShift(x: int, k: int, m: nat)
    requires m > 0
    ensures (x + k * m) % m == x % m
  {
    DivUnique(x + k * m, m, x / m + k, x % m);
  }

  /** Two numbers have the same remainder exactly when `m` divides their difference. */
  lemma {:induction false} ModEq(x: int, y: int, m: nat)
    requires m > 0
    ensures x % m == y % m <==> (x - y) % m == 0
  {
    var dx, dy := x / m, y / m;
    assert x - y == (dx - dy) * m + (x % m - y % m);
    if x % m == y % m {
      DivUnique(x - y, m, dx - dy, 0);
    } else if (x - y) % m == 0 {
      var d := (x - y) / m;
      assert x == (d + dy) * m + y % m;
      DivUnique(x, m, d + dy, y % m);
    }
  }

  /** A difference that is not zero and that `m` divides is at least `m`. */
  lemma {:induction false} ModGap(x: int, y: int, m: nat)
    requires m > 0 && x % m == y % m && x < y
    ensures x + m <= y
  {
    ModEq(y, x, m);
    if y - x < m {
      DivUnique(y - x, m, 0, y - x);
    }
  }

  /** Reducing an operand first does not change a reduced linear form. */
  lemma {:induction false} ModLinear(a: int, x: int, c: int, m: nat)
    requires m > 0
    ensures (a * (x % m) + c) % m == (a * x + c) % m
  {
    var k := x / m;
    assert x == k * m + x % m;
    assert a * x + c == a * (x % m) + c + (a * k) * m by {
      assert a * (k * m + x % m) == (a * k) * m + a * (x % m);
    }
    ModShift(a * (x % m) + c, a * k, m);
  }

  /** A difference may be computed from reduced operands. */
  lemma {:induction false} ModDiff(x: int, y: int, m: nat)
    requires m > 0
    ensures (x % m - y % m) % m == (x - y) % m
  {
    ModLinear(1, x, -(y % m), m);
    ModLinear(-1, y, x, m);
  }

  /** Reducing modulo a multiple of `n` keeps the remainder modulo `n`. */
  lemma {:induction false} ModMod(x: int, n: nat, k: nat)
    requires n > 0 && k > 0
    ensures n * k > 0 && (x % (n * k)) % n == x % n
  {
    assert n * k >= n;
    var m := n * k;
    assert x == (x / m) * m + x % m;
    assert (x / m) * m == ((x / m) * k) * n;
    ModShift(x % m, (x / m) * k, n);
  }

  // ------------------------------------------------------------ powers of two

  lemma {:induction false} Pow2Add(i: nat, j: nat)
    ensures Pow2(i + j) == Pow2(i) * Pow2(j)
  {
    if i > 0 {
      Pow2Add(i - 1, j);
      assert Pow2(i) * Pow2(j) == 2 * (Pow2(i - 1) * Pow2(j));
    }
  }

  lemma {:induction false} MaskStep(i: nat, m: nat)
    requires m > 0
    ensures BitAnd(i, 2 * m - 1) == 2 * BitAnd(i / 2, m - 1) + i % 2
  {
    assert (2 * m - 1) / 2 == m - 1 && (2 * m - 1) % 2 == 1;
    if i == 0 {
      assert BitAnd(i / 2, m - 1) == 0;
    }
  }

  lemma {:induction false} ModStep(i: nat, m: nat)
    requires m > 0
    ensures i % (2 * m) == 2 * ((i / 2) % m) + i % 2
  {
    var q, r := (i / 2) / m, (i / 2) % m;
    assert i / 2 == q * m + r;
    assert q * (2 * m) == 2 * (q * m);
    DivUnique(i, 2 * m, q, 2 * r + i % 2);
  }

  /** Masking with `2^k - 1` takes the remainder modulo `2^k`: this is what
      `i & (CAPACITY - 1)` relies on. */
  lemma {:induction false} MaskIsMod(i: nat, k: nat)
    ensures BitAnd(i, Pow2(k) - 1) == i % Pow2(k)
  {
    if k > 0 {
      var m := Pow2(k - 1);
      calc {
        BitAnd(i, 2 * m - 1);
        { MaskStep(i, m); }
        2 * BitAnd(i / 2, m - 1) + i % 2;
        { MaskIsMod(i / 2, k - 1); }
        2 * ((i / 2) % m) + i % 2;
        { ModStep(i, m); }
        i % (2 * m);
      }
    }
  }

  /** A `b`-bit word keeps the parity and the slot index of the number it wraps. */
  lemma {:induction false} FitKeeps(b: nat, k: nat, x: int)
    requires k < b
    ensures (x % Pow2(b)) % 2 == x % 2
    ensures Ix(Pow2(k), x % Pow2(b)) == Ix(Pow2(k), x)
  {
    ModMod(x, 2, Pow2(b - 1));
    Pow2Add(k, b - k);
    ModMod(x, Pow2(k), Pow2(b - k));
  }

  /** Slots in order: the first lap meets slot `i` at position `i`, and every lap is like the
      one before.  This says which slot every position has. */
  lemma {:induction false} SlotsInOrder(cap: nat, i: int)
    requires cap > 0
    ensures 0 <= i < cap ==> Ix(cap, i) == i
    ensures Ix(cap, i + cap) == Ix(cap, i)
  {
    ModShift(i, 1, cap);
    if 0 <= i < cap {
      DivUnique(i, cap, 0, i);
    }
  }

  /** The bit of weight `2^k`. */
  predicate Bit(a: nat, k: nat) {
    if k == 0 then a % 2 == 1 else Bit(a / 2, k - 1)
  }

  /** `&` has the bits that both operands have. */
  lemma {:induction false} BitAndBits(a: nat, b: nat, k: nat)
    ensures Bit(BitAnd(a, b), k) <==> Bit(a, k) && Bit(b, k)
    decreases k
  {
    if a == 0 || b == 0 {
      NoBits(k);
    } else {
      var d := if a % 2 == 1 && b % 2 == 1 then 1 else 0;
      assert BitAnd(a, b) == 2 * BitAnd(a / 2, b / 2) + d;
      assert BitAnd(a, b) / 2 == BitAnd(a / 2, b / 2) && BitAnd(a, b) % 2 == d;
      if k > 0 {
        BitAndBits(a / 2, b / 2, k - 1);
      }
    }
  }

  lemma {:induction false} NoBits(k: nat)
    ensures !Bit(0, k)
  {
    if k > 0 {
      NoBits(k - 1);
    }
  }

  /** A larger power of two falls in slot 0, like 0 itself. */
  lemma {:induction false} PowerInSlotZero(j: nat, k: nat)
    requires k <= j
    ensures Ix(Pow2(k), Pow2(j)) == 0 && Ix(Pow2(k), 0) == 0
  {
    Pow2Add(k, j - k);
    var m, q := Pow2(k), Pow2(j - k);
    assert Pow2(j) == q * m + 0;
    DivUnique(Pow2(j), m, q, 0);
    DivUnique(0, m, 0, 0);
  }

  /** A lap from any position meets every slot. */
  lemma {:induction false} SlotMet(cap: nat, from: int, i: nat) returns (p: int)
    requires i < cap
    ensures from <= p < from + cap && Ix(cap, p) == i
  {
    p := from + (i - from) % cap;
    var q := (i - from) / cap;
    assert i - from == q * cap + (i - from) % cap;
    assert p == (-q) * cap + i;
    DivUnique(p, cap, -q, i);
  }

  /** Two numbers that differ by less than `2^b` wrap to the same word only when equal. */
  lemma {:induction false} FitEq(b: nat, x: int, y: int)
    requires x - y < Pow2(b) && y - x < Pow2(b)
    ensures x % Pow2(b) == y % Pow2(b) <==> x == y
  {
    if x % Pow2(b) == y % Pow2(b) {
      if x < y { ModGap(x, y, Pow2(b)); }
      if y < x { ModGap(y, x, Pow2(b)); }
    }
  }

  /** Positions of one slot are equal or at least a lap apart. */
  lemma {:induction false} SameSlot(cap: nat, p: int, q: int)
    requires cap > 0 && Ix(cap, p) == Ix(cap, q) && p < q
    ensures p + cap <= q
  {
    ModGap(p, q, cap);
  }
}
