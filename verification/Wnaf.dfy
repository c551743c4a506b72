/** Scalar multiplication under the seal check: window tables, signed digit recoding and the two window loops
    of the bundled curve library, over any abelian group. */
module Wnaf {
  import opened Bytes

  datatype Group<!P> = Group(zero: P, add: (P, P) -> P, neg: P -> P)

  ghost predicate Abelian<P(!new)>(g: Group<P>) {
    && (forall x, y :: g.add(x, y) == g.add(y, x))
    && (forall x, y, z :: g.add(g.add(x, y), z) == g.add(x, g.add(y, z)))
    && (forall x :: g.add(x, g.zero) == x)
    && (forall x :: g.add(x, g.neg(x)) == g.zero)
  }

  lemma Comm<P(!new)>(g: Group<P>, x: P, y: P)
    requires Abelian(g)
    ensures g.add(x, y) == g.add(y, x)
  {
  }

  lemma Assoc<P(!new)>(g: Group<P>, x: P, y: P, z: P)
    requires Abelian(g)
    ensures g.add(g.add(x, y), z) == g.add(x, g.add(y, z))
  {
  }

  lemma Unit<P(!new)>(g: Group<P>, x: P)
    requires Abelian(g)
    ensures g.add(x, g.zero) == x && g.add(g.zero, x) == x && g.add(x, g.neg(x)) == g.zero
  {
    Comm(g, x, g.zero);
  }

  lemma Cancel<P(!new)>(g: Group<P>, x: P, p: P)
    requires Abelian(g)
    ensures g.add(g.add(x, g.neg(p)), p) == x && g.add(g.add(x, p), g.neg(p)) == x
  {
    hide Abelian;
    Assoc(g, x, g.neg(p), p);
    Assoc(g, x, p, g.neg(p));
    Comm(g, p, g.neg(p));
    Unit(g, p);
    Unit(g, x);
  }

  /** n times p, for every integer n: the definition the fast loops are measured against. */
  function Times<P>(g: Group<P>, n: int, p: P): P
    decreases if n < 0 then -n else n
  {
    if n == 0 then g.zero
    else if n > 0 then g.add(Times(g, n - 1, p), p)
    else g.add(Times(g, n + 1, p), g.neg(p))
  }

  lemma TimesSucc<P(!new)>(g: Group<P>, n: int, p: P)
    requires Abelian(g)
    ensures Times(g, n + 1, p) == g.add(Times(g, n, p), p)
    ensures Times(g, n - 1, p) == g.add(Times(g, n, p), g.neg(p))
  {
    hide Abelian;
    Cancel(g, Times(g, n + 1, p), p);
    Cancel(g, Times(g, n - 1, p), p);
  }

  lemma {:induction false} TimesAdd<P(!new)>(g: Group<P>, a: int, b: int, p: P)
    requires Abelian(g)
    ensures Times(g, a + b, p) == g.add(Times(g, a, p), Times(g, b, p))
    decreases if b < 0 then -b else b
  {
    hide Abelian;
    if b == 0 {
      Unit(g, Times(g, a, p));
    } else if b > 0 {
      TimesAdd(g, a, b - 1, p);
      TimesSucc(g, a + b - 1, p);
      Assoc(g, Times(g, a, p), Times(g, b - 1, p), p);
    } else {
      TimesAdd(g, a, b + 1, p);
      TimesSucc(g, a + b + 1, p);
      Assoc(g, Times(g, a, p), Times(g, b + 1, p), g.neg(p));
    }
  }

  lemma TimesNeg<P(!new)>(g: Group<P>, n: int, p: P)
    requires Abelian(g)
    ensures g.neg(Times(g, n, p)) == Times(g, -n, p)
  {
    hide Abelian;
    var x, y := Times(g, n, p), Times(g, -n, p);
    TimesAdd(g, -n, n, p);
    assert g.add(y, x) == g.zero;
    Cancel(g, y, x);
    Unit(g, g.neg(x));
  }

  lemma TimesOne<P(!new)>(g: Group<P>, p: P)
    requires Abelian(g)
    ensures Times(g, 1, p) == p
  {
    hide Abelian;
    assert Times(g, 1, p) == g.add(Times(g, 0, p), p);
    Unit(g, p);
  }

  // ---------------------------------------------------------------------------------------------
  // Window parameters and signed digits

  datatype Window = Window(windows: nat, windowSize: nat, maxNumber: nat)

  /** te(W, bits): W must be a window size from 1 to bits. */
  function Params(w: nat, bits: nat): Window
    requires 1 <= w <= bits
  {
    Window((bits + w - 1) / w + 1, Pow2(w - 1), Pow2(w))
  }

  datatype Digit = Digit(nextN: nat, offset: int, isZero: bool, isNeg: bool, isNegF: bool, offsetF: nat)

  /** The signed digit c of one window: the low bits, moved into (-windowSize, windowSize]. */
  function Signed(n: nat, params: Window): int
    requires params.maxNumber > 0
  {
    var c: int := n % params.maxNumber;
    if c > params.windowSize then c - params.maxNumber else c
  }

  function Recode(n: nat, window: nat, params: Window): Digit
    requires params.maxNumber > 0
  {
    var low := n % params.maxNumber;
    var high: nat := n / params.maxNumber;
    var c := Signed(n, params);
    var nextN := if low > params.windowSize then high + 1 else high;
    var offsetF: nat := window * params.windowSize;
    var size: int := if c < 0 then -c else c;
    Digit(nextN, offsetF + size - 1, c == 0, c < 0, window % 2 != 0, offsetF)
  }

  /** Each window splits the scalar exactly, with a digit the table covers. */
  lemma RecodeSplits(n: nat, window: nat, w: nat, bits: nat)
    requires 1 <= w <= bits
    ensures var params := Params(w, bits); var c: int := Signed(n, params);
      && n as int == c + params.maxNumber * Recode(n, window, params).nextN
      && -(params.windowSize as int) < c <= params.windowSize
  {
    var m := Params(w, bits).maxNumber;
    assert m == 2 * Pow2(w - 1);
    assert n == m * (n / m) + n % m;
    assert m * (n / m + 1) == m * (n / m) + m;
  }

  lemma {:induction false} Pow2Add(a: nat, b: nat)
    ensures Pow2(a + b) == Pow2(a) * Pow2(b)
  {
    if a > 0 {
      Pow2Add(a - 1, b);
      assert Pow2(a) * Pow2(b) == 2 * (Pow2(a - 1) * Pow2(b));
    }
  }

  /** Bits still to be read after i windows; zero or less once the carry alone is left. */
  function Rest(i: nat, w: nat, bits: nat): nat {
    if i * w < bits then bits - i * w else 0
  }

  /** The remaining scalar is at most 2^Rest: the carry out of a window never exceeds one. */
  lemma RecodeShrinks(n: nat, window: nat, w: nat, bits: nat)
    requires 1 <= w <= bits && n <= Pow2(Rest(window, w, bits))
    ensures Recode(n, window, Params(w, bits)).nextN <= Pow2(Rest(window + 1, w, bits))
    ensures window * w >= bits ==> Recode(n, window, Params(w, bits)).nextN == 0
  {
    var a, m := Rest(window, w, bits), Pow2(w);
    assert m == 2 * Pow2(w - 1) && (window + 1) * w == window * w + w;
    if a >= w {
      Pow2Add(w, a - w);
      QuotientBound(n, m, Pow2(a - w));
    } else {
      Pow2Monotone(a, w - 1);
      SmallQuotient(n, m);
    }
  }

  lemma SmallQuotient(n: nat, m: nat)
    requires n < m
    ensures n / m == 0 && n % m == n
  {
  }

  lemma {:induction false} Pow2Monotone(a: nat, b: nat)
    requires a <= b
    ensures Pow2(a) <= Pow2(b)
  {
    if a < b { Pow2Monotone(a, b - 1); }
  }

  lemma QuotientBound(n: nat, m: nat, k: nat)
    requires m > 0 && n <= m * k
    ensures n / m <= k && (n % m > 0 ==> n / m < k)
  {
    var q := n / m;
    assert n == m * q + n % m;
    assert m * (q - k) == m * q - m * k;
  }

  // ---------------------------------------------------------------------------------------------
  // The table

  /** Row u: the multiples 1 to windowSize of 2^(w u) p. */
  function Row<P>(g: Group<P>, p: P, w: nat, u: nat): (row: seq<P>)
    requires w > 0
    ensures |row| == Pow2(w - 1)
  {
    seq(Pow2(w - 1), f requires 0 <= f < Pow2(w - 1) => Times(g, (f + 1) * Pow2(w * u), p))
  }

  function Table<P>(g: Group<P>, p: P, w: nat, windows: nat): (table: seq<P>)
    requires w > 0
    ensures |table| == windows * Pow2(w - 1)
  {
    if windows == 0 then [] else Table(g, p, w, windows - 1) + Row(g, p, w, windows - 1)
  }

  /** Every digit of every window finds its multiple inside the table. */
  lemma {:induction false} TableAt<P>(g: Group<P>, p: P, w: nat, windows: nat, t: nat, f: nat)
    requires w > 0 && t < windows && f < Pow2(w - 1)
    ensures 0 <= t * Pow2(w - 1) + f < |Table(g, p, w, windows)|
    ensures Table(g, p, w, windows)[t * Pow2(w - 1) + f] == Times(g, (f + 1) * Pow2(w * t), p)
    decreases windows
  {
    var size := Pow2(w - 1);
    if t < windows - 1 {
      TableAt(g, p, w, windows - 1, t, f);
    } else {
      assert t * size == |Table(g, p, w, windows - 1)|;
    }
    assert windows * size == (windows - 1) * size + size;
  }

  method PrecomputeWindow<P(!new)>(g: Group<P>, p: P, w: nat, bits: nat) returns (s: seq<P>)
    requires Abelian(g) && 1 <= w <= bits
    ensures s == Table(g, p, w, Params(w, bits).windows)
  {
    hide Abelian, Times, Row;
    var params := Params(w, bits);
    s := [];
    var i := p;
    TimesOne(g, p);
    for u := 0 to params.windows
      invariant s == Table(g, p, w, u)
      invariant i == Times(g, Pow2(w * u), p)
    {
      var row, c := BuildRow(g, p, w, u, i);
      s := s + row;
      NextBase(g, p, w, w * u);
      NextExponent(w, u);
      i := g.add(c, c);
    }
  }

  /** One pass of the inner loop: the row, and its last entry for doubling. */
  method BuildRow<P(!new)>(g: Group<P>, ghost p: P, w: nat, ghost u: nat, i: P) returns (row: seq<P>, c: P)
    requires Abelian(g) && w > 0 && i == Times(g, Pow2(w * u), p)
    ensures row == Row(g, p, w, u) && c == Times(g, Pow2(w - 1) * Pow2(w * u), p)
  {
    hide Abelian, Times;
    ghost var b := Pow2(w * u);
    c := i;
    row := [c];
    for f := 1 to Pow2(w - 1)
      invariant row == Row(g, p, w, u)[..f]
      invariant c == Times(g, f * b, p)
    {
      TimesAdd(g, f * b, b, p);
      assert (f + 1) * b == f * b + b;
      c := g.add(c, i);
      row := row + [c];
    }
  }

  lemma NextBase<P(!new)>(g: Group<P>, p: P, w: nat, e: nat)
    requires Abelian(g) && w > 0
    ensures var c := Times(g, Pow2(w - 1) * Pow2(e), p); g.add(c, c) == Times(g, Pow2(w + e), p)
  {
    hide Abelian, Times, Pow2;
    var k := Pow2(w - 1) * Pow2(e);
    TimesAdd(g, k, k, p);
    DoubleRow(w, e);
  }

  lemma DoubleRow(w: nat, e: nat)
    requires w > 0
    ensures Pow2(w - 1) * Pow2(e) + Pow2(w - 1) * Pow2(e) == Pow2(w + e)
  {
    hide Pow2;
    Pow2Succ(w - 1);
    Pow2Add(w, e);
    Twice(Pow2(w - 1), Pow2(e));
  }

  lemma Pow2Succ(n: nat)
    ensures Pow2(n + 1) == 2 * Pow2(n)
  {
  }

  lemma NextExponent(w: nat, u: nat)
    ensures w * (u + 1) == w + w * u
  {
  }

  lemma Twice(a: nat, b: nat)
    ensures a * b + a * b == (2 * a) * b
  {
  }

  // ---------------------------------------------------------------------------------------------
  // The window loops

  function SignedEntry<P>(g: Group<P>, isNeg: bool, q: P): P {
    if isNeg then g.neg(q) else q
  }

  /** The table entry of a nonzero digit, with its sign, is digit * 2^(w t) times p. */
  lemma EntryOfDigit<P(!new)>(g: Group<P>, p: P, n: nat, t: nat, w: nat, bits: nat)
    requires Abelian(g) && 1 <= w <= bits && t < Params(w, bits).windows
    ensures 0 <= Recode(n, t, Params(w, bits)).offsetF < |Table(g, p, w, Params(w, bits).windows)|
    ensures !Recode(n, t, Params(w, bits)).isZero ==>
      0 <= Recode(n, t, Params(w, bits)).offset < |Table(g, p, w, Params(w, bits).windows)|
    ensures !Recode(n, t, Params(w, bits)).isZero ==>
      SignedEntry(g, Recode(n, t, Params(w, bits)).isNeg,
                  Table(g, p, w, Params(w, bits).windows)[Recode(n, t, Params(w, bits)).offset])
      == Times(g, Signed(n, Params(w, bits)) * Pow2(w * t), p)
  {
    hide Abelian, Times, Table, Recode, Signed, Pow2;
    var params := Params(w, bits);
    var c: int := Signed(n, params);
    RecodeSplits(n, t, w, bits);
    RecodeFields(n, t, params);
    Pow2Succ(w - 1);
    TableAt(g, p, w, params.windows, t, 0);
    if c != 0 {
      var f: nat := (if c < 0 then -c else c) - 1;
      TableAt(g, p, w, params.windows, t, f);
      TimesNeg(g, (f + 1) * Pow2(w * t), p);
      NegateProduct(f + 1, Pow2(w * t));
    }
  }

  lemma RecodeFields(n: nat, t: nat, params: Window)
    requires params.maxNumber > 0
    ensures var d := Recode(n, t, params); var c := Signed(n, params);
      && d.isZero == (c == 0) && d.isNeg == (c < 0) && d.offsetF == t * params.windowSize
      && d.offset == t * params.windowSize + (if c < 0 then -c else c) - 1
  {
  }

  lemma NegateProduct(a: int, b: int)
    ensures -(a * b) == (-a) * b
  {
  }

  /** What one window contributes: n 2^(w t) p is the digit's entry plus what the next windows still owe. */
  lemma WindowStep<P(!new)>(g: Group<P>, p: P, r: P, n: nat, t: nat, w: nat, bits: nat)
    requires Abelian(g) && 1 <= w <= bits && t < Params(w, bits).windows
    ensures var params := Params(w, bits); var next := Recode(n, t, params).nextN;
      g.add(r, Times(g, n * Pow2(w * t), p)) ==
      g.add(g.add(r, Times(g, Signed(n, params) * Pow2(w * t), p)), Times(g, next * Pow2(w * (t + 1)), p))
  {
    hide Abelian, Times;
    var params := Params(w, bits);
    var c: int, next, b := Signed(n, params), Recode(n, t, params).nextN, Pow2(w * t);
    RecodeSplits(n, t, w, bits);
    Pow2Add(w, w * t);
    assert w * (t + 1) == w + w * t;
    assert n * b == c * b + next * (Pow2(w) * b) by {
      assert n as int == c + Pow2(w) * next;
      Distribute(c, Pow2(w), next, b);
    }
    TimesAdd(g, c * b, next * Pow2(w * (t + 1)), p);
    Assoc(g, r, Times(g, c * b, p), Times(g, next * Pow2(w * (t + 1)), p));
  }

  lemma Distribute(c: int, m: int, k: int, b: int)
    ensures (c + m * k) * b == c * b + k * (m * b)
  {
  }

  /** wNAF: None stands for the exceptions. The point f only keeps the work constant. It returns exactly for
      valid scalars whose recoding runs out within the windows, and those include every scalar below 2^bits. */
  method WNaf<P(!new)>(g: Group<P>, base: P, p: P, w: nat, bits: nat, order: nat, table: seq<P>, scalar: nat)
    returns (r: Option<(P, P)>)
    requires Abelian(g) && 1 <= w <= bits && table == Table(g, p, w, Params(w, bits).windows)
    ensures r.Some? ==> scalar < order && r.value.0 == Times(g, scalar, p)
    ensures scalar < order && scalar < Pow2(bits) ==> r.Some?
  {
    hide Abelian, Times, Table, Recode, Signed;
    if scalar >= order { return None; }
    var params := Params(w, bits);
    var acc, f, e: nat := g.zero, base, scalar;
    Unit(g, Times(g, scalar, p));
    Start(g, p, scalar, w);
    for c := 0 to params.windows
      invariant g.add(acc, Times(g, e * Pow2(w * c), p)) == Times(g, scalar, p)
      invariant scalar < Pow2(bits) ==> e <= Pow2(Rest(c, w, bits)) && (c == params.windows ==> e == 0)
    {
      var d := Recode(e, c, params);
      RecodeFields(e, c, params);
      EntryOfDigit(g, p, e, c, w, bits);
      WindowStep(g, p, acc, e, c, w, bits);
      if e <= Pow2(Rest(c, w, bits)) {
        RecodeShrinks(e, c, w, bits);
        LastWindow(c, w, bits);
      }
      e := d.nextN;
      if d.isZero {
        f := g.add(f, SignedEntry(g, d.isNegF, table[d.offsetF]));
        ZeroDigit(g, p, acc, w, c);
      } else {
        acc := g.add(acc, SignedEntry(g, d.isNeg, table[d.offset]));
      }
    }
    if e != 0 { return None; }
    Finish(g, p, acc, Pow2(w * params.windows));
    r := Some((acc, f));
  }

  lemma LastWindow(c: nat, w: nat, bits: nat)
    requires 1 <= w <= bits
    ensures c + 1 == Params(w, bits).windows ==> c * w >= bits
  {
    assert bits + w - 1 == w * ((bits + w - 1) / w) + (bits + w - 1) % w;
    if c + 1 == Params(w, bits).windows { assert c * w == w * ((bits + w - 1) / w); }
  }

  lemma Start<P(!new)>(g: Group<P>, p: P, scalar: nat, w: nat)
    requires Abelian(g)
    ensures g.add(g.zero, Times(g, scalar * Pow2(w * 0), p)) == Times(g, scalar, p)
  {
    hide Abelian, Times;
    assert w * 0 == 0;
    Unit(g, Times(g, scalar, p));
  }

  lemma ZeroDigit<P(!new)>(g: Group<P>, p: P, r: P, w: nat, t: nat)
    requires Abelian(g)
    ensures g.add(r, Times(g, 0 * Pow2(w * t), p)) == r
  {
    assert 0 * Pow2(w * t) == 0;
    Unit(g, r);
  }

  lemma Finish<P(!new)>(g: Group<P>, p: P, r: P, b: nat)
    requires Abelian(g)
    ensures g.add(r, Times(g, 0 * b, p)) == r
  {
    assert 0 * b == 0;
    Unit(g, r);
  }

  /** wNAFUnsafe, which starts from r and stops as soon as the scalar is used up. */
  method WNafUnsafe<P(!new)>(g: Group<P>, p: P, w: nat, bits: nat, table: seq<P>, scalar: nat, r: P)
    returns (sum: Option<P>)
    requires Abelian(g) && 1 <= w <= bits && table == Table(g, p, w, Params(w, bits).windows)
    ensures sum.Some? ==> sum.value == g.add(r, Times(g, scalar, p))
    ensures scalar < Pow2(bits) ==> sum.Some?
  {
    hide Abelian, Times, Table, Recode, Signed;
    var params := Params(w, bits);
    var acc, e: nat, i: nat := r, scalar, 0;
    assert w * 0 == 0;
    while i < params.windows && e != 0
      invariant i <= params.windows
      invariant g.add(acc, Times(g, e * Pow2(w * i), p)) == g.add(r, Times(g, scalar, p))
      invariant scalar < Pow2(bits) ==> e <= Pow2(Rest(i, w, bits)) && (i == params.windows ==> e == 0)
    {
      var d := Recode(e, i, params);
      RecodeFields(e, i, params);
      EntryOfDigit(g, p, e, i, w, bits);
      WindowStep(g, p, acc, e, i, w, bits);
      if e <= Pow2(Rest(i, w, bits)) {
        RecodeShrinks(e, i, w, bits);
        LastWindow(i, w, bits);
      }
      e := d.nextN;
      if !d.isZero {
        acc := g.add(acc, SignedEntry(g, d.isNeg, table[d.offset]));
      } else {
        ZeroDigit(g, p, acc, w, i);
      }
      i := i + 1;
    }
    if e != 0 { return None; }
    Finish(g, p, acc, Pow2(w * i));
    sum := Some(acc);
  }

  /** Double-and-add, the loop used without a table. */
  method UnsafeLadder<P(!new)>(g: Group<P>, p: P, scalar: nat, start: P) returns (sum: P)
    requires Abelian(g)
    ensures sum == g.add(start, Times(g, scalar, p))
  {
    hide Abelian, Times;
    var r, n: nat := p, scalar;
    sum := start;
    ghost var k: nat := 1;
    TimesOne(g, p);
    while n > 0
      invariant r == Times(g, k, p)
      invariant g.add(sum, Times(g, n * k, p)) == g.add(start, Times(g, scalar, p))
    {
      Halve(n, k);
      if n % 2 == 1 {
        TimesAdd(g, k, (n / 2) * (2 * k), p);
        Assoc(g, sum, r, Times(g, (n / 2) * (2 * k), p));
        sum := g.add(sum, r);
      }
      TimesAdd(g, k, k, p);
      r := g.add(r, r);
      n := n / 2;
      k := 2 * k;
    }
    Finish(g, p, sum, k);
  }

  /** multiply: table and loop together compute scalar * p, for every window size and every scalar below
      2^bits and the order. */
  method Cached<P(!new)>(g: Group<P>, base: P, p: P, w: nat, bits: nat, order: nat, scalar: nat)
    returns (r: Option<(P, P)>)
    requires Abelian(g) && 1 <= w <= bits && order <= Pow2(bits)
    ensures r.Some? <==> scalar < order
    ensures r.Some? ==> r.value.0 == Times(g, scalar, p)
  {
    var table := PrecomputeWindow(g, p, w, bits);
    r := WNaf(g, base, p, w, bits, order, table, scalar);
  }
}
