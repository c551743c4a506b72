/** The field tower Fp, Fp2, Fp6, Fp12 of the bundled library: its fast products, squares, inverses and sparse
    products, against schoolbook arithmetic in the extensions. */
module Tower {
  import opened Rings
  import opened Extensions
  import opened Norms
  import opened Bytes
  import Inverse
  import PrimeField

  /** What one floor offers the next: ring operations, and the shortcuts the next floor calls. */
  datatype Kit<!T> = Kit(r: Ring<T>, nonres: T -> T, sqr: T -> T, dbl: T -> T)

  /** The shortcuts mean what they say; beta is the element nonres multiplies by. */
  ghost predicate Lawful<T(!new)>(k: Kit<T>, beta: T) {
    && Commutative(k.r)
    && (forall x :: k.nonres(x) == k.r.mul(beta, x))
    && (forall x :: k.sqr(x) == k.r.mul(x, x))
    && (forall x :: k.dbl(x) == k.r.add(x, x))
  }

  lemma Shortcuts<T(!new)>(k: Kit<T>, beta: T, x: T)
    requires Lawful(k, beta)
    ensures Commutative(k.r)
    ensures k.nonres(x) == k.r.mul(beta, x) && k.sqr(x) == k.r.mul(x, x) && k.dbl(x) == k.r.add(x, x)
  {
  }

  // ---------------------------------------------------------------------------------------------
  // Fp2: u^2 = -1

  function Fp2Mul<T>(r: Ring<T>, x: Quad<T>, y: Quad<T>): Quad<T> {
    var c, u := r.mul(x.c0, y.c0), r.mul(x.c1, y.c1);
    Quad(r.sub(c, u), r.sub(r.mul(r.add(x.c0, x.c1), r.add(y.c0, y.c1)), r.add(c, u)))
  }

  function Fp2Sqr<T>(r: Ring<T>, x: Quad<T>): Quad<T> {
    var a, b, c := r.add(x.c0, x.c1), r.sub(x.c0, x.c1), r.add(x.c0, x.c0);
    Quad(r.mul(a, b), r.mul(c, x.c1))
  }

  function Fp2Norm<T>(r: Ring<T>, x: Quad<T>): T { r.add(r.mul(x.c0, x.c0), r.mul(x.c1, x.c1)) }

  /** With i the inverse of the norm. */
  function Fp2Inv<T>(r: Ring<T>, x: Quad<T>, i: T): Quad<T> {
    Quad(r.mul(i, x.c0), r.mul(i, r.neg(x.c1)))
  }

  lemma MinusOne<T(!new)>(r: Ring<T>, x: T)
    requires Commutative(r)
    ensures r.mul(r.neg(r.one), x) == r.neg(x)
  {
    hide Commutative;
    TimesNeg(r, r.one, x);
    Laws(r, x, x, x);
  }

  lemma Fp2MulIsProduct<T(!new)>(r: Ring<T>, x: Quad<T>, y: Quad<T>)
    requires Commutative(r)
    ensures Fp2Mul(r, x, y) == QuadMul(r, r.neg(r.one), x, y)
  {
    hide Commutative;
    MinusOne(r, r.mul(x.c1, y.c1));
    Karatsuba(r, x.c0, x.c1, y.c0, y.c1);
  }

  lemma Fp2SqrIsSquare<T(!new)>(r: Ring<T>, x: Quad<T>)
    requires Commutative(r)
    ensures Fp2Sqr(r, x) == QuadMul(r, r.neg(r.one), x, x)
  {
    hide Commutative;
    var t, n := x.c0, x.c1;
    MinusOne(r, r.mul(n, n));
    Expand(r, t, n, t, r.neg(n));
    TimesNeg(r, t, n);
    TimesNeg(r, n, n);
    Laws(r, t, n, n);
    Laws(r, n, t, t);
    Laws(r, r.mul(t, n), r.mul(t, n), r.zero);
    Laws(r, r.neg(r.mul(t, n)), r.mul(t, n), r.zero);
    Laws(r, r.sub(r.mul(t, t), r.mul(n, n)), r.zero, r.zero);
  }

  lemma Fp2InvIsInverse<T(!new)>(r: Ring<T>, x: Quad<T>, i: T)
    requires Commutative(r) && r.mul(Fp2Norm(r, x), i) == r.one
    ensures QuadMul(r, r.neg(r.one), x, Fp2Inv(r, x, i)) == Quad(r.one, r.zero)
  {
    hide Commutative;
    var t, n := x.c0, x.c1;
    // t (i t) - n (i (-n)) = (t t + n n) i
    Through(r, t, i, t);
    Through(r, n, i, r.neg(n));
    TimesNeg(r, n, n);
    TimesNeg(r, i, r.mul(n, n));
    MinusOne(r, r.mul(n, r.mul(i, r.neg(n))));
    NegAdd(r, r.mul(i, r.mul(n, n)), r.zero);
    Laws(r, i, r.mul(t, t), r.mul(n, n));
    Laws(r, i, Fp2Norm(r, x), r.zero);
    // t (i (-n)) + n (i t) = 0
    Through(r, t, i, r.neg(n));
    Through(r, n, i, t);
    TimesNeg(r, t, n);
    TimesNeg(r, i, r.mul(t, n));
    Laws(r, t, n, n);
    Laws(r, r.mul(i, r.mul(t, n)), r.zero, r.zero);
  }

  lemma Through<T(!new)>(r: Ring<T>, x: T, i: T, y: T)
    requires Commutative(r)
    ensures r.mul(x, r.mul(i, y)) == r.mul(i, r.mul(x, y))
  {
    hide Commutative;
    Laws(r, x, i, y);
    Laws(r, i, x, y);
  }

  // ---------------------------------------------------------------------------------------------
  // Fp6: v^3 = xi

  function Fp6Mul<T>(k: Kit<T>, x: Cube<T>, y: Cube<T>): Cube<T> {
    var s := k.r;
    var f, a, d := s.mul(x.c0, y.c0), s.mul(x.c1, y.c1), s.mul(x.c2, y.c2);
    Cube(s.add(f, k.nonres(s.sub(s.mul(s.add(x.c1, x.c2), s.add(y.c1, y.c2)), s.add(a, d)))),
         s.add(s.sub(s.mul(s.add(x.c0, x.c1), s.add(y.c0, y.c1)), s.add(f, a)), k.nonres(d)),
         s.sub(s.add(a, s.mul(s.add(x.c0, x.c2), s.add(y.c0, y.c2))), s.add(f, d)))
  }

  function Fp6Sqr<T>(k: Kit<T>, x: Cube<T>): Cube<T> {
    var r := k.r;
    var s, i, c, u := k.sqr(x.c0), k.dbl(r.mul(x.c0, x.c1)), k.dbl(r.mul(x.c1, x.c2)), k.sqr(x.c2);
    Cube(r.add(k.nonres(c), s),
         r.add(k.nonres(u), i),
         r.sub(r.sub(r.add(r.add(i, k.sqr(r.add(r.sub(x.c0, x.c1), x.c2))), c), s), u))
  }

  /** The cofactors of inv, and the norm it hands down to the floor below. */
  function Fp6Cofactors<T>(k: Kit<T>, x: Cube<T>): Cube<T> {
    var r := k.r;
    Cube(r.sub(k.sqr(x.c0), k.nonres(r.mul(x.c2, x.c1))),
         r.sub(k.nonres(k.sqr(x.c2)), r.mul(x.c0, x.c1)),
         r.sub(k.sqr(x.c1), r.mul(x.c0, x.c2)))
  }

  function Fp6Norm<T>(k: Kit<T>, x: Cube<T>): T {
    var r, w := k.r, Fp6Cofactors(k, x);
    r.add(k.nonres(r.add(r.mul(x.c2, w.c1), r.mul(x.c1, w.c2))), r.mul(x.c0, w.c0))
  }

  /** With i the inverse of the norm. */
  function Fp6Inv<T>(k: Kit<T>, x: Cube<T>, i: T): Cube<T> {
    var w := Fp6Cofactors(k, x);
    Cube(k.r.mul(i, w.c0), k.r.mul(i, w.c1), k.r.mul(i, w.c2))
  }

  function Fp6MulByNonres<T>(k: Kit<T>, x: Cube<T>): Cube<T> {
    Cube(k.nonres(x.c2), x.c0, x.c1)
  }

  function Fp6Mul1<T>(k: Kit<T>, x: Cube<T>, b1: T): Cube<T> {
    var s := k.r;
    Cube(k.nonres(s.mul(x.c2, b1)), s.mul(x.c0, b1), s.mul(x.c1, b1))
  }

  function Fp6Mul01<T>(k: Kit<T>, x: Cube<T>, b0: T, b1: T): Cube<T> {
    var i := k.r;
    var c, u := i.mul(x.c0, b0), i.mul(x.c1, b1);
    Cube(i.add(k.nonres(i.sub(i.mul(i.add(x.c1, x.c2), b1), u)), c),
         i.sub(i.sub(i.mul(i.add(b0, b1), i.add(x.c0, x.c1)), c), u),
         i.add(i.sub(i.mul(i.add(x.c0, x.c2), b0), c), u))
  }

  lemma Fp6MulIsProduct<T(!new)>(k: Kit<T>, xi: T, x: Cube<T>, y: Cube<T>)
    requires Lawful(k, xi)
    ensures Fp6Mul(k, x, y) == CubeMul(k.r, xi, x, y)
  {
    hide Lawful, Commutative;
    var r := k.r;
    var f, a, d := r.mul(x.c0, y.c0), r.mul(x.c1, y.c1), r.mul(x.c2, y.c2);
    Shortcuts(k, xi, d);
    Shortcuts(k, xi, r.sub(r.mul(r.add(x.c1, x.c2), r.add(y.c1, y.c2)), r.add(a, d)));
    Karatsuba(r, x.c1, x.c2, y.c1, y.c2);
    Karatsuba(r, x.c0, x.c1, y.c0, y.c1);
    Expand(r, x.c0, x.c2, y.c0, y.c2);
    var cross := r.add(r.mul(x.c0, y.c2), r.mul(x.c2, y.c0));
    Laws(r, a, cross, r.add(f, d));
    SubUnique(r, r.add(a, r.mul(r.add(x.c0, x.c2), r.add(y.c0, y.c2))), r.add(f, d), r.add(cross, a));
  }

  lemma Fp6SqrIsSquare<T(!new)>(k: Kit<T>, xi: T, x: Cube<T>)
    requires Lawful(k, xi)
    ensures Fp6Sqr(k, x) == CubeMul(k.r, xi, x, x)
  {
    hide Lawful, Commutative;
    var r := k.r;
    var t, n, e := x.c0, x.c1, x.c2;
    Shortcuts(k, xi, t);
    Shortcuts(k, xi, e);
    Shortcuts(k, xi, r.mul(t, n));
    Shortcuts(k, xi, r.mul(n, e));
    Shortcuts(k, xi, k.dbl(r.mul(n, e)));
    Shortcuts(k, xi, k.sqr(e));
    MulComm(r, n, t);
    MulComm(r, e, n);
    AddComm(r, k.nonres(k.dbl(r.mul(n, e))), r.mul(t, t));
    AddComm(r, k.nonres(k.sqr(e)), k.dbl(r.mul(t, n)));
    Fp6SqrMiddle(k, xi, t, n, e);
  }

  /** The last coefficient: 2 t n + (t - n + e)^2 + 2 n e - t t - e e = (t e + e t) + n n. */
  lemma Fp6SqrMiddle<T(!new)>(k: Kit<T>, xi: T, t: T, n: T, e: T)
    requires Lawful(k, xi)
    ensures var r := k.r;
      var whole := r.add(r.add(k.dbl(r.mul(t, n)), k.sqr(r.add(r.sub(t, n), e))), k.dbl(r.mul(n, e)));
      r.sub(r.sub(whole, k.sqr(t)), k.sqr(e)) == r.add(r.add(r.mul(t, e), r.mul(e, t)), r.mul(n, n))
  {
    hide Lawful, Commutative;
    var r := k.r;
    var w := r.add(r.sub(t, n), e);
    Shortcuts(k, xi, t);
    Shortcuts(k, xi, e);
    Shortcuts(k, xi, r.mul(t, n));
    Shortcuts(k, xi, r.mul(n, e));
    Shortcuts(k, xi, w);
    AddAssoc(r, t, r.neg(n), e);
    AddAssoc(r, t, e, r.neg(n));
    AddComm(r, r.neg(n), e);
    SquareOfDifference(k, xi, t, n, e);
    var whole := r.add(r.add(k.dbl(r.mul(t, n)), k.sqr(w)), k.dbl(r.mul(n, e)));
    SubSub(r, whole, r.mul(t, t), r.mul(e, e));
    SubUnique(r, whole, r.add(r.mul(t, t), r.mul(e, e)), r.add(r.add(r.mul(t, e), r.mul(e, t)), r.mul(n, n)));
  }

  /** 2 t n + (t + e - n)^2 + 2 n e = (t e + e t + n n) + (t t + e e). */
  lemma SquareOfDifference<T(!new)>(k: Kit<T>, xi: T, t: T, n: T, e: T)
    requires Lawful(k, xi)
    ensures var r := k.r; var w := r.sub(r.add(t, e), n);
      r.add(r.add(r.add(r.mul(t, n), r.mul(t, n)), r.mul(w, w)), r.add(r.mul(n, e), r.mul(n, e))) ==
      r.add(r.add(r.add(r.mul(t, e), r.mul(e, t)), r.mul(n, n)), r.add(r.mul(t, t), r.mul(e, e)))
  {
    hide Lawful, Commutative;
    Shortcuts(k, xi, t);
    var r := k.r;
    var m, w := r.add(t, e), r.sub(r.add(t, e), n);
    // w w + m n = m w and m w + n m = m m + n n, so w w + 2 m n = m m + n n
    TimesSub(r, w, m, n);
    TimesSub(r, m, m, n);
    MulComm(r, w, m);
    MulComm(r, w, n);
    TimesSub(r, n, m, n);
    MulComm(r, n, m);
    var mm, mn, nn := r.mul(m, m), r.mul(m, n), r.mul(n, n);
    assert r.mul(w, w) == r.sub(r.sub(mm, mn), r.sub(mn, nn));
    SubUnique(r, r.mul(w, w), r.zero, r.mul(w, w));
    DoubleDifference(r, mm, mn, nn);
    // m n + m n = 2 t n + 2 n e
    Laws(r, n, t, e);
    Laws(r, t, n, n);
    AddSwap(r, r.mul(t, n), r.mul(n, e), r.mul(t, n), r.mul(n, e));
    Expand(r, t, e, t, e);
    var tn2, ne2, ww := r.add(r.mul(t, n), r.mul(t, n)), r.add(r.mul(n, e), r.mul(n, e)), r.mul(w, w);
    Laws(r, tn2, ww, ne2);
    Laws(r, ww, ne2, tn2);
    Laws(r, tn2, r.add(ww, ne2), r.zero);
    Laws(r, ne2, tn2, r.zero);
    assert r.add(r.add(tn2, ww), ne2) == r.add(ww, r.add(tn2, ne2));
    Laws(r, r.add(r.mul(t, e), r.mul(e, t)), r.add(r.mul(t, t), r.mul(e, e)), nn);
    Laws(r, r.add(r.mul(t, e), r.mul(e, t)), nn, r.add(r.mul(t, t), r.mul(e, e)));
    Laws(r, nn, r.add(r.mul(t, t), r.mul(e, e)), r.zero);
  }

  /** (a - b) - (b - c) + (b + b) = a + c. */
  lemma DoubleDifference<T(!new)>(r: Ring<T>, a: T, b: T, c: T)
    requires Commutative(r)
    ensures r.add(r.sub(r.sub(a, b), r.sub(b, c)), r.add(b, b)) == r.add(a, c)
  {
    hide Commutative;
    var d := r.sub(b, c);
    SubUnique(r, r.sub(a, b), d, r.sub(r.sub(a, b), d));
    SubUnique(r, a, b, r.sub(a, b));
    SubUnique(r, b, c, d);
    var z := r.sub(r.sub(a, b), d);
    // z + (b + b) = z + ((d + c) + b) = ((z + d) + b) + c = a + c
    Laws(r, z, b, b);
    Laws(r, d, c, b);
    Laws(r, c, b, b);
    Laws(r, d, b, c);
    Laws(r, z, d, r.add(b, c));
    Laws(r, r.add(z, d), b, c);
  }

  lemma Fp6InvIsInverse<T(!new)>(k: Kit<T>, xi: T, x: Cube<T>, i: T)
    requires Lawful(k, xi) && k.r.mul(Fp6Norm(k, x), i) == k.r.one
    ensures CubeMul(k.r, xi, x, Fp6Inv(k, x, i)) == Cube(k.r.one, k.r.zero, k.r.zero)
  {
    hide Lawful, Commutative;
    var r, w := k.r, Fp6Cofactors(k, x);
    Shortcuts(k, xi, r.add(r.mul(x.c2, w.c1), r.mul(x.c1, w.c2)));
    var p := CubeMul(r, xi, x, w);
    CofactorProduct(k, xi, x);
    assert p == Cube(Fp6Norm(k, x), r.zero, r.zero);
    ScaledProduct(r, xi, x, w, i);
    TimesZero(r, i);
    MulComm(r, i, Fp6Norm(k, x));
  }

  /** Scaling a factor by i scales the product by i. */
  lemma ScaledProduct<T(!new)>(r: Ring<T>, xi: T, x: Cube<T>, w: Cube<T>, i: T)
    requires Commutative(r)
    ensures CubeMul(r, xi, x, Cube(r.mul(i, w.c0), r.mul(i, w.c1), r.mul(i, w.c2))) ==
      var p := CubeMul(r, xi, x, w); Cube(r.mul(i, p.c0), r.mul(i, p.c1), r.mul(i, p.c2))
  {
    hide Commutative;
    Through(r, x.c0, i, w.c0);
    Through(r, x.c0, i, w.c1);
    Through(r, x.c0, i, w.c2);
    Through(r, x.c1, i, w.c0);
    Through(r, x.c1, i, w.c1);
    Through(r, x.c1, i, w.c2);
    Through(r, x.c2, i, w.c0);
    Through(r, x.c2, i, w.c1);
    Through(r, x.c2, i, w.c2);
    ScaledPair(r, xi, i, r.mul(x.c0, w.c0), r.mul(x.c1, w.c2), r.mul(x.c2, w.c1));
    Times3(r, i, r.mul(x.c0, w.c1), r.mul(x.c1, w.c0), r.mul(xi, r.mul(x.c2, w.c2)));
    Through(r, xi, i, r.mul(x.c2, w.c2));
    Times3(r, i, r.mul(x.c0, w.c2), r.mul(x.c2, w.c0), r.mul(x.c1, w.c1));
  }

  lemma ScaledPair<T(!new)>(r: Ring<T>, xi: T, i: T, a: T, b: T, c: T)
    requires Commutative(r)
    ensures r.add(r.mul(i, a), r.mul(xi, r.add(r.mul(i, b), r.mul(i, c)))) ==
      r.mul(i, r.add(a, r.mul(xi, r.add(b, c))))
  {
    hide Commutative;
    Distributes(r, i, b, c);
    Through(r, xi, i, r.add(b, c));
    Distributes(r, i, a, r.mul(xi, r.add(b, c)));
  }

  /** The cofactors kill the two upper coefficients: their six terms cancel in a cycle. */
  lemma CofactorProduct<T(!new)>(k: Kit<T>, xi: T, x: Cube<T>)
    requires Lawful(k, xi)
    ensures CubeMul(k.r, xi, x, Fp6Cofactors(k, x)) == Cube(Fp6Norm(k, x), k.r.zero, k.r.zero)
  {
    hide Lawful, Commutative;
    var r, w := k.r, Fp6Cofactors(k, x);
    Shortcuts(k, xi, r.add(r.mul(x.c2, w.c1), r.mul(x.c1, w.c2)));
    AddComm(r, r.mul(x.c2, w.c1), r.mul(x.c1, w.c2));
    AddComm(r, r.mul(x.c0, w.c0), r.mul(xi, r.add(r.mul(x.c1, w.c2), r.mul(x.c2, w.c1))));
    CofactorMiddle(k, xi, x);
    CofactorTop(k, xi, x);
  }

  lemma CofactorsPlain<T(!new)>(k: Kit<T>, xi: T, x: Cube<T>)
    requires Lawful(k, xi)
    ensures var r := k.r;
      Fp6Cofactors(k, x) == Cube(r.sub(r.mul(x.c0, x.c0), r.mul(xi, r.mul(x.c2, x.c1))),
                                 r.sub(r.mul(xi, r.mul(x.c2, x.c2)), r.mul(x.c0, x.c1)),
                                 r.sub(r.mul(x.c1, x.c1), r.mul(x.c0, x.c2)))
  {
    hide Lawful, Commutative;
    Shortcuts(k, xi, x.c0);
    Shortcuts(k, xi, x.c1);
    Shortcuts(k, xi, x.c2);
    Shortcuts(k, xi, k.r.mul(x.c2, x.c1));
    Shortcuts(k, xi, k.sqr(x.c2));
  }

  /** t (xi e e - t n) + n (t t - xi e n) + xi (e (n n - t e)) = 0. */
  lemma CofactorMiddle<T(!new)>(k: Kit<T>, xi: T, x: Cube<T>)
    requires Lawful(k, xi)
    ensures CubeMul(k.r, xi, x, Fp6Cofactors(k, x)).c1 == k.r.zero
  {
    hide Lawful, Commutative;
    CofactorsPlain(k, xi, x);
    Shortcuts(k, xi, xi);
    var r := k.r;
    var t, n, e := x.c0, x.c1, x.c2;
    var a, b, c := r.mul(xi, Mono(r, t, e, e)), r.mul(t, r.mul(t, n)), r.mul(xi, Mono(r, n, e, n));
    TimesSub(r, t, r.mul(xi, r.mul(e, e)), r.mul(t, n));
    Through(r, t, xi, r.mul(e, e));
    TimesSub(r, n, r.mul(t, t), r.mul(xi, r.mul(e, n)));
    Through(r, n, xi, r.mul(e, n));
    Through(r, n, t, t);
    MulComm(r, n, t);
    TimesSub(r, e, r.mul(n, n), r.mul(t, e));
    TimesSub(r, xi, r.mul(e, r.mul(n, n)), r.mul(e, r.mul(t, e)));
    Through(r, e, n, n);
    Through(r, e, t, e);
    Cycle(r, a, b, c);
  }

  /** t (n n - t e) + e (t t - xi e n) + n (xi e e - t n) = 0. */
  lemma CofactorTop<T(!new)>(k: Kit<T>, xi: T, x: Cube<T>)
    requires Lawful(k, xi)
    ensures CubeMul(k.r, xi, x, Fp6Cofactors(k, x)).c2 == k.r.zero
  {
    hide Lawful, Commutative;
    CofactorsPlain(k, xi, x);
    Shortcuts(k, xi, xi);
    var r := k.r;
    var t, n, e := x.c0, x.c1, x.c2;
    var a, b, c := Mono(r, t, n, n), r.mul(t, r.mul(t, e)), r.mul(xi, Mono(r, n, e, e));
    TimesSub(r, t, r.mul(n, n), r.mul(t, e));
    TimesSub(r, e, r.mul(t, t), r.mul(xi, r.mul(e, n)));
    Through(r, e, t, t);
    MulComm(r, e, t);
    Through(r, e, xi, r.mul(e, n));
    MulComm(r, e, n);
    Through(r, e, n, e);
    TimesSub(r, n, r.mul(xi, r.mul(e, e)), r.mul(t, n));
    Through(r, n, xi, r.mul(e, e));
    Through(r, n, t, n);
    Cycle(r, a, b, c);
  }

  // Sparse factors

  lemma Fp6Mul1IsProduct<T(!new)>(k: Kit<T>, xi: T, x: Cube<T>, b1: T)
    requires Lawful(k, xi)
    ensures Fp6Mul1(k, x, b1) == CubeMul(k.r, xi, x, Cube(k.r.zero, b1, k.r.zero))
  {
    hide Lawful, Commutative;
    var r := k.r;
    Shortcuts(k, xi, r.mul(x.c2, b1));
    TimesZero(r, x.c0);
    TimesZero(r, x.c1);
    TimesZero(r, x.c2);
    TimesZero(r, xi);
    AddZero(r, r.mul(x.c2, b1));
    AddZero(r, r.mul(xi, r.mul(x.c2, b1)));
    AddZero(r, r.mul(x.c0, b1));
    AddZero(r, r.mul(x.c1, b1));
    AddZero(r, r.zero);
  }

  lemma Fp6Mul01IsProduct<T(!new)>(k: Kit<T>, xi: T, x: Cube<T>, b0: T, b1: T)
    requires Lawful(k, xi)
    ensures Fp6Mul01(k, x, b0, b1) == CubeMul(k.r, xi, x, Cube(b0, b1, k.r.zero))
  {
    hide Lawful, Commutative;
    var r := k.r;
    var c, u := r.mul(x.c0, b0), r.mul(x.c1, b1);
    var cross := r.sub(r.mul(r.add(x.c1, x.c2), b1), u);
    Shortcuts(k, xi, cross);
    TimesZero(r, x.c0);
    TimesZero(r, x.c1);
    TimesZero(r, x.c2);
    TimesZero(r, xi);
    Drop(r, x.c2, x.c1, b1);
    AddComm(r, x.c1, x.c2);
    AddZero(r, r.mul(x.c2, b1));
    AddComm(r, r.mul(xi, cross), c);
    SubSub(r, r.mul(r.add(b0, b1), r.add(x.c0, x.c1)), c, u);
    Karatsuba(r, x.c0, x.c1, b0, b1);
    MulComm(r, r.add(b0, b1), r.add(x.c0, x.c1));
    AddZero(r, r.add(r.mul(x.c0, b1), r.mul(x.c1, b0)));
    Drop(r, x.c2, x.c0, b0);
    AddComm(r, x.c0, x.c2);
    AddZero(r, r.mul(x.c2, b0));
  }

  /** (x + y) b - y b = x b. */
  lemma Drop<T(!new)>(r: Ring<T>, x: T, y: T, b: T)
    requires Commutative(r)
    ensures r.sub(r.mul(r.add(x, y), b), r.mul(y, b)) == r.mul(x, b)
  {
    hide Commutative;
    Laws(r, b, x, y);
    SubUnique(r, r.mul(r.add(x, y), b), r.mul(y, b), r.mul(x, b));
  }

  // ---------------------------------------------------------------------------------------------
  // Fp12: w^2 = v

  function Fp12Mul<T>(k: Kit<Cube<T>>, x: Quad<Cube<T>>, y: Quad<Cube<T>>): Quad<Cube<T>> {
    var r := k.r;
    var c, u := r.mul(x.c0, y.c0), r.mul(x.c1, y.c1);
    Quad(r.add(c, k.nonres(u)), r.sub(r.mul(r.add(x.c0, x.c1), r.add(y.c0, y.c1)), r.add(c, u)))
  }

  function Fp12Sqr<T>(k: Kit<Cube<T>>, x: Quad<Cube<T>>): Quad<Cube<T>> {
    var e := k.r;
    var r := e.mul(x.c0, x.c1);
    Quad(e.sub(e.sub(e.mul(e.add(k.nonres(x.c1), x.c0), e.add(x.c0, x.c1)), r), k.nonres(r)), e.add(r, r))
  }

  function Fp12Norm<T>(k: Kit<Cube<T>>, x: Quad<Cube<T>>): Cube<T> {
    k.r.sub(k.sqr(x.c0), k.nonres(k.sqr(x.c1)))
  }

  /** With i the inverse of the norm. */
  function Fp12Inv<T>(k: Kit<Cube<T>>, x: Quad<Cube<T>>, i: Cube<T>): Quad<Cube<T>> {
    Quad(k.r.mul(x.c0, i), k.r.neg(k.r.mul(x.c1, i)))
  }

  /** Below is the kit of the floor below the cubic one. */
  function Fp12Mul014<T>(k: Kit<Cube<T>>, below: Kit<T>, x: Quad<Cube<T>>, o0: T, o1: T, o4: T): Quad<Cube<T>> {
    var i := k.r;
    var u, f := Fp6Mul01(below, x.c0, o0, o1), Fp6Mul1(below, x.c1, o4);
    Quad(i.add(k.nonres(f), u),
         i.sub(i.sub(Fp6Mul01(below, i.add(x.c1, x.c0), o0, below.r.add(o1, o4)), u), f))
  }

  function Fp12Mul034<T>(k: Kit<Cube<T>>, below: Kit<T>, x: Quad<Cube<T>>, o0: T, o3: T, o4: T): Quad<Cube<T>> {
    var i, c := k.r, below.r;
    var u := Cube(c.mul(x.c0.c0, o0), c.mul(x.c0.c1, o0), c.mul(x.c0.c2, o0));
    var f := Fp6Mul01(below, x.c1, o3, o4);
    var a := Fp6Mul01(below, i.add(x.c0, x.c1), c.add(o0, o3), o4);
    Quad(i.add(k.nonres(f), u), i.sub(a, i.add(u, f)))
  }

  lemma Fp12MulIsProduct<T(!new)>(k: Kit<Cube<T>>, v: Cube<T>, x: Quad<Cube<T>>, y: Quad<Cube<T>>)
    requires Lawful(k, v)
    ensures Fp12Mul(k, x, y) == QuadMul(k.r, v, x, y)
  {
    hide Lawful, Commutative;
    Shortcuts(k, v, k.r.mul(x.c1, y.c1));
    Karatsuba(k.r, x.c0, x.c1, y.c0, y.c1);
  }

  lemma Fp12SqrIsSquare<T(!new)>(k: Kit<Cube<T>>, v: Cube<T>, x: Quad<Cube<T>>)
    requires Lawful(k, v)
    ensures Fp12Sqr(k, x) == QuadMul(k.r, v, x, x)
  {
    hide Lawful, Commutative;
    var e, t, n := k.r, x.c0, x.c1;
    var r := e.mul(t, n);
    Shortcuts(k, v, n);
    Shortcuts(k, v, r);
    var vn := e.mul(v, n);
    // (v n + t)(t + n) = (v n n + t t) + (t n + v (t n))
    Expand(e, vn, t, t, n);
    MulAssoc(e, v, n, t);
    MulAssoc(e, v, n, n);
    MulComm(e, n, t);
    var whole, keep := e.mul(e.add(vn, t), e.add(t, n)), e.add(e.mul(t, t), e.mul(v, e.mul(n, n)));
    AddComm(e, e.mul(vn, n), e.mul(t, t));
    AddComm(e, e.mul(vn, t), r);
    SubSub(e, whole, r, e.mul(v, r));
    SubUnique(e, whole, e.add(r, e.mul(v, r)), keep);
  }

  lemma Fp12InvIsInverse<T(!new)>(k: Kit<Cube<T>>, v: Cube<T>, x: Quad<Cube<T>>, i: Cube<T>)
    requires Lawful(k, v) && k.r.mul(Fp12Norm(k, x), i) == k.r.one
    ensures QuadMul(k.r, v, x, Fp12Inv(k, x, i)) == Quad(k.r.one, k.r.zero)
  {
    hide Lawful, Commutative;
    var r, t, n := k.r, x.c0, x.c1;
    Shortcuts(k, v, t);
    Shortcuts(k, v, n);
    Shortcuts(k, v, k.sqr(n));
    // t (t i) + v (n (-(n i))) = (t t - v (n n)) i
    MulAssoc(r, t, t, i);
    MulAssoc(r, n, n, i);
    TimesNeg(r, n, r.mul(n, i));
    TimesNeg(r, v, r.mul(n, r.mul(n, i)));
    MulAssoc(r, v, r.mul(n, n), i);
    TimesSub(r, i, r.mul(t, t), r.mul(v, r.mul(n, n)));
    MulComm(r, i, Fp12Norm(k, x));
    MulComm(r, i, r.mul(t, t));
    MulComm(r, i, r.mul(v, r.mul(n, n)));
    // t (-(n i)) + n (t i) = 0
    TimesNeg(r, t, r.mul(n, i));
    Through(r, n, t, i);
    AddComm(r, r.neg(r.mul(t, r.mul(n, i))), r.mul(t, r.mul(n, i)));
    AddZero(r, r.mul(t, r.mul(n, i)));
  }

  // ---------------------------------------------------------------------------------------------
  // Stacking the floors

  ghost predicate Agree<T(!new)>(r: Ring<T>, s: Ring<T>) {
    && r.zero == s.zero && r.one == s.one
    && (forall x, y :: r.add(x, y) == s.add(x, y))
    && (forall x, y :: r.mul(x, y) == s.mul(x, y))
    && (forall x :: r.neg(x) == s.neg(x))
  }

  lemma AgreeAt<T(!new)>(r: Ring<T>, s: Ring<T>, x: T, y: T)
    requires Agree(r, s)
    ensures r.zero == s.zero && r.one == s.one
    ensures r.add(x, y) == s.add(x, y) && r.mul(x, y) == s.mul(x, y) && r.neg(x) == s.neg(x)
  {
  }

  lemma AgreeIsRing<T(!new)>(r: Ring<T>, s: Ring<T>)
    requires Agree(r, s) && Commutative(r)
    ensures Commutative(s)
  {
    hide Agree, Commutative;
    forall x, y ensures s.add(x, y) == s.add(y, x) && s.mul(x, y) == s.mul(y, x) {
      AgreeAt(r, s, x, y);
      AgreeAt(r, s, y, x);
      Laws(r, x, y, y);
    }
    forall x ensures s.add(x, s.zero) == x && s.add(x, s.neg(x)) == s.zero && s.mul(x, s.one) == x {
      AgreeAt(r, s, x, r.zero);
      AgreeAt(r, s, x, r.neg(x));
      AgreeAt(r, s, x, r.one);
      Laws(r, x, x, x);
    }
    forall x, y, z ensures s.add(s.add(x, y), z) == s.add(x, s.add(y, z)) {
      AgreeAt(r, s, x, y);
      AgreeAt(r, s, y, z);
      AgreeAt(r, s, r.add(x, y), z);
      AgreeAt(r, s, x, r.add(y, z));
      Laws(r, x, y, z);
    }
    forall x, y, z ensures s.mul(s.mul(x, y), z) == s.mul(x, s.mul(y, z)) {
      AgreeAt(r, s, x, y);
      AgreeAt(r, s, y, z);
      AgreeAt(r, s, r.mul(x, y), z);
      AgreeAt(r, s, x, r.mul(y, z));
      Laws(r, x, y, z);
    }
    forall x, y, z ensures s.mul(x, s.add(y, z)) == s.add(s.mul(x, y), s.mul(x, z)) {
      AgreeAt(r, s, y, z);
      AgreeAt(r, s, x, y);
      AgreeAt(r, s, x, z);
      AgreeAt(r, s, x, r.add(y, z));
      AgreeAt(r, s, r.mul(x, y), r.mul(x, z));
      Laws(r, x, y, z);
    }
    Introduce(s);
  }

  /** The Fp2 class: Karatsuba products, nonres multiplies by xi, dbl multiplies by the number 2. */
  function Fp2Kit<T>(r: Ring<T>, xi: Quad<T>): Kit<Quad<T>> {
    var q, two := Quadratic(r, r.neg(r.one)), r.add(r.one, r.one);
    Kit(Ring(q.zero, q.one, q.add, (x: Quad<T>, y: Quad<T>) => Fp2Mul(r, x, y), q.neg),
        (x: Quad<T>) => Fp2Mul(r, x, xi),
        (x: Quad<T>) => Fp2Sqr(r, x),
        (x: Quad<T>) => Quad(r.mul(x.c0, two), r.mul(x.c1, two)))
  }

  /** The Fp6 class over a floor k. */
  function Fp6Kit<T>(k: Kit<T>): Kit<Cube<T>> {
    var q := Cubic(k.r, k.r.one);
    Kit(Ring(q.zero, q.one, q.add, (x: Cube<T>, y: Cube<T>) => Fp6Mul(k, x, y), q.neg),
        (x: Cube<T>) => Fp6MulByNonres(k, x),
        (x: Cube<T>) => Fp6Sqr(k, x),
        (x: Cube<T>) => q.add(x, x))
  }

  function V<T>(r: Ring<T>): Cube<T> { Cube(r.zero, r.one, r.zero) }

  lemma Fp2KitAgrees<T(!new)>(r: Ring<T>, xi: Quad<T>)
    requires Commutative(r)
    ensures Agree(Quadratic(r, r.neg(r.one)), Fp2Kit(r, xi).r)
  {
    hide Commutative;
    forall x, y ensures Fp2Mul(r, x, y) == QuadMul(r, r.neg(r.one), x, y) { Fp2MulIsProduct(r, x, y); }
  }

  /** The second floor keeps its promises whenever the first is a commutative ring. */
  lemma Fp2KitLawful<T(!new)>(r: Ring<T>, xi: Quad<T>)
    requires Commutative(r)
    ensures Lawful(Fp2Kit(r, xi), xi)
  {
    hide Commutative, Agree;
    var q, k := Quadratic(r, r.neg(r.one)), Fp2Kit(r, xi);
    QuadraticIsRing(r, r.neg(r.one));
    Fp2KitAgrees(r, xi);
    AgreeIsRing(q, k.r);
    forall x ensures k.nonres(x) == k.r.mul(xi, x) { MulComm(k.r, x, xi); }
    forall x ensures k.sqr(x) == k.r.mul(x, x) {
      Fp2SqrIsSquare(r, x);
      Fp2MulIsProduct(r, x, x);
    }
    forall x ensures k.dbl(x) == k.r.add(x, x) {
      Laws(r, x.c0, r.one, r.one);
      Laws(r, x.c1, r.one, r.one);
    }
  }

  lemma Fp6KitAgrees<T(!new)>(k: Kit<T>, xi: T)
    requires Lawful(k, xi)
    ensures Agree(Cubic(k.r, xi), Fp6Kit(k).r)
  {
    hide Commutative, Lawful;
    forall x, y ensures Fp6Mul(k, x, y) == CubeMul(k.r, xi, x, y) { Fp6MulIsProduct(k, xi, x, y); }
  }

  lemma TimesV<T(!new)>(k: Kit<T>, xi: T, x: Cube<T>)
    requires Lawful(k, xi)
    ensures Fp6MulByNonres(k, x) == CubeMul(k.r, xi, V(k.r), x)
  {
    hide Commutative, Lawful;
    var r := k.r;
    Shortcuts(k, xi, x.c2);
    TimesZero(r, x.c0);
    TimesZero(r, x.c1);
    TimesZero(r, x.c2);
    TimesZero(r, xi);
    Laws(r, x.c0, r.zero, r.zero);
    Laws(r, x.c1, r.zero, r.zero);
    Laws(r, x.c2, r.zero, r.zero);
    AddZero(r, r.zero);
    AddZero(r, r.mul(xi, x.c2));
  }

  /** The third floor keeps its promises whenever the second does; its nonres multiplies by v. */
  lemma Fp6KitLawful<T(!new)>(k: Kit<T>, xi: T)
    requires Lawful(k, xi)
    ensures Lawful(Fp6Kit(k), V(k.r))
  {
    hide Commutative, Agree, Lawful;
    var q, l := Cubic(k.r, xi), Fp6Kit(k);
    Shortcuts(k, xi, xi);
    CubicIsRing(k.r, xi);
    Fp6KitAgrees(k, xi);
    AgreeIsRing(q, l.r);
    forall x ensures l.nonres(x) == l.r.mul(V(k.r), x) {
      TimesV(k, xi, x);
      Fp6MulIsProduct(k, xi, V(k.r), x);
    }
    forall x ensures l.sqr(x) == l.r.mul(x, x) {
      Fp6SqrIsSquare(k, xi, x);
      Fp6MulIsProduct(k, xi, x, x);
    }
    forall x ensures l.dbl(x) == l.r.add(x, x) { }
    LawfulIntro(l, V(k.r));
  }

  lemma LawfulIntro<T(!new)>(k: Kit<T>, beta: T)
    requires Commutative(k.r)
    requires forall x :: k.nonres(x) == k.r.mul(beta, x)
    requires forall x :: k.sqr(x) == k.r.mul(x, x)
    requires forall x :: k.dbl(x) == k.r.add(x, x)
    ensures Lawful(k, beta)
  {
  }

  /** Multiplying by the line (o0 + o1 v) + (o4 v) w is the full product by that element. */
  lemma Mul014IsProduct<T(!new)>(k: Kit<T>, xi: T, x: Quad<Cube<T>>, o0: T, o1: T, o4: T)
    requires Lawful(k, xi)
    ensures var z := k.r.zero; var l := Fp6Kit(k);
      Fp12Mul014(l, k, x, o0, o1, o4) == QuadMul(l.r, V(k.r), x, Quad(Cube(o0, o1, z), Cube(z, o4, z)))
  {
    hide Commutative, Lawful;
    var l, v, z := Fp6Kit(k), V(k.r), k.r.zero;
    Fp6KitLawful(k, xi);
    var a, b := Cube(o0, o1, z), Cube(z, o4, z);
    SparseProduct01(k, xi, x.c0, o0, o1);
    SparseProduct1(k, xi, x.c1, o4);
    SparseProduct01(k, xi, l.r.add(x.c1, x.c0), o0, k.r.add(o1, o4));
    Shortcuts(k, xi, xi);
    AddZero(k.r, o0);
    AddZero(k.r, z);
    assert l.r.add(a, b) == Cube(o0, k.r.add(o1, o4), z);
    Shortcuts(l, v, l.r.mul(x.c1, b));
    AddComm(l.r, x.c1, x.c0);
    AddComm(l.r, l.nonres(l.r.mul(x.c1, b)), l.r.mul(x.c0, a));
    SubSub(l.r, l.r.mul(l.r.add(x.c0, x.c1), l.r.add(a, b)), l.r.mul(x.c0, a), l.r.mul(x.c1, b));
    Karatsuba(l.r, x.c0, x.c1, a, b);
  }

  /** Multiplying by the line o0 + (o3 + o4 v) w is the full product by that element. */
  lemma Mul034IsProduct<T(!new)>(k: Kit<T>, xi: T, x: Quad<Cube<T>>, o0: T, o3: T, o4: T)
    requires Lawful(k, xi)
    ensures var z := k.r.zero; var l := Fp6Kit(k);
      Fp12Mul034(l, k, x, o0, o3, o4) == QuadMul(l.r, V(k.r), x, Quad(Cube(o0, z, z), Cube(o3, o4, z)))
  {
    hide Commutative, Lawful;
    var l, v, z := Fp6Kit(k), V(k.r), k.r.zero;
    Fp6KitLawful(k, xi);
    var a, b := Cube(o0, z, z), Cube(o3, o4, z);
    ConstantProduct(k, xi, x.c0, o0);
    SparseProduct01(k, xi, x.c1, o3, o4);
    SparseProduct01(k, xi, l.r.add(x.c0, x.c1), k.r.add(o0, o3), o4);
    Shortcuts(k, xi, xi);
    AddZero(k.r, o4);
    AddZero(k.r, z);
    assert l.r.add(a, b) == Cube(k.r.add(o0, o3), o4, z);
    Shortcuts(l, v, l.r.mul(x.c1, b));
    AddComm(l.r, l.nonres(l.r.mul(x.c1, b)), l.r.mul(x.c0, a));
    Karatsuba(l.r, x.c0, x.c1, a, b);
  }

  lemma SparseProduct01<T(!new)>(k: Kit<T>, xi: T, x: Cube<T>, b0: T, b1: T)
    requires Lawful(k, xi)
    ensures Fp6Mul01(k, x, b0, b1) == Fp6Kit(k).r.mul(x, Cube(b0, b1, k.r.zero))
  {
    hide Lawful, Commutative;
    Fp6Mul01IsProduct(k, xi, x, b0, b1);
    Fp6MulIsProduct(k, xi, x, Cube(b0, b1, k.r.zero));
  }

  lemma SparseProduct1<T(!new)>(k: Kit<T>, xi: T, x: Cube<T>, b1: T)
    requires Lawful(k, xi)
    ensures Fp6Mul1(k, x, b1) == Fp6Kit(k).r.mul(x, Cube(k.r.zero, b1, k.r.zero))
  {
    hide Lawful, Commutative;
    Fp6Mul1IsProduct(k, xi, x, b1);
    Fp6MulIsProduct(k, xi, x, Cube(k.r.zero, b1, k.r.zero));
  }

  lemma ConstantProduct<T(!new)>(k: Kit<T>, xi: T, x: Cube<T>, b: T)
    requires Lawful(k, xi)
    ensures Cube(k.r.mul(x.c0, b), k.r.mul(x.c1, b), k.r.mul(x.c2, b))
      == Fp6Kit(k).r.mul(x, Cube(b, k.r.zero, k.r.zero))
  {
    hide Lawful, Commutative;
    var r := k.r;
    Shortcuts(k, xi, xi);
    Fp6MulIsProduct(k, xi, x, Cube(b, r.zero, r.zero));
    TimesZero(r, x.c0);
    TimesZero(r, x.c1);
    TimesZero(r, x.c2);
    TimesZero(r, xi);
    AddZero(r, r.zero);
    AddZero(r, r.mul(x.c0, b));
    AddZero(r, r.mul(x.c1, b));
    AddZero(r, r.mul(x.c2, b));
  }

  // ---------------------------------------------------------------------------------------------
  // The BN254 tower

  type Fp = PrimeField.Fp

  /** 9 + u. */
  function Xi(): Quad<Fp> { Quad(9, 1) }

  function Fp2(): Kit<Quad<Fp>> { Fp2Kit(PrimeField.Field(), Xi()) }

  function Fp6(): Kit<Cube<Quad<Fp>>> { Fp6Kit(Fp2()) }

  /** Schoolbook Fp12 = Fp[u]/(u^2 + 1), [v]/(v^3 - xi), [w]/(w^2 - v). */
  function Schoolbook(): Ring<Quad<Cube<Quad<Fp>>>> {
    var f := PrimeField.Field();
    var q := Quadratic(f, f.neg(f.one));
    Quadratic(Cubic(q, Xi()), V(q))
  }

  lemma AgreeCubic<T(!new)>(r: Ring<T>, s: Ring<T>, xi: T)
    requires Agree(r, s)
    ensures Agree(Cubic(r, xi), Cubic(s, xi))
  {
    var p, q := Cubic(r, xi), Cubic(s, xi);
    forall x, y ensures p.add(x, y) == q.add(x, y) {
      AgreeAt(r, s, x.c0, y.c0);
      AgreeAt(r, s, x.c1, y.c1);
      AgreeAt(r, s, x.c2, y.c2);
    }
    forall x, y ensures p.mul(x, y) == q.mul(x, y) { assert CubeMul(r, xi, x, y) == CubeMul(s, xi, x, y); }
    forall x ensures p.neg(x) == q.neg(x) {
      AgreeAt(r, s, x.c0, x.c0);
      AgreeAt(r, s, x.c1, x.c1);
      AgreeAt(r, s, x.c2, x.c2);
    }
  }

  lemma AgreeQuadratic<T(!new)>(r: Ring<T>, s: Ring<T>, beta: T)
    requires Agree(r, s)
    ensures Agree(Quadratic(r, beta), Quadratic(s, beta))
  {
    var p, q := Quadratic(r, beta), Quadratic(s, beta);
    forall x, y ensures p.add(x, y) == q.add(x, y) {
      AgreeAt(r, s, x.c0, y.c0);
      AgreeAt(r, s, x.c1, y.c1);
    }
    forall x, y ensures p.mul(x, y) == q.mul(x, y) { assert QuadMul(r, beta, x, y) == QuadMul(s, beta, x, y); }
    forall x ensures p.neg(x) == q.neg(x) {
      AgreeAt(r, s, x.c0, x.c0);
      AgreeAt(r, s, x.c1, x.c1);
    }
  }

  lemma AgreeTransitive<T(!new)>(r: Ring<T>, s: Ring<T>, t: Ring<T>)
    requires Agree(r, s) && Agree(s, t)
    ensures Agree(r, t)
  {
  }

  /** The floors are lawful over the actual prime field, and the nested fast product and square of the whole
      tower are the schoolbook ones. */
  lemma Fp12IsSchoolbook(x: Quad<Cube<Quad<Fp>>>, y: Quad<Cube<Quad<Fp>>>)
    ensures Lawful(Fp2(), Xi()) && Lawful(Fp6(), V(Fp2().r)) && Commutative(Schoolbook())
    ensures Fp12Mul(Fp6(), x, y) == Schoolbook().mul(x, y)
    ensures Fp12Sqr(Fp6(), x) == Schoolbook().mul(x, x)
  {
    hide Agree, Lawful, Commutative;
    var f := PrimeField.Field();
    var q := Quadratic(f, f.neg(f.one));
    PrimeField.FieldIsRing();
    Fp2KitLawful(f, Xi());
    Fp6KitLawful(Fp2(), Xi());
    QuadraticIsRing(f, f.neg(f.one));
    CubicIsRing(q, Xi());
    QuadraticIsRing(Cubic(q, Xi()), V(q));
    Fp12MulIsProduct(Fp6(), V(Fp2().r), x, y);
    Fp12SqrIsSquare(Fp6(), V(Fp2().r), x);
    Fp2KitAgrees(f, Xi());
    AgreeCubic(q, Fp2().r, Xi());
    Fp6KitAgrees(Fp2(), Xi());
    AgreeTransitive(Cubic(q, Xi()), Cubic(Fp2().r, Xi()), Fp6().r);
    AgreeQuadratic(Cubic(q, Xi()), Fp6().r, V(q));
    AgreeAt(Schoolbook(), Quadratic(Fp6().r, V(q)), x, y);
    AgreeAt(Schoolbook(), Quadratic(Fp6().r, V(q)), x, x);
  }

  /** The norm of an Fp12 element, taken down the three floors to Fp. */
  function NormToFp(x: Quad<Cube<Quad<Fp>>>): Fp {
    Fp2Norm(PrimeField.Field(), Fp6Norm(Fp2(), Fp12Norm(Fp6(), x)))
  }

  // ---------------------------------------------------------------------------------------------
  // Inversion finds every inverse

  lemma RegularAgrees<T(!new)>(r: Ring<T>, s: Ring<T>, x: T)
    requires Agree(r, s) && Regular(r, x)
    ensures Regular(s, x)
  {
    hide Regular;
    forall z | s.mul(x, z) == s.zero ensures z == s.zero {
      AgreeAt(r, s, x, z);
      RegularAt(r, x, z);
    }
    RegularIntro(s, x);
  }

  /** x times its conjugate is the norm: on the third floor, */
  lemma Fp12Conjugate<T(!new)>(k: Kit<Cube<T>>, v: Cube<T>, x: Quad<Cube<T>>)
    requires Lawful(k, v)
    ensures QuadMul(k.r, v, x, Quad(x.c0, k.r.neg(x.c1))) == Quad(Fp12Norm(k, x), k.r.zero)
  {
    hide Lawful, Commutative;
    var r, t, n := k.r, x.c0, x.c1;
    Shortcuts(k, v, t);
    Shortcuts(k, v, n);
    Shortcuts(k, v, k.sqr(n));
    TimesNeg(r, n, n);
    TimesNeg(r, v, r.mul(n, n));
    TimesNeg(r, t, n);
    MulComm(r, n, t);
    AddComm(r, r.neg(r.mul(t, n)), r.mul(t, n));
    AddZero(r, r.mul(t, n));
  }

  /** and on the first. */
  lemma Fp2Conjugate<T(!new)>(r: Ring<T>, x: Quad<T>)
    requires Commutative(r)
    ensures QuadMul(r, r.neg(r.one), x, Quad(x.c0, r.neg(x.c1))) == Quad(Fp2Norm(r, x), r.zero)
  {
    hide Commutative;
    var t, n := x.c0, x.c1;
    TimesNeg(r, n, n);
    MinusOne(r, r.mul(n, r.neg(n)));
    NegNeg(r, r.mul(n, n));
    TimesNeg(r, t, n);
    MulComm(r, n, t);
    AddComm(r, r.neg(r.mul(t, n)), r.mul(t, n));
    AddZero(r, r.mul(t, n));
  }

  lemma NegNeg<T(!new)>(r: Ring<T>, x: T)
    requires Commutative(r)
    ensures r.neg(r.neg(x)) == x
  {
    hide Commutative;
    Laws(r, x, r.neg(x), x);
    Laws(r, r.neg(x), r.neg(r.neg(x)), x);
    CancelRight(r, r.neg(r.neg(x)), x, r.neg(x));
  }

  /** On the second floor the cofactors play that part. */
  lemma Fp6Conjugate<T(!new)>(k: Kit<T>, xi: T, x: Cube<T>)
    requires Lawful(k, xi)
    ensures CubeMul(k.r, xi, x, Cofactors(k.r, xi, x)) == Cube(Fp6Norm(k, x), k.r.zero, k.r.zero)
  {
    hide Lawful, Commutative, CubeMul;
    CofactorsPlain(k, xi, x);
    CofactorProduct(k, xi, x);
  }

  /** The norms down to Fp divide no zero, for an element that has an inverse. */
  lemma NormIsRegular(x: Quad<Cube<Quad<Fp>>>, y: Quad<Cube<Quad<Fp>>>)
    requires Schoolbook().mul(x, y) == Schoolbook().one
    ensures Regular(PrimeField.Field(), NormToFp(x))
  {
    hide Agree, Lawful, Commutative, Regular, Fp12Norm, Fp6Norm, Fp2Norm, QuadMul, CubeMul, Cofactors;
    var f := PrimeField.Field();
    var q := Quadratic(f, f.neg(f.one));
    var n6 := Fp12Norm(Fp6(), x);
    var n2 := Fp6Norm(Fp2(), n6);
    PrimeField.FieldIsRing();
    Fp12IsSchoolbook(x, y);
    LawfulRing(Fp2(), Xi());
    LawfulRing(Fp6(), V(Fp2().r));
    InvertibleIsRegular(Schoolbook(), x, y);
    Fp2KitAgrees(f, Xi());
    AgreeCubic(q, Fp2().r, Xi());
    Fp6KitAgrees(Fp2(), Xi());
    AgreeTransitive(Cubic(q, Xi()), Cubic(Fp2().r, Xi()), Fp6().r);
    AgreeQuadratic(Cubic(q, Xi()), Fp6().r, V(q));
    RegularAgrees(Schoolbook(), Quadratic(Fp6().r, V(q)), x);
    Fp12Conjugate(Fp6(), V(Fp2().r), x);
    QuadNormRegular(Fp6().r, V(q), x, n6);
    AgreeSymmetric(Cubic(Fp2().r, Xi()), Fp6().r);
    RegularAgrees(Fp6().r, Cubic(Fp2().r, Xi()), n6);
    Fp6Conjugate(Fp2(), Xi(), n6);
    CubeNormRegular(Fp2().r, Xi(), n6, n2);
    AgreeSymmetric(q, Fp2().r);
    RegularAgrees(Fp2().r, q, n2);
    Fp2Conjugate(f, n2);
    QuadNormRegular(f, f.neg(f.one), n2, Fp2Norm(f, n2));
  }

  lemma AgreeSymmetric<T(!new)>(r: Ring<T>, s: Ring<T>)
    requires Agree(r, s)
    ensures Agree(s, r)
  {
  }

  lemma LawfulRing<T(!new)>(k: Kit<T>, beta: T)
    requires Lawful(k, beta)
    ensures Commutative(k.r)
  {
  }

  /** An element of Fp that divides no zero is coprime to P, prime or not. */
  lemma RegularIsCoprime(n: Fp)
    requires Regular(PrimeField.Field(), n)
    ensures n != 0 && Inverse.Coprime(n, PrimeField.P)
  {
    hide Regular;
    var f := PrimeField.Field();
    if n == 0 { RegularAt(f, n, 1); }
    forall d: int | d > 1 && Inverse.Divides(d, n) ensures !Inverse.Divides(d, PrimeField.P) {
      if Inverse.Divides(d, PrimeField.P) {
        var b: int :| Inverse.IsProduct(PrimeField.P, d, b);
        var c: int :| Inverse.IsProduct(n, d, c);
        Cofactor(d, b, PrimeField.P);
        var z: Fp := b;
        assert n * z == PrimeField.P * c;
        PrimeField.ModUnique(n * z, PrimeField.P, c, 0);
        RegularAt(f, n, z);
      }
    }
  }

  lemma Cofactor(d: int, b: int, p: int)
    requires d > 1 && p > 0 && p == d * b
    ensures 0 < b < p
  {
    assert d * b == b + (d - 1) * b;
  }

  predicate Inverts(x: Quad<Cube<Quad<Fp>>>, y: Quad<Cube<Quad<Fp>>>) { Schoolbook().mul(x, y) == Schoolbook().one }

  ghost predicate Invertible(x: Quad<Cube<Quad<Fp>>>) {
    exists y :: Inverts(x, y)
  }

  /** inv of an Fp12 element: one inversion in Fp, carried back up. None stands for the exception; it is thrown
      exactly for elements that have no inverse. */
  method Fp12Invert(x: Quad<Cube<Quad<Fp>>>) returns (y: Option<Quad<Cube<Quad<Fp>>>>)
    ensures y.Some? <==> Invertible(x)
    ensures y.Some? ==> Inverts(x, y.value)
  {
    hide Lawful, Commutative, Fp12Norm, Fp6Norm, Fp2Norm, Fp12Inv, Fp6Inv, Fp2Inv, Inverse.Coprime;
    var f := PrimeField.Field();
    var n6 := Fp12Norm(Fp6(), x);
    var n2 := Fp6Norm(Fp2(), n6);
    var i := PrimeField.Invert(Fp2Norm(f, n2));
    if i == None {
      NoInverse(x);
      return None;
    }
    var i2 := Fp2Inv(f, n2, i.value);
    var i6 := Fp6Inv(Fp2(), n6, i2);
    var r := Fp12Inv(Fp6(), x, i6);
    Fp12IsSchoolbook(x, r);
    PrimeField.FieldIsRing();
    Fp2InvIsInverse(f, n2, i.value);
    Fp2MulIsProduct(f, n2, i2);
    Fp6InvIsInverse(Fp2(), Xi(), n6, i2);
    Fp6MulIsProduct(Fp2(), Xi(), n6, i6);
    Fp12InvIsInverse(Fp6(), V(Fp2().r), x, i6);
    Fp12MulIsProduct(Fp6(), V(Fp2().r), x, r);
    y := Some(r);
    assert Inverts(x, r);
  }

  lemma NoInverse(x: Quad<Cube<Quad<Fp>>>)
    requires NormToFp(x) == 0 || !Inverse.Coprime(NormToFp(x), PrimeField.P)
    ensures !Invertible(x)
  {
    hide NormToFp, Inverse.Coprime;
    if y :| Inverts(x, y) {
      NormIsRegular(x, y);
      RegularIsCoprime(NormToFp(x));
    }
  }
}
