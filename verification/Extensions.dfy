/** Quadratic and cubic extensions of a commutative ring, by schoolbook multiplication modulo u^2 - beta and
    v^3 - xi. Both are commutative rings again, so that the tower can be stacked. */
module Extensions {
  import opened Rings

  datatype Quad<T> = Quad(c0: T, c1: T)

  datatype Cube<T> = Cube(c0: T, c1: T, c2: T)

  function QuadMul<T>(r: Ring<T>, beta: T, x: Quad<T>, y: Quad<T>): Quad<T> {
    Quad(r.add(r.mul(x.c0, y.c0), r.mul(beta, r.mul(x.c1, y.c1))),
         r.add(r.mul(x.c0, y.c1), r.mul(x.c1, y.c0)))
  }

  function Quadratic<T>(r: Ring<T>, beta: T): Ring<Quad<T>> {
    Ring(Quad(r.zero, r.zero), Quad(r.one, r.zero),
         (x: Quad<T>, y: Quad<T>) => Quad(r.add(x.c0, y.c0), r.add(x.c1, y.c1)),
         (x: Quad<T>, y: Quad<T>) => QuadMul(r, beta, x, y),
         (x: Quad<T>) => Quad(r.neg(x.c0), r.neg(x.c1)))
  }

  function CubeMul<T>(r: Ring<T>, xi: T, x: Cube<T>, y: Cube<T>): Cube<T> {
    Cube(r.add(r.mul(x.c0, y.c0), r.mul(xi, r.add(r.mul(x.c1, y.c2), r.mul(x.c2, y.c1)))),
         r.add(r.add(r.mul(x.c0, y.c1), r.mul(x.c1, y.c0)), r.mul(xi, r.mul(x.c2, y.c2))),
         r.add(r.add(r.mul(x.c0, y.c2), r.mul(x.c2, y.c0)), r.mul(x.c1, y.c1)))
  }

  function Cubic<T>(r: Ring<T>, xi: T): Ring<Cube<T>> {
    Ring(Cube(r.zero, r.zero, r.zero), Cube(r.one, r.zero, r.zero),
         (x: Cube<T>, y: Cube<T>) => Cube(r.add(x.c0, y.c0), r.add(x.c1, y.c1), r.add(x.c2, y.c2)),
         (x: Cube<T>, y: Cube<T>) => CubeMul(r, xi, x, y),
         (x: Cube<T>) => Cube(r.neg(x.c0), r.neg(x.c1), r.neg(x.c2)))
  }

  // ---------------------------------------------------------------------------------------------
  // Multiplication in the quadratic extension

  lemma QuadComm<T(!new)>(r: Ring<T>, beta: T, x: Quad<T>, y: Quad<T>)
    requires Commutative(r)
    ensures QuadMul(r, beta, x, y) == QuadMul(r, beta, y, x)
  {
    hide Commutative;
    Laws(r, x.c0, y.c0, y.c0);
    Laws(r, x.c1, y.c1, y.c1);
    Laws(r, x.c0, y.c1, y.c1);
    Laws(r, x.c1, y.c0, y.c0);
    Laws(r, r.mul(x.c0, y.c1), r.mul(x.c1, y.c0), r.zero);
  }

  lemma QuadUnit<T(!new)>(r: Ring<T>, beta: T, x: Quad<T>)
    requires Commutative(r)
    ensures QuadMul(r, beta, x, Quad(r.one, r.zero)) == x
  {
    hide Commutative;
    Laws(r, x.c0, r.zero, r.zero);
    Laws(r, x.c1, r.zero, r.zero);
    TimesZero(r, x.c0);
    TimesZero(r, x.c1);
    TimesZero(r, beta);
    Laws(r, r.zero, x.c1, r.zero);
  }

  lemma QuadDist<T(!new)>(r: Ring<T>, beta: T, x: Quad<T>, y: Quad<T>, z: Quad<T>)
    requires Commutative(r)
    ensures QuadMul(r, beta, x, Quad(r.add(y.c0, z.c0), r.add(y.c1, z.c1))) ==
      var p, q := QuadMul(r, beta, x, y), QuadMul(r, beta, x, z);
      Quad(r.add(p.c0, q.c0), r.add(p.c1, q.c1))
  {
    hide Commutative;
    Laws(r, x.c0, y.c0, z.c0);
    Laws(r, x.c0, y.c1, z.c1);
    Laws(r, x.c1, y.c0, z.c0);
    Laws(r, x.c1, y.c1, z.c1);
    Laws(r, beta, r.mul(x.c1, y.c1), r.mul(x.c1, z.c1));
    AddSwap(r, r.mul(x.c0, y.c0), r.mul(x.c0, z.c0), r.mul(beta, r.mul(x.c1, y.c1)), r.mul(beta, r.mul(x.c1, z.c1)));
    AddSwap(r, r.mul(x.c0, y.c1), r.mul(x.c0, z.c1), r.mul(x.c1, y.c0), r.mul(x.c1, z.c0));
  }

  /** beta (x y) z and x (beta (y z)) are one monomial. */
  lemma Slide<T(!new)>(r: Ring<T>, k: T, x: T, y: T, z: T)
    requires Commutative(r)
    ensures r.mul(r.mul(k, r.mul(x, y)), z) == r.mul(k, r.mul(x, r.mul(y, z)))
    ensures r.mul(x, r.mul(k, r.mul(y, z))) == r.mul(k, r.mul(x, r.mul(y, z)))
  {
    hide Commutative;
    Laws(r, k, r.mul(x, y), z);
    Laws(r, x, y, z);
    Laws(r, x, k, r.mul(y, z));
    Laws(r, k, x, r.mul(y, z));
  }

  lemma QuadAssoc<T(!new)>(r: Ring<T>, beta: T, x: Quad<T>, y: Quad<T>, z: Quad<T>)
    requires Commutative(r)
    ensures QuadMul(r, beta, QuadMul(r, beta, x, y), z) == QuadMul(r, beta, x, QuadMul(r, beta, y, z))
  {
    hide Commutative;
    var xy, yz := QuadMul(r, beta, x, y), QuadMul(r, beta, y, z);
    // constant part
    var m000, m110 := r.mul(x.c0, r.mul(y.c0, z.c0)), r.mul(beta, r.mul(x.c1, r.mul(y.c1, z.c0)));
    var m011, m101 := r.mul(beta, r.mul(x.c0, r.mul(y.c1, z.c1))), r.mul(beta, r.mul(x.c1, r.mul(y.c0, z.c1)));
    Laws(r, z.c0, r.mul(x.c0, y.c0), r.mul(beta, r.mul(x.c1, y.c1)));
    Laws(r, x.c0, y.c0, z.c0);
    Slide(r, beta, x.c1, y.c1, z.c0);
    Laws(r, z.c1, r.mul(x.c0, y.c1), r.mul(x.c1, y.c0));
    Laws(r, x.c0, y.c1, z.c1);
    Laws(r, x.c1, y.c0, z.c1);
    Laws(r, beta, r.mul(x.c0, r.mul(y.c1, z.c1)), r.mul(x.c1, r.mul(y.c0, z.c1)));
    assert r.add(r.mul(xy.c0, z.c0), r.mul(beta, r.mul(xy.c1, z.c1))) == r.add(r.add(m000, m110), r.add(m011, m101));
    Laws(r, x.c0, r.mul(y.c0, z.c0), r.mul(beta, r.mul(y.c1, z.c1)));
    Slide(r, beta, x.c0, y.c1, z.c1);
    Laws(r, x.c1, r.mul(y.c0, z.c1), r.mul(y.c1, z.c0));
    Laws(r, beta, r.mul(x.c1, r.mul(y.c0, z.c1)), r.mul(x.c1, r.mul(y.c1, z.c0)));
    assert r.add(r.mul(x.c0, yz.c0), r.mul(beta, r.mul(x.c1, yz.c1))) == r.add(r.add(m000, m011), r.add(m101, m110));
    AddSwap(r, m000, m110, m011, m101);
    Laws(r, m110, m101, m101);
    QuadAssocTop(r, beta, x, y, z);
  }

  lemma QuadAssocTop<T(!new)>(r: Ring<T>, beta: T, x: Quad<T>, y: Quad<T>, z: Quad<T>)
    requires Commutative(r)
    ensures QuadMul(r, beta, QuadMul(r, beta, x, y), z).c1 == QuadMul(r, beta, x, QuadMul(r, beta, y, z)).c1
  {
    hide Commutative;
    var xy, yz := QuadMul(r, beta, x, y), QuadMul(r, beta, y, z);
    var m001, m111 := r.mul(x.c0, r.mul(y.c0, z.c1)), r.mul(beta, r.mul(x.c1, r.mul(y.c1, z.c1)));
    var m010, m100 := r.mul(x.c0, r.mul(y.c1, z.c0)), r.mul(x.c1, r.mul(y.c0, z.c0));
    Laws(r, z.c1, r.mul(x.c0, y.c0), r.mul(beta, r.mul(x.c1, y.c1)));
    Laws(r, x.c0, y.c0, z.c1);
    Slide(r, beta, x.c1, y.c1, z.c1);
    Laws(r, z.c0, r.mul(x.c0, y.c1), r.mul(x.c1, y.c0));
    Laws(r, x.c0, y.c1, z.c0);
    Laws(r, x.c1, y.c0, z.c0);
    Laws(r, x.c0, r.mul(y.c0, z.c1), r.mul(y.c1, z.c0));
    Laws(r, x.c1, r.mul(y.c0, z.c0), r.mul(beta, r.mul(y.c1, z.c1)));
    AddSwap(r, m001, m111, m010, m100);
    Laws(r, m111, m100, m100);
  }

  lemma QuadLaws<T(!new)>(r: Ring<T>, beta: T, x: Quad<T>, y: Quad<T>, z: Quad<T>)
    requires Commutative(r)
    ensures var q := Quadratic(r, beta);
      && q.add(x, y) == q.add(y, x) && q.add(q.add(x, y), z) == q.add(x, q.add(y, z))
      && q.add(x, q.zero) == x && q.add(x, q.neg(x)) == q.zero
      && q.mul(x, y) == q.mul(y, x) && q.mul(q.mul(x, y), z) == q.mul(x, q.mul(y, z))
      && q.mul(x, q.one) == x && q.mul(x, q.add(y, z)) == q.add(q.mul(x, y), q.mul(x, z))
  {
    hide Commutative, QuadMul;
    Laws(r, x.c0, y.c0, z.c0);
    Laws(r, x.c1, y.c1, z.c1);
    QuadComm(r, beta, x, y);
    QuadAssoc(r, beta, x, y, z);
    QuadUnit(r, beta, x);
    QuadDist(r, beta, x, y, z);
  }

  /** A quadratic extension of a commutative ring is a commutative ring. */
  lemma QuadraticIsRing<T(!new)>(r: Ring<T>, beta: T)
    requires Commutative(r)
    ensures Commutative(Quadratic(r, beta))
  {
    hide Commutative, Quadratic;
    var q := Quadratic(r, beta);
    forall x, y ensures q.add(x, y) == q.add(y, x) { QuadLaws(r, beta, x, y, y); }
    forall x, y, z ensures q.add(q.add(x, y), z) == q.add(x, q.add(y, z)) { QuadLaws(r, beta, x, y, z); }
    forall x ensures q.add(x, q.zero) == x { QuadLaws(r, beta, x, x, x); }
    forall x ensures q.add(x, q.neg(x)) == q.zero { QuadLaws(r, beta, x, x, x); }
    forall x, y ensures q.mul(x, y) == q.mul(y, x) { QuadLaws(r, beta, x, y, y); }
    forall x, y, z ensures q.mul(q.mul(x, y), z) == q.mul(x, q.mul(y, z)) { QuadLaws(r, beta, x, y, z); }
    forall x ensures q.mul(x, q.one) == x { QuadLaws(r, beta, x, x, x); }
    forall x, y, z ensures q.mul(x, q.add(y, z)) == q.add(q.mul(x, y), q.mul(x, z)) { QuadLaws(r, beta, x, y, z); }
    Introduce(q);
  }

  // ---------------------------------------------------------------------------------------------
  // Multiplication in the cubic extension

  lemma CubeComm<T(!new)>(r: Ring<T>, xi: T, x: Cube<T>, y: Cube<T>)
    requires Commutative(r)
    ensures CubeMul(r, xi, x, y) == CubeMul(r, xi, y, x)
  {
    hide Commutative;
    Laws(r, x.c0, y.c0, r.zero);
    Laws(r, x.c0, y.c1, r.zero);
    Laws(r, x.c0, y.c2, r.zero);
    Laws(r, x.c1, y.c0, r.zero);
    Laws(r, x.c1, y.c1, r.zero);
    Laws(r, x.c1, y.c2, r.zero);
    Laws(r, x.c2, y.c0, r.zero);
    Laws(r, x.c2, y.c1, r.zero);
    Laws(r, x.c2, y.c2, r.zero);
    Laws(r, r.mul(x.c1, y.c2), r.mul(x.c2, y.c1), r.zero);
    Laws(r, r.mul(x.c0, y.c1), r.mul(x.c1, y.c0), r.zero);
    Laws(r, r.mul(x.c0, y.c2), r.mul(x.c2, y.c0), r.zero);
  }

  lemma CubeUnit<T(!new)>(r: Ring<T>, xi: T, x: Cube<T>)
    requires Commutative(r)
    ensures CubeMul(r, xi, x, Cube(r.one, r.zero, r.zero)) == x
  {
    hide Commutative;
    Laws(r, x.c0, r.zero, r.zero);
    Laws(r, x.c1, r.zero, r.zero);
    Laws(r, x.c2, r.zero, r.zero);
    Laws(r, r.zero, x.c1, r.zero);
    Laws(r, r.zero, x.c2, r.zero);
    TimesZero(r, x.c0);
    TimesZero(r, x.c1);
    TimesZero(r, x.c2);
    TimesZero(r, xi);
  }

  lemma CubeDist<T(!new)>(r: Ring<T>, xi: T, x: Cube<T>, y: Cube<T>, z: Cube<T>)
    requires Commutative(r)
    ensures CubeMul(r, xi, x, Cube(r.add(y.c0, z.c0), r.add(y.c1, z.c1), r.add(y.c2, z.c2))) ==
      var p, q := CubeMul(r, xi, x, y), CubeMul(r, xi, x, z);
      Cube(r.add(p.c0, q.c0), r.add(p.c1, q.c1), r.add(p.c2, q.c2))
  {
    hide Commutative;
    PairDist(r, x.c1, x.c2, y.c2, z.c2, y.c1, z.c1);
    Laws(r, x.c0, y.c0, z.c0);
    Laws(r, xi, r.add(r.mul(x.c1, y.c2), r.mul(x.c2, y.c1)), r.add(r.mul(x.c1, z.c2), r.mul(x.c2, z.c1)));
    AddSwap(r, r.mul(x.c0, y.c0), r.mul(x.c0, z.c0),
            r.mul(xi, r.add(r.mul(x.c1, y.c2), r.mul(x.c2, y.c1))),
            r.mul(xi, r.add(r.mul(x.c1, z.c2), r.mul(x.c2, z.c1))));
    PairDist(r, x.c0, x.c1, y.c1, z.c1, y.c0, z.c0);
    Laws(r, x.c2, y.c2, z.c2);
    Laws(r, xi, r.mul(x.c2, y.c2), r.mul(x.c2, z.c2));
    AddSwap(r, r.add(r.mul(x.c0, y.c1), r.mul(x.c1, y.c0)), r.add(r.mul(x.c0, z.c1), r.mul(x.c1, z.c0)),
            r.mul(xi, r.mul(x.c2, y.c2)), r.mul(xi, r.mul(x.c2, z.c2)));
    PairDist(r, x.c0, x.c2, y.c2, z.c2, y.c0, z.c0);
    Laws(r, x.c1, y.c1, z.c1);
    AddSwap(r, r.add(r.mul(x.c0, y.c2), r.mul(x.c2, y.c0)), r.add(r.mul(x.c0, z.c2), r.mul(x.c2, z.c0)),
            r.mul(x.c1, y.c1), r.mul(x.c1, z.c1));
  }

  lemma PairDist<T(!new)>(r: Ring<T>, a: T, b: T, c: T, c': T, d: T, d': T)
    requires Commutative(r)
    ensures r.add(r.mul(a, r.add(c, c')), r.mul(b, r.add(d, d'))) ==
      r.add(r.add(r.mul(a, c), r.mul(b, d)), r.add(r.mul(a, c'), r.mul(b, d')))
  {
    hide Commutative;
    Laws(r, a, c, c');
    Laws(r, b, d, d');
    AddSwap(r, r.mul(a, c), r.mul(a, c'), r.mul(b, d), r.mul(b, d'));
  }

  /** A product of three coefficients. */
  function Mono<T>(r: Ring<T>, a: T, b: T, c: T): T { r.mul(a, r.mul(b, c)) }

  // A coefficient of a product times a coefficient, as three monomials: last factor or first.

  lemma Coef0<T(!new)>(r: Ring<T>, xi: T, x: Cube<T>, y: Cube<T>, k: T)
    requires Commutative(r)
    ensures r.mul(CubeMul(r, xi, x, y).c0, k) ==
      Add3(r, Mono(r, x.c0, y.c0, k), r.mul(xi, Mono(r, x.c1, y.c2, k)), r.mul(xi, Mono(r, x.c2, y.c1, k)))
    ensures r.mul(k, CubeMul(r, xi, x, y).c0) ==
      Add3(r, Mono(r, k, x.c0, y.c0), r.mul(xi, Mono(r, k, x.c1, y.c2)), r.mul(xi, Mono(r, k, x.c2, y.c1)))
  {
    hide Commutative;
    var a, b, c := r.mul(x.c0, y.c0), r.mul(x.c1, y.c2), r.mul(x.c2, y.c1);
    Laws(r, xi, b, c);
    Laws(r, a, r.mul(xi, b), r.mul(xi, c));
    Times3(r, k, a, r.mul(xi, b), r.mul(xi, c));
    Laws(r, x.c0, y.c0, k);
    Laws(r, k, a, a);
    Slides(r, xi, x.c1, y.c2, k);
    Slides(r, xi, x.c2, y.c1, k);
  }

  lemma Coef1<T(!new)>(r: Ring<T>, xi: T, x: Cube<T>, y: Cube<T>, k: T)
    requires Commutative(r)
    ensures r.mul(CubeMul(r, xi, x, y).c1, k) ==
      Add3(r, Mono(r, x.c0, y.c1, k), Mono(r, x.c1, y.c0, k), r.mul(xi, Mono(r, x.c2, y.c2, k)))
    ensures r.mul(k, CubeMul(r, xi, x, y).c1) ==
      Add3(r, Mono(r, k, x.c0, y.c1), Mono(r, k, x.c1, y.c0), r.mul(xi, Mono(r, k, x.c2, y.c2)))
  {
    hide Commutative;
    var a, b, c := r.mul(x.c0, y.c1), r.mul(x.c1, y.c0), r.mul(x.c2, y.c2);
    Times3(r, k, a, b, r.mul(xi, c));
    Laws(r, x.c0, y.c1, k);
    Laws(r, x.c1, y.c0, k);
    Laws(r, k, a, a);
    Laws(r, k, b, b);
    Slides(r, xi, x.c2, y.c2, k);
  }

  lemma Coef2<T(!new)>(r: Ring<T>, xi: T, x: Cube<T>, y: Cube<T>, k: T)
    requires Commutative(r)
    ensures r.mul(CubeMul(r, xi, x, y).c2, k) ==
      Add3(r, Mono(r, x.c0, y.c2, k), Mono(r, x.c2, y.c0, k), Mono(r, x.c1, y.c1, k))
    ensures r.mul(k, CubeMul(r, xi, x, y).c2) ==
      Add3(r, Mono(r, k, x.c0, y.c2), Mono(r, k, x.c2, y.c0), Mono(r, k, x.c1, y.c1))
  {
    hide Commutative;
    var a, b, c := r.mul(x.c0, y.c2), r.mul(x.c2, y.c0), r.mul(x.c1, y.c1);
    Times3(r, k, a, b, c);
    Laws(r, x.c0, y.c2, k);
    Laws(r, x.c2, y.c0, k);
    Laws(r, x.c1, y.c1, k);
    Laws(r, k, a, a);
    Laws(r, k, b, b);
    Laws(r, k, c, c);
  }

  lemma Slides<T(!new)>(r: Ring<T>, xi: T, x: T, y: T, k: T)
    requires Commutative(r)
    ensures r.mul(k, r.mul(xi, r.mul(x, y))) == r.mul(xi, Mono(r, x, y, k)) == r.mul(xi, Mono(r, k, x, y))
    ensures r.mul(r.mul(xi, r.mul(x, y)), k) == r.mul(xi, Mono(r, x, y, k))
  {
    hide Commutative;
    Slide(r, xi, x, y, k);
    Slide(r, xi, k, x, y);
    Laws(r, k, r.mul(xi, r.mul(x, y)), k);
    Laws(r, k, r.mul(x, y), k);
    Laws(r, x, y, k);
  }

  // The coefficients of a triple product, one at a time: nine monomials a side, in two groupings.

  lemma CubeAssoc0<T(!new)>(r: Ring<T>, xi: T, x: Cube<T>, y: Cube<T>, z: Cube<T>)
    requires Commutative(r)
    ensures CubeMul(r, xi, CubeMul(r, xi, x, y), z).c0 == CubeMul(r, xi, x, CubeMul(r, xi, y, z)).c0
  {
    hide Commutative, Mono, CubeMul;
    CubeAssoc0Left(r, xi, x, y, z);
    CubeAssoc0Right(r, xi, x, y, z);
    var a, b, c := Mono(r, x.c0, y.c0, z.c0), Mono(r, x.c1, y.c2, z.c0), Mono(r, x.c2, y.c1, z.c0);
    var d, e, f := Mono(r, x.c0, y.c1, z.c2), Mono(r, x.c1, y.c0, z.c2), Mono(r, x.c2, y.c2, z.c2);
    var g, h, i := Mono(r, x.c0, y.c2, z.c1), Mono(r, x.c2, y.c0, z.c1), Mono(r, x.c1, y.c1, z.c1);
    var s := (v: T) => r.mul(xi, v);
    Regroup9(r, a, s(b), s(c), s(d), s(e), s(s(f)), s(g), s(h), s(i));
    Add3Orders(r, s(b), s(e), s(i));
    Add3Orders(r, s(c), s(s(f)), s(h));
  }

  lemma CubeAssoc0Left<T(!new)>(r: Ring<T>, xi: T, x: Cube<T>, y: Cube<T>, z: Cube<T>)
    requires Commutative(r)
    ensures CubeMul(r, xi, CubeMul(r, xi, x, y), z).c0 ==
      Add3(r,
        Add3(r, Mono(r, x.c0, y.c0, z.c0), r.mul(xi, Mono(r, x.c1, y.c2, z.c0)), r.mul(xi, Mono(r, x.c2, y.c1, z.c0))),
        Add3(r, r.mul(xi, Mono(r, x.c0, y.c1, z.c2)), r.mul(xi, Mono(r, x.c1, y.c0, z.c2)),
             r.mul(xi, r.mul(xi, Mono(r, x.c2, y.c2, z.c2)))),
        Add3(r, r.mul(xi, Mono(r, x.c0, y.c2, z.c1)), r.mul(xi, Mono(r, x.c2, y.c0, z.c1)),
             r.mul(xi, Mono(r, x.c1, y.c1, z.c1))))
  {
    hide Commutative, Mono;
    var xy := CubeMul(r, xi, x, y);
    Coef0(r, xi, x, y, z.c0);
    Coef1(r, xi, x, y, z.c2);
    Coef2(r, xi, x, y, z.c1);
    ScaleSum(r, xi, r.mul(xy.c0, z.c0), r.mul(xy.c1, z.c2), r.mul(xy.c2, z.c1));
    Times3(r, xi, Mono(r, x.c0, y.c1, z.c2), Mono(r, x.c1, y.c0, z.c2), r.mul(xi, Mono(r, x.c2, y.c2, z.c2)));
    Times3(r, xi, Mono(r, x.c0, y.c2, z.c1), Mono(r, x.c2, y.c0, z.c1), Mono(r, x.c1, y.c1, z.c1));
  }

  lemma CubeAssoc0Right<T(!new)>(r: Ring<T>, xi: T, x: Cube<T>, y: Cube<T>, z: Cube<T>)
    requires Commutative(r)
    ensures CubeMul(r, xi, x, CubeMul(r, xi, y, z)).c0 ==
      Add3(r,
        Add3(r, Mono(r, x.c0, y.c0, z.c0), r.mul(xi, Mono(r, x.c0, y.c1, z.c2)), r.mul(xi, Mono(r, x.c0, y.c2, z.c1))),
        Add3(r, r.mul(xi, Mono(r, x.c1, y.c0, z.c2)), r.mul(xi, Mono(r, x.c1, y.c2, z.c0)),
             r.mul(xi, Mono(r, x.c1, y.c1, z.c1))),
        Add3(r, r.mul(xi, Mono(r, x.c2, y.c0, z.c1)), r.mul(xi, Mono(r, x.c2, y.c1, z.c0)),
             r.mul(xi, r.mul(xi, Mono(r, x.c2, y.c2, z.c2)))))
  {
    hide Commutative, Mono;
    var yz := CubeMul(r, xi, y, z);
    Coef0(r, xi, y, z, x.c0);
    Coef2(r, xi, y, z, x.c1);
    Coef1(r, xi, y, z, x.c2);
    ScaleSum(r, xi, r.mul(x.c0, yz.c0), r.mul(x.c1, yz.c2), r.mul(x.c2, yz.c1));
    Times3(r, xi, Mono(r, x.c1, y.c0, z.c2), Mono(r, x.c1, y.c2, z.c0), Mono(r, x.c1, y.c1, z.c1));
    Times3(r, xi, Mono(r, x.c2, y.c0, z.c1), Mono(r, x.c2, y.c1, z.c0), r.mul(xi, Mono(r, x.c2, y.c2, z.c2)));
  }

  /** a + xi (b + c) = a + xi b + xi c. */
  lemma ScaleSum<T(!new)>(r: Ring<T>, xi: T, a: T, b: T, c: T)
    requires Commutative(r)
    ensures r.add(a, r.mul(xi, r.add(b, c))) == Add3(r, a, r.mul(xi, b), r.mul(xi, c))
  {
    hide Commutative;
    Laws(r, xi, b, c);
    Laws(r, a, r.mul(xi, b), r.mul(xi, c));
  }

  lemma CubeAssoc1<T(!new)>(r: Ring<T>, xi: T, x: Cube<T>, y: Cube<T>, z: Cube<T>)
    requires Commutative(r)
    ensures CubeMul(r, xi, CubeMul(r, xi, x, y), z).c1 == CubeMul(r, xi, x, CubeMul(r, xi, y, z)).c1
  {
    hide Commutative, Mono;
    Coef0(r, xi, x, y, z.c1);
    Coef1(r, xi, x, y, z.c0);
    Coef2(r, xi, x, y, z.c2);
    Coef1(r, xi, y, z, x.c0);
    Coef0(r, xi, y, z, x.c1);
    Coef2(r, xi, y, z, x.c2);
    var a, b, c := Mono(r, x.c0, y.c0, z.c1), Mono(r, x.c1, y.c2, z.c1), Mono(r, x.c2, y.c1, z.c1);
    var d, e, f := Mono(r, x.c0, y.c1, z.c0), Mono(r, x.c1, y.c0, z.c0), Mono(r, x.c2, y.c2, z.c0);
    var g, h, i := Mono(r, x.c0, y.c2, z.c2), Mono(r, x.c2, y.c0, z.c2), Mono(r, x.c1, y.c1, z.c2);
    var s := (v: T) => r.mul(xi, v);
    Times3(r, xi, g, h, i);
    Times3(r, xi, h, f, c);
    Regroup9(r, a, s(b), s(c), d, e, s(f), s(g), s(h), s(i));
    Add3Orders(r, s(b), e, s(i));
    Add3Orders(r, s(c), s(f), s(h));
  }

  lemma CubeAssoc2<T(!new)>(r: Ring<T>, xi: T, x: Cube<T>, y: Cube<T>, z: Cube<T>)
    requires Commutative(r)
    ensures CubeMul(r, xi, CubeMul(r, xi, x, y), z).c2 == CubeMul(r, xi, x, CubeMul(r, xi, y, z)).c2
  {
    hide Commutative, Mono;
    Coef0(r, xi, x, y, z.c2);
    Coef2(r, xi, x, y, z.c0);
    Coef1(r, xi, x, y, z.c1);
    Coef2(r, xi, y, z, x.c0);
    Coef0(r, xi, y, z, x.c2);
    Coef1(r, xi, y, z, x.c1);
    var a, b, c := Mono(r, x.c0, y.c0, z.c2), Mono(r, x.c1, y.c2, z.c2), Mono(r, x.c2, y.c1, z.c2);
    var d, e, f := Mono(r, x.c0, y.c2, z.c0), Mono(r, x.c2, y.c0, z.c0), Mono(r, x.c1, y.c1, z.c0);
    var g, h, i := Mono(r, x.c0, y.c1, z.c1), Mono(r, x.c1, y.c0, z.c1), Mono(r, x.c2, y.c2, z.c1);
    var s := (v: T) => r.mul(xi, v);
    Add3Orders(r, a, s(b), s(c));
    Regroup9(r, a, s(c), s(b), d, e, f, g, h, s(i));
    Add3Orders(r, s(c), e, s(i));
    Add3Orders(r, s(b), f, h);
  }

  lemma CubeLaws<T(!new)>(r: Ring<T>, xi: T, x: Cube<T>, y: Cube<T>, z: Cube<T>)
    requires Commutative(r)
    ensures var q := Cubic(r, xi);
      && q.add(x, y) == q.add(y, x) && q.add(q.add(x, y), z) == q.add(x, q.add(y, z))
      && q.add(x, q.zero) == x && q.add(x, q.neg(x)) == q.zero
      && q.mul(x, y) == q.mul(y, x) && q.mul(q.mul(x, y), z) == q.mul(x, q.mul(y, z))
      && q.mul(x, q.one) == x && q.mul(x, q.add(y, z)) == q.add(q.mul(x, y), q.mul(x, z))
  {
    hide Commutative, CubeMul;
    Laws(r, x.c0, y.c0, z.c0);
    Laws(r, x.c1, y.c1, z.c1);
    Laws(r, x.c2, y.c2, z.c2);
    CubeComm(r, xi, x, y);
    CubeAssoc0(r, xi, x, y, z);
    CubeAssoc1(r, xi, x, y, z);
    CubeAssoc2(r, xi, x, y, z);
    CubeUnit(r, xi, x);
    CubeDist(r, xi, x, y, z);
  }

  /** A cubic extension of a commutative ring is a commutative ring. */
  lemma CubicIsRing<T(!new)>(r: Ring<T>, xi: T)
    requires Commutative(r)
    ensures Commutative(Cubic(r, xi))
  {
    hide Commutative, Cubic;
    var q := Cubic(r, xi);
    forall x, y ensures q.add(x, y) == q.add(y, x) { CubeLaws(r, xi, x, y, y); }
    forall x, y, z ensures q.add(q.add(x, y), z) == q.add(x, q.add(y, z)) { CubeLaws(r, xi, x, y, z); }
    forall x ensures q.add(x, q.zero) == x { CubeLaws(r, xi, x, x, x); }
    forall x ensures q.add(x, q.neg(x)) == q.zero { CubeLaws(r, xi, x, x, x); }
    forall x, y ensures q.mul(x, y) == q.mul(y, x) { CubeLaws(r, xi, x, y, y); }
    forall x, y, z ensures q.mul(q.mul(x, y), z) == q.mul(x, q.mul(y, z)) { CubeLaws(r, xi, x, y, z); }
    forall x ensures q.mul(x, q.one) == x { CubeLaws(r, xi, x, x, x); }
    forall x, y, z ensures q.mul(x, q.add(y, z)) == q.add(q.mul(x, y), q.mul(x, z)) { CubeLaws(r, xi, x, y, z); }
    Introduce(q);
  }
}
