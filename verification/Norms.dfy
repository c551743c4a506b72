/** Norms down an extension: an element that divides no zero has a norm that divides none. This is what makes
    inversion by norms complete. */
module Norms {
  import opened Rings
  import opened Extensions

  /** x divides no zero. */
  ghost predicate Regular<T(!new)>(r: Ring<T>, x: T) {
    forall z :: r.mul(x, z) == r.zero ==> z == r.zero
  }

  lemma RegularAt<T(!new)>(r: Ring<T>, x: T, z: T)
    requires Regular(r, x) && r.mul(x, z) == r.zero
    ensures z == r.zero
  {
  }

  lemma InvertibleIsRegular<T(!new)>(r: Ring<T>, x: T, y: T)
    requires Commutative(r) && r.mul(x, y) == r.one
    ensures Regular(r, x)
  {
    hide Commutative;
    forall z | r.mul(x, z) == r.zero ensures z == r.zero {
      MulComm(r, x, y);
      MulAssoc(r, y, x, z);
      TimesZero(r, y);
      MulOne(r, z);
    }
  }

  /** A regular factor cancels. */
  lemma Cancels<T(!new)>(r: Ring<T>, x: T, a: T, b: T)
    requires Commutative(r) && Regular(r, x) && r.mul(x, a) == r.mul(x, b)
    ensures a == b
  {
    hide Commutative, Regular;
    TimesSub(r, x, a, b);
    SubUnique(r, r.mul(x, a), r.mul(x, b), r.zero);
    Laws(r, r.mul(x, b), r.zero, r.zero);
    RegularAt(r, x, r.sub(a, b));
    SubUnique(r, a, b, r.zero);
    Laws(r, b, r.zero, r.zero);
  }

  // ---------------------------------------------------------------------------------------------
  // Quadratic extensions

  lemma QuadScale<T(!new)>(r: Ring<T>, beta: T, x: Quad<T>, e: T)
    requires Commutative(r)
    ensures QuadMul(r, beta, x, Quad(e, r.zero)) == Quad(r.mul(x.c0, e), r.mul(x.c1, e))
  {
    hide Commutative;
    TimesZero(r, x.c0);
    TimesZero(r, x.c1);
    TimesZero(r, beta);
    Laws(r, r.mul(x.c0, e), r.zero, r.zero);
    Laws(r, r.mul(x.c1, e), r.zero, r.zero);
  }

  lemma NegZero<T(!new)>(r: Ring<T>, x: T, e: T)
    requires Commutative(r) && r.mul(r.neg(x), e) == r.zero
    ensures r.mul(x, e) == r.zero
  {
    hide Commutative;
    MulComm(r, r.neg(x), e);
    MulComm(r, x, e);
    TimesNeg(r, e, x);
    Laws(r, r.mul(e, x), r.neg(r.mul(e, x)), r.zero);
  }

  /** The norm n of x = x0 + x1 w, the product with its conjugate, is regular when x is. */
  lemma QuadNormRegular<T(!new)>(r: Ring<T>, beta: T, x: Quad<T>, n: T)
    requires Commutative(r) && Regular(Quadratic(r, beta), x)
    requires QuadMul(r, beta, x, Quad(x.c0, r.neg(x.c1))) == Quad(n, r.zero)
    ensures Regular(r, n)
  {
    hide Commutative, Regular, QuadMul;
    forall e | r.mul(n, e) == r.zero ensures e == r.zero { QuadAnnihilator(r, beta, x, n, e); }
    RegularIntro(r, n);
  }

  lemma RegularIntro<T(!new)>(r: Ring<T>, x: T)
    requires forall z :: r.mul(x, z) == r.zero ==> z == r.zero
    ensures Regular(r, x)
  {
  }

  lemma QuadAnnihilator<T(!new)>(r: Ring<T>, beta: T, x: Quad<T>, n: T, e: T)
    requires Commutative(r) && Regular(Quadratic(r, beta), x) && r.mul(n, e) == r.zero
    requires QuadMul(r, beta, x, Quad(x.c0, r.neg(x.c1))) == Quad(n, r.zero)
    ensures e == r.zero
  {
    hide Commutative, Regular, QuadMul;
    var q, conj, c := Quadratic(r, beta), Quad(x.c0, r.neg(x.c1)), Quad(e, r.zero);
    QuadraticIsRing(r, beta);
    QuadScale(r, beta, Quad(n, r.zero), e);
    TimesZero(r, e);
    MulAssoc(q, x, conj, c);
    RegularAt(q, x, q.mul(conj, c));
    QuadScale(r, beta, conj, e);
    NegZero(r, x.c1, e);
    QuadScale(r, beta, x, e);
    RegularAt(q, x, c);
  }

  // ---------------------------------------------------------------------------------------------
  // Cubic extensions

  lemma CubeScale<T(!new)>(r: Ring<T>, xi: T, x: Cube<T>, e: T)
    requires Commutative(r)
    ensures CubeMul(r, xi, x, Cube(e, r.zero, r.zero)) == Cube(r.mul(x.c0, e), r.mul(x.c1, e), r.mul(x.c2, e))
  {
    hide Commutative;
    TimesZero(r, x.c0);
    TimesZero(r, x.c1);
    TimesZero(r, x.c2);
    TimesZero(r, xi);
    Laws(r, r.zero, r.zero, r.zero);
    Laws(r, r.mul(x.c0, e), r.zero, r.zero);
    Laws(r, r.mul(x.c1, e), r.zero, r.zero);
    Laws(r, r.mul(x.c2, e), r.zero, r.zero);
  }

  /** (a - b) e = 0 says a e = b e. */
  lemma Difference<T(!new)>(r: Ring<T>, a: T, b: T, e: T)
    requires Commutative(r) && r.mul(r.sub(a, b), e) == r.zero
    ensures r.mul(a, e) == r.mul(b, e)
  {
    hide Commutative;
    MulComm(r, r.sub(a, b), e);
    MulComm(r, a, e);
    MulComm(r, b, e);
    TimesSub(r, e, a, b);
    SubUnique(r, r.mul(e, a), r.mul(e, b), r.zero);
    Laws(r, r.mul(e, b), r.zero, r.zero);
  }

  /** The cofactors of x: the product with them is the norm. */
  function Cofactors<T>(r: Ring<T>, xi: T, x: Cube<T>): Cube<T> {
    Cube(r.sub(r.mul(x.c0, x.c0), r.mul(xi, r.mul(x.c2, x.c1))),
         r.sub(r.mul(xi, r.mul(x.c2, x.c2)), r.mul(x.c0, x.c1)),
         r.sub(r.mul(x.c1, x.c1), r.mul(x.c0, x.c2)))
  }

  lemma CubeNormRegular<T(!new)>(r: Ring<T>, xi: T, x: Cube<T>, n: T)
    requires Commutative(r) && Regular(Cubic(r, xi), x)
    requires CubeMul(r, xi, x, Cofactors(r, xi, x)) == Cube(n, r.zero, r.zero)
    ensures Regular(r, n)
  {
    hide Commutative, Regular, CubeMul, Cofactors;
    forall e | r.mul(n, e) == r.zero ensures e == r.zero { CubeAnnihilator(r, xi, x, n, e); }
    RegularIntro(r, n);
  }

  /** What kills the norm kills the cofactors. */
  lemma CofactorsKilled<T(!new)>(r: Ring<T>, xi: T, x: Cube<T>, n: T, e: T)
    requires Commutative(r) && Regular(Cubic(r, xi), x) && r.mul(n, e) == r.zero
    requires CubeMul(r, xi, x, Cofactors(r, xi, x)) == Cube(n, r.zero, r.zero)
    ensures var w := Cofactors(r, xi, x);
      r.mul(w.c0, e) == r.zero && r.mul(w.c1, e) == r.zero && r.mul(w.c2, e) == r.zero
  {
    hide Commutative, Regular, CubeMul, Cofactors;
    var q, w, c := Cubic(r, xi), Cofactors(r, xi, x), Cube(e, r.zero, r.zero);
    CubicIsRing(r, xi);
    CubeScale(r, xi, Cube(n, r.zero, r.zero), e);
    TimesZero(r, e);
    MulAssoc(q, x, w, c);
    RegularAt(q, x, q.mul(w, c));
    CubeScale(r, xi, w, e);
  }

  /** With a = x e: once e kills the cofactors, x a = 3 a0 x. */
  lemma Tripled<T(!new)>(r: Ring<T>, xi: T, x: Cube<T>, e: T)
    requires Commutative(r)
    requires var w := Cofactors(r, xi, x);
      r.mul(w.c0, e) == r.zero && r.mul(w.c1, e) == r.zero && r.mul(w.c2, e) == r.zero
    ensures var a := Cube(r.mul(x.c0, e), r.mul(x.c1, e), r.mul(x.c2, e));
      var q := r.add(r.add(a.c0, a.c0), a.c0);
      CubeMul(r, xi, x, a) == Cube(r.mul(x.c0, q), r.mul(x.c1, q), r.mul(x.c2, q))
  {
    hide Commutative;
    var a := Cube(r.mul(x.c0, e), r.mul(x.c1, e), r.mul(x.c2, e));
    Difference(r, r.mul(x.c0, x.c0), r.mul(xi, r.mul(x.c2, x.c1)), e);
    Difference(r, r.mul(xi, r.mul(x.c2, x.c2)), r.mul(x.c0, x.c1), e);
    Difference(r, r.mul(x.c1, x.c1), r.mul(x.c0, x.c2), e);
    MulAssoc(r, x.c0, x.c0, e);
    MulAssoc(r, x.c0, x.c1, e);
    MulAssoc(r, x.c0, x.c2, e);
    MulAssoc(r, x.c1, x.c1, e);
    MulAssoc(r, xi, r.mul(x.c2, x.c1), e);
    MulAssoc(r, xi, r.mul(x.c2, x.c2), e);
    MulAssoc(r, x.c2, x.c1, e);
    MulAssoc(r, x.c2, x.c2, e);
    Swapped(r, x.c1, x.c0, e);
    Swapped(r, x.c2, x.c0, e);
    Swapped(r, x.c1, x.c2, e);
    Distributes(r, xi, r.mul(x.c1, a.c2), r.mul(x.c2, a.c1));
    var top := r.mul(x.c0, a.c0);
    AddAssoc(r, top, top, top);
    Triple(r, x.c0, a.c0);
    Triple(r, x.c1, a.c0);
    Triple(r, x.c2, a.c0);
  }

  lemma Swapped<T(!new)>(r: Ring<T>, x: T, y: T, e: T)
    requires Commutative(r)
    ensures r.mul(x, r.mul(y, e)) == r.mul(y, r.mul(x, e))
  {
    hide Commutative;
    MulAssoc(r, x, y, e);
    MulAssoc(r, y, x, e);
    MulComm(r, x, y);
  }

  lemma Triple<T(!new)>(r: Ring<T>, x: T, a: T)
    requires Commutative(r)
    ensures r.mul(x, r.add(r.add(a, a), a)) == r.add(r.add(r.mul(x, a), r.mul(x, a)), r.mul(x, a))
  {
    hide Commutative;
    Distributes(r, x, r.add(a, a), a);
    Distributes(r, x, a, a);
  }

  /** Nothing but zero kills the norm of a regular x. */
  lemma CubeAnnihilator<T(!new)>(r: Ring<T>, xi: T, x: Cube<T>, n: T, e: T)
    requires Commutative(r) && Regular(Cubic(r, xi), x) && r.mul(n, e) == r.zero
    requires CubeMul(r, xi, x, Cofactors(r, xi, x)) == Cube(n, r.zero, r.zero)
    ensures e == r.zero
  {
    hide Commutative, Regular, CubeMul, Cofactors;
    var s, c := Cubic(r, xi), Cube(e, r.zero, r.zero);
    var a := Cube(r.mul(x.c0, e), r.mul(x.c1, e), r.mul(x.c2, e));
    var q := r.add(r.add(a.c0, a.c0), a.c0);
    CubicIsRing(r, xi);
    CofactorsKilled(r, xi, x, n, e);
    Tripled(r, xi, x, e);
    CubeScale(r, xi, x, q);
    Cancels(s, x, a, Cube(q, r.zero, r.zero));
    OnlyScalar(r, xi, x, e);
    RegularAt(s, x, a);
    CubeScale(r, xi, x, e);
    RegularAt(s, x, c);
  }

  /** Then x e has one coefficient, and x x e is zero. */
  lemma OnlyScalar<T(!new)>(r: Ring<T>, xi: T, x: Cube<T>, e: T)
    requires Commutative(r) && r.mul(x.c1, e) == r.zero && r.mul(x.c2, e) == r.zero
    requires r.mul(Cofactors(r, xi, x).c0, e) == r.zero
    ensures CubeMul(r, xi, x, Cube(r.mul(x.c0, e), r.mul(x.c1, e), r.mul(x.c2, e))) == Cube(r.zero, r.zero, r.zero)
  {
    hide Commutative, CubeMul;
    Difference(r, r.mul(x.c0, x.c0), r.mul(xi, r.mul(x.c2, x.c1)), e);
    MulAssoc(r, xi, r.mul(x.c2, x.c1), e);
    MulAssoc(r, x.c2, x.c1, e);
    MulAssoc(r, x.c0, x.c0, e);
    TimesZero(r, x.c2);
    TimesZero(r, xi);
    TimesZero(r, x.c0);
    Swapped(r, x.c1, x.c0, e);
    Swapped(r, x.c2, x.c0, e);
    CubeScale(r, xi, x, r.mul(x.c0, e));
  }
}
