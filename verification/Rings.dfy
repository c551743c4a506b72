/** Commutative rings as records of operations, and the identities behind the fast formulas of the field tower. */
module Rings {

  datatype Ring<!T> = Ring(zero: T, one: T, add: (T, T) -> T, mul: (T, T) -> T, neg: T -> T) {
    function sub(x: T, y: T): T { add(x, neg(y)) }
  }

  /** Multiplication with its unit is a monoid. */
  ghost predicate Monoid<T(!new)>(r: Ring<T>) {
    && (forall x, y, z :: r.mul(r.mul(x, y), z) == r.mul(x, r.mul(y, z)))
    && (forall x :: r.mul(x, r.one) == x && r.mul(r.one, x) == x)
  }

  ghost predicate Commutative<T(!new)>(r: Ring<T>) {
    && (forall x, y :: r.add(x, y) == r.add(y, x))
    && (forall x, y, z :: r.add(r.add(x, y), z) == r.add(x, r.add(y, z)))
    && (forall x :: r.add(x, r.zero) == x)
    && (forall x :: r.add(x, r.neg(x)) == r.zero)
    && Monoid(r)
    && (forall x, y :: r.mul(x, y) == r.mul(y, x))
    && (forall x, y, z :: r.mul(x, r.add(y, z)) == r.add(r.mul(x, y), r.mul(x, z)))
  }

  lemma Introduce<T(!new)>(r: Ring<T>)
    requires forall x, y :: r.add(x, y) == r.add(y, x)
    requires forall x, y, z :: r.add(r.add(x, y), z) == r.add(x, r.add(y, z))
    requires forall x :: r.add(x, r.zero) == x
    requires forall x :: r.add(x, r.neg(x)) == r.zero
    requires forall x, y :: r.mul(x, y) == r.mul(y, x)
    requires forall x, y, z :: r.mul(r.mul(x, y), z) == r.mul(x, r.mul(y, z))
    requires forall x :: r.mul(x, r.one) == x
    requires forall x, y, z :: r.mul(x, r.add(y, z)) == r.add(r.mul(x, y), r.mul(x, z))
    ensures Commutative(r)
  {
  }

  /** The laws at three elements. The other proofs hide the quantified laws and name their instances. */
  lemma Laws<T(!new)>(r: Ring<T>, x: T, y: T, z: T)
    requires Commutative(r)
    ensures r.add(x, y) == r.add(y, x)
    ensures r.add(r.add(x, y), z) == r.add(x, r.add(y, z))
    ensures r.add(x, r.zero) == x && r.add(r.zero, x) == x
    ensures r.add(x, r.neg(x)) == r.zero && r.add(r.neg(x), x) == r.zero
    ensures r.mul(x, y) == r.mul(y, x)
    ensures r.mul(r.mul(x, y), z) == r.mul(x, r.mul(y, z))
    ensures r.mul(x, r.one) == x && r.mul(r.one, x) == x
    ensures r.mul(x, r.add(y, z)) == r.add(r.mul(x, y), r.mul(x, z))
    ensures r.mul(r.add(y, z), x) == r.add(r.mul(y, x), r.mul(z, x))
  {
    hide Commutative;
    AddComm(r, x, y);
    AddComm(r, x, r.neg(x));
    AddZero(r, x);
    AddAssoc(r, x, y, z);
    MulComm(r, x, y);
    MulComm(r, x, z);
    MulComm(r, x, r.add(y, z));
    MulAssoc(r, x, y, z);
    MulOne(r, x);
    Distributes(r, x, y, z);
  }

  lemma AddComm<T(!new)>(r: Ring<T>, x: T, y: T)
    requires Commutative(r)
    ensures r.add(x, y) == r.add(y, x)
  {
  }

  lemma AddAssoc<T(!new)>(r: Ring<T>, x: T, y: T, z: T)
    requires Commutative(r)
    ensures r.add(r.add(x, y), z) == r.add(x, r.add(y, z))
  {
  }

  lemma AddZero<T(!new)>(r: Ring<T>, x: T)
    requires Commutative(r)
    ensures r.add(x, r.zero) == x && r.add(r.zero, x) == x && r.add(x, r.neg(x)) == r.zero
  {
    AddComm(r, x, r.zero);
  }

  lemma MulComm<T(!new)>(r: Ring<T>, x: T, y: T)
    requires Commutative(r)
    ensures r.mul(x, y) == r.mul(y, x)
  {
  }

  lemma MulAssoc<T(!new)>(r: Ring<T>, x: T, y: T, z: T)
    requires Commutative(r)
    ensures r.mul(r.mul(x, y), z) == r.mul(x, r.mul(y, z))
  {
  }

  lemma MulOne<T(!new)>(r: Ring<T>, x: T)
    requires Commutative(r)
    ensures r.mul(x, r.one) == x && r.mul(r.one, x) == x
  {
  }

  lemma Distributes<T(!new)>(r: Ring<T>, x: T, y: T, z: T)
    requires Commutative(r)
    ensures r.mul(x, r.add(y, z)) == r.add(r.mul(x, y), r.mul(x, z))
  {
  }

  // ---------------------------------------------------------------------------------------------
  // Signs

  lemma CancelRight<T(!new)>(r: Ring<T>, x: T, y: T, z: T)
    requires Commutative(r) && r.add(x, z) == r.add(y, z)
    ensures x == y
  {
    hide Commutative;
    Laws(r, x, z, r.neg(z));
    Laws(r, y, z, r.neg(z));
    Laws(r, z, x, x);
  }

  lemma TimesZero<T(!new)>(r: Ring<T>, x: T)
    requires Commutative(r)
    ensures r.mul(x, r.zero) == r.zero && r.mul(r.zero, x) == r.zero
  {
    hide Commutative;
    var o := r.mul(x, r.zero);
    Laws(r, r.zero, r.zero, r.zero);
    Laws(r, x, r.zero, r.zero);
    Laws(r, o, r.zero, r.zero);
    CancelRight(r, o, r.zero, o);
  }

  /** x - y is the only z with z + y = x. */
  lemma SubUnique<T(!new)>(r: Ring<T>, x: T, y: T, z: T)
    requires Commutative(r)
    ensures r.sub(x, y) == z <==> x == r.add(z, y)
  {
    hide Commutative;
    Laws(r, x, r.neg(y), y);
    Laws(r, y, x, x);
    Laws(r, z, y, r.neg(y));
  }

  lemma NegUnique<T(!new)>(r: Ring<T>, x: T, y: T)
    requires Commutative(r) && r.add(x, y) == r.zero
    ensures y == r.neg(x)
  {
    hide Commutative;
    Laws(r, x, y, y);
    Laws(r, x, r.neg(x), x);
    CancelRight(r, y, r.neg(x), x);
  }

  lemma TimesNeg<T(!new)>(r: Ring<T>, x: T, y: T)
    requires Commutative(r)
    ensures r.mul(x, r.neg(y)) == r.neg(r.mul(x, y)) && r.mul(r.neg(x), y) == r.neg(r.mul(x, y))
  {
    hide Commutative;
    Laws(r, x, y, r.neg(y));
    Laws(r, y, x, r.neg(x));
    Laws(r, r.neg(x), y, y);
    TimesZero(r, x);
    TimesZero(r, y);
    NegUnique(r, r.mul(x, y), r.mul(x, r.neg(y)));
    NegUnique(r, r.mul(x, y), r.mul(r.neg(x), y));
  }

  lemma NegAdd<T(!new)>(r: Ring<T>, x: T, y: T)
    requires Commutative(r)
    ensures r.neg(r.add(x, y)) == r.add(r.neg(x), r.neg(y)) && r.neg(r.neg(x)) == x && r.neg(r.zero) == r.zero
  {
    hide Commutative;
    Laws(r, x, y, y);
    Laws(r, y, y, y);
    Laws(r, r.zero, r.zero, r.zero);
    AddSwap(r, x, y, r.neg(x), r.neg(y));
    NegUnique(r, r.add(x, y), r.add(r.neg(x), r.neg(y)));
    Laws(r, r.neg(x), x, x);
    NegUnique(r, r.neg(x), x);
    NegUnique(r, r.zero, r.zero);
  }

  lemma AddSwap<T(!new)>(r: Ring<T>, a: T, b: T, c: T, d: T)
    requires Commutative(r)
    ensures r.add(r.add(a, b), r.add(c, d)) == r.add(r.add(a, c), r.add(b, d))
  {
    hide Commutative;
    Laws(r, a, b, r.add(c, d));
    Laws(r, b, c, d);
    Laws(r, c, b, d);
    Laws(r, a, c, r.add(b, d));
  }

  function Add3<T>(r: Ring<T>, x: T, y: T, z: T): T { r.add(r.add(x, y), z) }

  lemma Add3Orders<T(!new)>(r: Ring<T>, x: T, y: T, z: T)
    requires Commutative(r)
    ensures Add3(r, x, y, z) == Add3(r, y, x, z) == Add3(r, x, z, y)
         == Add3(r, y, z, x) == Add3(r, z, y, x) == Add3(r, z, x, y)
  {
    hide Commutative;
    Laws(r, x, y, z);
    Laws(r, y, z, x);
    Laws(r, x, z, y);
    Laws(r, r.add(y, z), x, x);
    Laws(r, r.add(z, y), x, x);
    Laws(r, z, x, y);
    Laws(r, z, r.add(x, y), x);
  }

  /** Nine terms in rows, regrouped: two of the columns, and the third with its last entries exchanged. */
  lemma Regroup9<T(!new)>(r: Ring<T>, a: T, b: T, c: T, d: T, e: T, f: T, g: T, h: T, i: T)
    requires Commutative(r)
    ensures Add3(r, Add3(r, a, b, c), Add3(r, d, e, f), Add3(r, g, h, i)) ==
      Add3(r, Add3(r, a, d, g), Add3(r, b, e, i), Add3(r, c, f, h))
  {
    hide Commutative;
    Add3Orders(r, g, h, i);
    AddSwap3(r, a, b, c, d, e, f);
    AddSwap3(r, r.add(a, d), r.add(b, e), r.add(c, f), g, i, h);
  }

  lemma AddSwap3<T(!new)>(r: Ring<T>, a: T, b: T, c: T, d: T, e: T, f: T)
    requires Commutative(r)
    ensures r.add(Add3(r, a, b, c), Add3(r, d, e, f)) == Add3(r, r.add(a, d), r.add(b, e), r.add(c, f))
  {
    hide Commutative;
    AddSwap(r, r.add(a, b), c, r.add(d, e), f);
    AddSwap(r, a, b, d, e);
  }

  lemma Times3<T(!new)>(r: Ring<T>, k: T, x: T, y: T, z: T)
    requires Commutative(r)
    ensures r.mul(k, Add3(r, x, y, z)) == Add3(r, r.mul(k, x), r.mul(k, y), r.mul(k, z)) == r.mul(Add3(r, x, y, z), k)
  {
    hide Commutative;
    Laws(r, k, r.add(x, y), z);
    Laws(r, k, x, y);
    Laws(r, k, Add3(r, x, y, z), x);
  }

  /** x (y - z) = x y - x z. */
  lemma TimesSub<T(!new)>(r: Ring<T>, x: T, y: T, z: T)
    requires Commutative(r)
    ensures r.mul(x, r.sub(y, z)) == r.sub(r.mul(x, y), r.mul(x, z))
  {
    hide Commutative;
    Laws(r, x, y, r.neg(z));
    TimesNeg(r, x, z);
  }

  // ---------------------------------------------------------------------------------------------
  // The Karatsuba identities

  /** (x + y)(z + w) = (x z + y w) + (x w + y z). */
  lemma Expand<T(!new)>(r: Ring<T>, x: T, y: T, z: T, w: T)
    requires Commutative(r)
    ensures r.mul(r.add(x, y), r.add(z, w)) ==
      r.add(r.add(r.mul(x, w), r.mul(y, z)), r.add(r.mul(x, z), r.mul(y, w)))
  {
    hide Commutative;
    Laws(r, r.add(z, w), x, y);
    Laws(r, x, z, w);
    Laws(r, y, z, w);
    Laws(r, r.mul(x, z), r.mul(x, w), r.zero);
    AddSwap(r, r.mul(x, w), r.mul(x, z), r.mul(y, z), r.mul(y, w));
  }

  /** (x + y)(z + w) - (x z + y w) = x w + y z: three products do the work of four. */
  lemma Karatsuba<T(!new)>(r: Ring<T>, x: T, y: T, z: T, w: T)
    requires Commutative(r)
    ensures r.sub(r.mul(r.add(x, y), r.add(z, w)), r.add(r.mul(x, z), r.mul(y, w))) ==
      r.add(r.mul(x, w), r.mul(y, z))
  {
    hide Commutative;
    Expand(r, x, y, z, w);
    SubUnique(r, r.mul(r.add(x, y), r.add(z, w)), r.add(r.mul(x, z), r.mul(y, w)), r.add(r.mul(x, w), r.mul(y, z)));
  }

  /** x - y - z = x - (y + z). */
  lemma SubSub<T(!new)>(r: Ring<T>, x: T, y: T, z: T)
    requires Commutative(r)
    ensures r.sub(r.sub(x, y), z) == r.sub(x, r.add(y, z))
  {
    hide Commutative;
    NegAdd(r, y, z);
    Laws(r, x, r.neg(y), r.neg(z));
  }

  /** (a - b) + (b - c) + (c - a) = 0. */
  lemma Cycle<T(!new)>(r: Ring<T>, a: T, b: T, c: T)
    requires Commutative(r)
    ensures r.add(r.add(r.sub(a, b), r.sub(b, c)), r.sub(c, a)) == r.zero
  {
    hide Commutative;
    Laws(r, a, r.neg(b), r.sub(b, c));
    Laws(r, r.neg(b), b, r.neg(c));
    Laws(r, b, b, b);
    Laws(r, r.neg(c), c, c);
    assert r.add(r.sub(a, b), r.sub(b, c)) == r.sub(a, c);
    Laws(r, a, r.neg(c), r.sub(c, a));
    Laws(r, r.neg(c), c, r.neg(a));
    Laws(r, c, c, c);
    Laws(r, r.neg(a), a, a);
    Laws(r, a, r.neg(a), a);
  }
}
