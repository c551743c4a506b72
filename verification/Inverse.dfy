/** The inverse and power loops under the field arithmetic: extended Euclid, square-and-multiply, and batch
    inversion. */
module Inverse {
  import opened Bytes
  import opened Rings

  // ---------------------------------------------------------------------------------------------
  // invert(number, modulo)

  predicate IsProduct(n: int, d: int, k: int) { n == d * k }

  ghost predicate Divides(d: int, n: int) {
    exists k: int :: IsProduct(n, d, k)
  }

  ghost predicate Coprime(a: int, b: int) {
    forall d: int :: d > 1 && Divides(d, a) ==> !Divides(d, b)
  }

  ghost predicate Congruent(a: int, b: int, m: int) {
    Divides(m, a - b)
  }

  /** The pairs (a, b) and (c, d) have the same common divisors. */
  ghost predicate SameDivisors(a: int, b: int, c: int, d: int) {
    forall e: int :: e > 1 ==> ((Divides(e, a) && Divides(e, b)) <==> (Divides(e, c) && Divides(e, d)))
  }

  lemma DividesCombination(d: int, a: int, b: int, q: int)
    requires Divides(d, a) && Divides(d, b)
    ensures Divides(d, b + a * q)
  {
    var k: int :| IsProduct(a, d, k);
    var l: int :| IsProduct(b, d, l);
    assert d * (l + k * q) == d * l + (d * k) * q;
    assert IsProduct(b + a * q, d, l + k * q);
  }

  /** Subtracting a multiple of one number from the other keeps the common divisors. */
  lemma EuclidStep(a: int, b: int, q: int)
    ensures SameDivisors(b - a * q, a, a, b)
  {
    forall e: int | e > 1
      ensures (Divides(e, b - a * q) && Divides(e, a)) <==> (Divides(e, a) && Divides(e, b))
    {
      if Divides(e, a) && Divides(e, b) { DividesCombination(e, a, b, -q); }
      if Divides(e, a) && Divides(e, b - a * q) { DividesCombination(e, a, b - a * q, q); }
    }
  }

  lemma CofactorStep(number: int, modulus: int, x: int, k: int, u: int, l: int, q: int)
    ensures number * x + k * modulus - (number * u + l * modulus) * q
      == number * (x - u * q) + (k - l * q) * modulus
  {
    assert (number * u + l * modulus) * q == number * (u * q) + (l * q) * modulus;
    assert number * (x - u * q) == number * x - number * (u * q);
    assert (k - l * q) * modulus == k * modulus - (l * q) * modulus;
  }

  /** The pair the loop leaves behind: zero and the greatest common divisor. */
  lemma CoprimeExactly(b: int, number: int, modulus: int)
    requires b > 0 && SameDivisors(0, b, number, modulus)
    ensures b == 1 <==> Coprime(number, modulus)
  {
    assert IsProduct(0, b, 0) && IsProduct(b, b, 1);
    assert Divides(b, 0) && Divides(b, b);
    if b == 1 {
      forall d: int | d > 1 && Divides(d, number) ensures !Divides(d, modulus) {
        if Divides(d, modulus) {
          assert Divides(d, 0) && Divides(d, 1);
          var k: int :| IsProduct(1, d, k);
          OneHasNoDivisor(d, k);
        }
      }
    }
  }

  lemma OneHasNoDivisor(d: int, k: int)
    requires d > 1
    ensures d * k != 1
  {
    if k > 0 { assert d * k >= d * 1; } else { assert d * k <= 0; }
  }

  /** None stands for the exceptions. It returns exactly for coprime inputs, and zero is refused even for
      modulus 1. */
  method Invert(number: int, modulus: int) returns (r: Option<int>)
    ensures r.Some? <==> number != 0 && modulus > 0 && Coprime(number, modulus)
    ensures r.Some? ==> 0 <= r.value < modulus && Congruent(number * r.value, 1, modulus)
  {
    if number == 0 || modulus <= 0 { return None; }
    var n, e := number % modulus, modulus;
    var r0, s, i, c := 0, 1, 1, 0;
    ghost var kn, ke := -(number / modulus), 1;
    assert number == modulus * (number / modulus) + n;
    EuclidStep(modulus, number, number / modulus);
    assert SameDivisors(n, e, number, modulus);
    while n != 0
      invariant 0 <= n && 0 < e
      invariant n == number * i + kn * modulus
      invariant e == number * r0 + ke * modulus
      invariant SameDivisors(n, e, number, modulus)
      decreases n
    {
      var f := e / n;
      var a := e - n * f;
      assert a == e % n;
      EuclidStep(n, e, f);
      CofactorStep(number, modulus, r0, ke, i, kn, f);
      var d, x := r0 - i * f, s - c * f;
      e, n, r0, s, i, c := n, a, i, c, d, x;
      ke, kn := kn, ke - kn * f;
    }
    CoprimeExactly(e, number, modulus);
    if e != 1 { return None; }
    Reduced(number, modulus, r0, ke);
    r := Some(r0 % modulus);
  }

  lemma Reduced(number: int, modulus: int, x: int, k: int)
    requires modulus > 0 && 1 == number * x + k * modulus
    ensures 0 <= x % modulus < modulus && Congruent(number * (x % modulus), 1, modulus)
  {
    var q := x / modulus;
    assert x == modulus * q + x % modulus;
    assert number * x == number * (modulus * q) + number * (x % modulus);
    assert number * (modulus * q) == modulus * (number * q);
    assert IsProduct(number * (x % modulus) - 1, modulus, -k - number * q);
  }

  /** The converse: a number with an inverse is coprime to the modulus, so the loop never refuses one. */
  lemma InvertibleIsCoprime(number: int, modulus: int, x: int)
    requires modulus > 0 && Congruent(number * x, 1, modulus)
    ensures Coprime(number, modulus)
  {
    var k: int :| IsProduct(number * x - 1, modulus, k);
    forall d: int | d > 1 && Divides(d, number) ensures !Divides(d, modulus) {
      if Divides(d, modulus) {
        var a: int :| IsProduct(number, d, a);
        var b: int :| IsProduct(modulus, d, b);
        assert d * (a * x - b * k) == (d * a) * x - (d * b) * k == 1;
        OneHasNoDivisor(d, a * x - b * k);
      }
    }
  }

  // ---------------------------------------------------------------------------------------------
  // pow(base, n)

  function Power<T>(r: Ring<T>, x: T, n: nat): T {
    if n == 0 then r.one else r.mul(Power(r, x, n - 1), x)
  }

  lemma MonoidLaws<T(!new)>(r: Ring<T>, x: T, y: T, z: T)
    requires Monoid(r)
    ensures r.mul(r.mul(x, y), z) == r.mul(x, r.mul(y, z))
    ensures r.mul(x, r.one) == x && r.mul(r.one, x) == x
  {
  }

  lemma {:induction false} PowerAdd<T(!new)>(r: Ring<T>, x: T, a: nat, b: nat)
    requires Monoid(r)
    ensures Power(r, x, a + b) == r.mul(Power(r, x, a), Power(r, x, b))
    decreases b
  {
    hide Monoid;
    MonoidLaws(r, Power(r, x, a), if b > 0 then Power(r, x, b - 1) else x, x);
    if b > 0 { PowerAdd(r, x, a, b - 1); }
  }

  /** None stands for the exception on a negative exponent. sqr(x) must be x times x. */
  method Pow<T(!new)>(r: Ring<T>, sqr: T -> T, base: T, exponent: int) returns (p: Option<T>)
    requires Monoid(r) && forall x :: sqr(x) == r.mul(x, x)
    ensures p == if exponent < 0 then None else Some(Power(r, base, exponent))
  {
    hide Monoid;
    MonoidLaws(r, base, base, base);
    if exponent < 0 { return None; }
    if exponent == 0 { return Some(r.one); }
    if exponent == 1 { return Some(base); }
    var acc, s, n: nat := r.one, base, exponent;
    ghost var done: nat, k: nat := 0, 1;
    while n > 0
      invariant s == Power(r, base, k) && acc == Power(r, base, done)
      invariant done + n * k == exponent
    {
      Halve(n, k);
      if n % 2 == 1 {
        PowerAdd(r, base, done, k);
        acc := r.mul(acc, s);
        done := done + k;
      }
      PowerAdd(r, base, k, k);
      s := sqr(s);
      n := n / 2;
      k := 2 * k;
    }
    p := Some(acc);
  }

  // ---------------------------------------------------------------------------------------------
  // invertBatch(nums)

  /** A field, as far as batch inversion needs one: no zero divisors, and inv inverts whatever is not zero. */
  ghost predicate FieldLike<T(!new)>(r: Ring<T>, inv: T -> T) {
    && Commutative(r)
    && r.one != r.zero
    && (forall x, y :: x != r.zero && y != r.zero ==> r.mul(x, y) != r.zero)
    && (forall x :: x != r.zero ==> r.mul(x, inv(x)) == r.one)
  }

  /** The product of the nonzero elements. */
  function Product<T(==)>(r: Ring<T>, nums: seq<T>): T {
    if nums == [] then r.one else
      var p := Product(r, nums[..|nums| - 1]);
      var u := nums[|nums| - 1];
      if u == r.zero then p else r.mul(p, u)
  }

  lemma {:induction false} ProductNonzero<T(!new)>(r: Ring<T>, inv: T -> T, nums: seq<T>)
    requires FieldLike(r, inv)
    ensures Product(r, nums) != r.zero
  {
    if nums != [] { ProductNonzero(r, inv, nums[..|nums| - 1]); }
  }

  /** With v = 1 / Product(nums[..k + 1]): nums[k]'s inverse, and the next v. */
  lemma BackStep<T(!new)>(r: Ring<T>, p: T, u: T, v: T)
    requires Commutative(r) && r.mul(r.mul(p, u), v) == r.one
    ensures r.mul(u, r.mul(v, p)) == r.one
    ensures r.mul(p, r.mul(v, u)) == r.one
  {
    assert r.mul(u, r.mul(v, p)) == r.mul(r.mul(v, p), u) == r.mul(v, r.mul(p, u)) == r.mul(r.mul(p, u), v);
    assert r.mul(p, r.mul(v, u)) == r.mul(p, r.mul(u, v)) == r.mul(r.mul(p, u), v);
  }

  /** Montgomery's trick: one inversion for the whole list. A zero keeps the fill value of its slot. */
  method InvertBatch<T(!new, ==)>(r: Ring<T>, inv: T -> T, nums: seq<T>, passZero: bool) returns (out: seq<Option<T>>)
    requires FieldLike(r, inv)
    ensures |out| == |nums|
    ensures forall k :: 0 <= k < |nums| ==>
      if nums[k] == r.zero then out[k] == (if passZero then Some(r.zero) else None)
      else out[k].Some? && r.mul(nums[k], out[k].value) == r.one
  {
    hide FieldLike, Product;
    var fill: Option<T> := if passZero then Some(r.zero) else None;
    out := seq(|nums|, i => fill);
    var acc := r.one;
    ProductStep(r, nums, 0);
    for f := 0 to |nums|
      invariant |out| == |nums| && acc == Product(r, nums[..f])
      invariant forall k :: f <= k < |nums| ==> out[k] == fill
      invariant forall k :: 0 <= k < f ==>
        out[k] == if nums[k] == r.zero then fill else Some(Product(r, nums[..k]))
    {
      ProductStep(r, nums, f);
      var u := nums[f];
      if u != r.zero {
        out := out[f := Some(acc)];
        acc := r.mul(acc, u);
      }
    }
    FieldInverse(r, inv, nums);
    acc := inv(acc);
    assert nums[..|nums|] == nums;
    for f := |nums| downto 0
      invariant |out| == |nums| && r.mul(Product(r, nums[..f]), acc) == r.one
      invariant forall k :: 0 <= k < f ==>
        out[k] == if nums[k] == r.zero then fill else Some(Product(r, nums[..k]))
      invariant forall k :: f <= k < |nums| ==>
        if nums[k] == r.zero then out[k] == fill else out[k].Some? && r.mul(nums[k], out[k].value) == r.one
    {
      ProductStep(r, nums, f);
      var u := nums[f];
      if u != r.zero {
        BackStepIn(r, inv, Product(r, nums[..f]), u, acc);
        out := out[f := Some(r.mul(acc, out[f].value))];
        acc := r.mul(acc, u);
      }
    }
  }

  lemma BackStepIn<T(!new)>(r: Ring<T>, inv: T -> T, p: T, u: T, v: T)
    requires FieldLike(r, inv) && r.mul(r.mul(p, u), v) == r.one
    ensures r.mul(u, r.mul(v, p)) == r.one
    ensures r.mul(p, r.mul(v, u)) == r.one
  {
    hide Commutative;
    BackStep(r, p, u, v);
  }

  lemma ProductStep<T(!new)>(r: Ring<T>, nums: seq<T>, f: nat)
    requires f <= |nums|
    ensures f == 0 ==> Product(r, nums[..f]) == r.one
    ensures f < |nums| ==>
      Product(r, nums[..f + 1]) ==
      (if nums[f] == r.zero then Product(r, nums[..f]) else r.mul(Product(r, nums[..f]), nums[f]))
  {
    if f < |nums| { assert nums[..f + 1][..f] == nums[..f]; }
  }

  lemma FieldInverse<T(!new)>(r: Ring<T>, inv: T -> T, nums: seq<T>)
    requires FieldLike(r, inv)
    ensures r.mul(Product(r, nums), inv(Product(r, nums))) == r.one
  {
    ProductNonzero(r, inv, nums);
  }
}
