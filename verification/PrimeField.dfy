/** Integers modulo the BN254 base field prime, as the bundled field class computes them. */
module PrimeField {
  import opened Rings
  import opened Bytes
  import Inverse

  const P: nat := 0x30644e72e131a029b85045b68181585d97816a916871ca8d3c208c16d87cfd47

  type Fp = x: nat | x < P

  /** create(n): n modulo P, in 0 .. P - 1 for negative n as well. */
  function Create(n: int): Fp { n % P }

  function Field(): Ring<Fp> {
    Ring(0, 1, (x: Fp, y: Fp) => Create(x + y), (x: Fp, y: Fp) => Create(x * y), (x: Fp) => Create(-(x as int)))
  }

  lemma SmallMultiple(m: nat, k: int)
    requires -(m as int) < m * k < m
    ensures k == 0
  {
  }

  lemma ModUnique(n: int, m: nat, q: int, d: nat)
    requires n == m * q + d && d < m
    ensures n % m == d
  {
    var q', d' := n / m, n % m;
    assert n == m * q' + d';
    assert m * (q - q') == m * q - m * q';
    SmallMultiple(m, q - q');
  }

  lemma ModShift(n: int, m: nat, k: int)
    requires m > 0
    ensures (n + m * k) % m == n % m
  {
    assert n == m * (n / m) + n % m;
    assert m * (n / m + k) == m * (n / m) + m * k;
    ModUnique(n + m * k, m, n / m + k, n % m);
  }

  /** Reducing a factor or a term early does not change the result. */
  lemma EarlyMul(a: int, b: int)
    ensures Create(Create(a) * b) == Create(a * b)
  {
    var q := a / P;
    assert a == P * q + Create(a);
    assert a * b == Create(a) * b + P * (q * b);
    ModShift(Create(a) * b, P, q * b);
  }

  lemma EarlyAdd(a: int, b: int)
    ensures Create(Create(a) + b) == Create(a + b)
  {
    var q := a / P;
    assert a + b == (Create(a) + b) + P * q;
    ModShift(Create(a) + b, P, q);
  }

  lemma FieldLaws(x: Fp, y: Fp, z: Fp)
    ensures Create(Create(x + y) + z) == Create(x + Create(y + z))
    ensures Create(Create(x * y) * z) == Create(x * Create(y * z))
    ensures Create(x * Create(y + z)) == Create(Create(x * y) + Create(x * z))
    ensures Create(x + Create(-(x as int))) == 0
  {
    hide Create;
    EarlyAdd(x + y, z);
    EarlyAdd(y + z, x);
    EarlyMul(x * y, z);
    EarlyMul(y * z, x);
    assert (x * y) * z == (y * z) * x;
    EarlyMul(y + z, x);
    EarlyAdd(x * y, Create(x * z));
    EarlyAdd(x * z, x * y);
    assert (y + z) * x == x * y + x * z;
    EarlyAdd(-(x as int), x);
    CreateSmall(0);
  }

  lemma CreateSmall(x: Fp)
    ensures Create(x) == x
  {
  }

  /** The field class implements a commutative ring. */
  lemma FieldIsRing()
    ensures Commutative(Field())
  {
    hide Commutative, Create;
    var f := Field();
    forall x: Fp, y: Fp, z: Fp ensures f.add(f.add(x, y), z) == f.add(x, f.add(y, z)) { FieldLaws(x, y, z); }
    forall x: Fp, y: Fp, z: Fp ensures f.mul(f.mul(x, y), z) == f.mul(x, f.mul(y, z)) { FieldLaws(x, y, z); }
    forall x: Fp, y: Fp, z: Fp ensures f.mul(x, f.add(y, z)) == f.add(f.mul(x, y), f.mul(x, z)) {
      FieldLaws(x, y, z);
    }
    forall x: Fp ensures f.add(x, f.neg(x)) == f.zero { FieldLaws(x, x, x); }
    forall x: Fp ensures f.add(x, f.zero) == x && f.mul(x, f.one) == x { CreateSmall(x); }
    forall x: Fp, y: Fp ensures f.mul(x, y) == f.mul(y, x) { assert x * y == y * x; }
    Introduce(f);
  }

  /** inv(n): the loop of invert, on a field element. None stands for the exception. */
  method Invert(x: Fp) returns (y: Option<Fp>)
    ensures y.Some? <==> x != 0 && Inverse.Coprime(x, P)
    ensures y.Some? ==> Field().mul(x, y.value) == Field().one
  {
    var r := Inverse.Invert(x, P);
    if r == None { return None; }
    var v: Fp := r.value;
    var k: int :| Inverse.IsProduct(x * v - 1, P, k);
    ModUnique(x * v, P, k, 1);
    y := Some(v);
  }
}
