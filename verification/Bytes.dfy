/** Byte strings, the result types of the verifiers, and hashing with an arbitrary 32-byte hash. */
module Bytes {
  datatype Option<+T> = None | Some(value: T)

  datatype Result<+T, +E> = Ok(value: T) | Err(error: E)

  type Byte = x: nat | x < 256

  type Data = seq<Byte>

  /** A JavaScript string is a sequence of UTF-16 code units. */
  type Unit = u: nat | u < 0x10000

  type JsString = seq<Unit>

  /** A hash is any total function to 32 bytes (an f of another length counts as constant zero). It is
      not assumed to be injective: every binding result of this project either holds or comes with two
      inputs that collide. */
  datatype Hash = Hash(f: Data -> Data) {
    function Of(x: Data): (digest: Data)
      ensures |digest| == 32
    {
      var y := f(x);
      if |y| == 32 then y else seq<Byte>(32, i => 0)
    }
  }

  ghost predicate Collision(h: Hash, a: Data, b: Data) {
    a != b && h.Of(a) == h.Of(b)
  }

  function Pow2(n: nat): (r: nat)
    ensures r > 0
  {
    if n == 0 then 1 else 2 * Pow2(n - 1)
  }

  /** The n low bytes of v, most significant first. */
  function BigEndian(v: nat, n: nat): (d: Data)
    ensures |d| == n
  {
    if n == 0 then [] else BigEndian(v / 256, n - 1) + [v % 256]
  }

  /** Equal concatenations whose left parts have equal lengths agree on both parts. */
  lemma SplitConcat<T>(a: seq<T>, b: seq<T>, c: seq<T>, d: seq<T>)
    requires a + b == c + d && |a| == |c|
    ensures a == c && b == d
  {
    assert a == (a + b)[..|a|] && c == (c + d)[..|c|];
    assert b == (a + b)[|a|..] && d == (c + d)[|c|..];
  }

  /** The step of every double-and-add loop. */
  lemma Halve(n: nat, k: nat)
    ensures n * k == (if n % 2 == 1 then k else 0) + (n / 2) * (2 * k)
  {
    var h := n / 2;
    assert n == 2 * h + n % 2;
    assert h * (2 * k) == 2 * (h * k);
    assert n % 2 == 1 ==> n * k == (2 * h + 1) * k == 2 * (h * k) + k;
    assert n % 2 == 0 ==> n * k == (2 * h) * k == 2 * (h * k);
  }
}
