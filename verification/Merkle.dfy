/** The RFC 6962 inclusion check of the receipt badge: the bit-shifting loop, the recursive hash tree
    of section 2.1 of RFC 6962, and the two theorems that connect them. */
module Merkle {
  import opened Bytes

  function LeafHash(h: Hash, data: Data): Data { h.Of([0] + data) }

  function NodeHash(h: Hash, l: Data, r: Data): Data { h.Of([1] + (l + r)) }

  // ---------------------------------------------------------------------------------------------
  // The tree of section 2.1 of RFC 6962

  /** n lies in (2^Level(n), 2^(Level(n)+1)]. */
  function Level(n: nat): (j: nat)
    requires n > 1
    ensures Pow2(j) < n <= 2 * Pow2(j)
  {
    if n == 2 then 0 else 1 + Level((n + 1) / 2)
  }

  /** The largest power of two smaller than n. */
  function Split(n: nat): (k: nat)
    requires n > 1
    ensures 0 < k < n <= 2 * k
  {
    Pow2(Level(n))
  }

  function Mth(h: Hash, d: seq<Data>): (root: Data)
    requires d != []
    ensures |root| == 32
  {
    if |d| == 1 then LeafHash(h, d[0]) else
      var k := Split(|d|);
      NodeHash(h, Mth(h, d[..k]), Mth(h, d[k..]))
  }

  predicate Digests(p: seq<Data>) {
    forall i :: 0 <= i < |p| ==> |p[i]| == 32
  }

  /** PATH(m, D), leaf-side first. */
  function AuditPath(h: Hash, m: nat, d: seq<Data>): (p: seq<Data>)
    requires m < |d|
    ensures |p| == PathLength(m, |d|)
    ensures Digests(p)
  {
    if |d| == 1 then [] else
      var k := Split(|d|);
      if m < k then AuditPath(h, m, d[..k]) + [Mth(h, d[k..])]
      else AuditPath(h, m - k, d[k..]) + [Mth(h, d[..k])]
  }

  function PathLength(m: nat, n: nat): nat
    requires m < n
  {
    if n == 1 then 0 else
      var k := Split(n);
      1 + (if m < k then PathLength(m, k) else PathLength(m - k, n - k))
  }

  function OnLeft(h: Hash, l: Option<Data>, r: Data): Option<Data> {
    if l.Some? then Some(NodeHash(h, l.value, r)) else None
  }

  function OnRight(h: Hash, r: Option<Data>, l: Data): Option<Data> {
    if r.Some? then Some(NodeHash(h, l, r.value)) else None
  }

  /** The root that a leaf hash and a path rebuild, by recursion on the shape of the tree. */
  function Rebuild(h: Hash, leaf: Data, m: nat, n: nat, path: seq<Data>): (r: Option<Data>)
    requires m < n
    decreases n
    ensures r.Some? && |leaf| == 32 ==> |r.value| == 32
  {
    if n == 1 then (if path == [] then Some(leaf) else None)
    else if path == [] then None
    else
      var k := Split(n);
      var last := path[|path| - 1];
      if m < k then
        OnLeft(h, Rebuild(h, leaf, m, k, path[..|path| - 1]), last)
      else
        OnRight(h, Rebuild(h, leaf, m - k, n - k, path[..|path| - 1]), last)
  }

  // ---------------------------------------------------------------------------------------------
  // The loop

  /** Where the inner loop stops: both indices shifted past the trailing zeros of fn. */
  function Skip(f: nat, s: nat): (nat, nat)
  {
    if f != 0 && f % 2 == 0 then Skip(f / 2, s / 2) else (f, s)
  }

  /** The outer loop as a recursion over the remaining path. */
  function Fold(h: Hash, f: nat, s: nat, r: Data, path: seq<Data>): Option<Data>
    decreases |path|
  {
    if path == [] then (if s == 0 then Some(r) else None)
    else if s == 0 then None
    else if f % 2 == 1 || f == s then
      var (f', s') := if f % 2 == 0 then Skip(f, s) else (f, s);
      Fold(h, f' / 2, s' / 2, NodeHash(h, path[0], r), path[1..])
    else
      Fold(h, f / 2, s / 2, NodeHash(h, r, path[0]), path[1..])
  }

  /** What the caller sees: the rebuilt root, or null when the shape does not fit. */
  function Root(h: Hash, leaf: Data, index: nat, size: nat, path: seq<Data>): Option<Data> {
    if index >= size then None else Rebuild(h, leaf, index, size, path)
  }

  method RootFromInclusion(h: Hash, leaf: Data, index: nat, size: nat, path: seq<Data>) returns (root: Option<Data>)
    ensures root == Root(h, leaf, index, size, path)
  {
    if index >= size { return None; }
    var fn: nat, sn: nat := index, size - 1;
    var r := leaf;
    FoldIsRebuild(h, leaf, index, size, path);
    for i := 0 to |path|
      invariant Fold(h, fn, sn, r, path[i..]) == Root(h, leaf, index, size, path)
    {
      var v := path[i];
      assert path[i..][0] == v && path[i..][1..] == path[i + 1..];
      if sn == 0 { return None; }
      if fn % 2 == 1 || fn == sn {
        r := NodeHash(h, v, r);
        if fn % 2 == 0 {
          ghost var end := Skip(fn, sn);
          while fn != 0 && fn % 2 == 0
            invariant Skip(fn, sn) == end
            decreases fn
          {
            fn, sn := fn / 2, sn / 2;
          }
        }
      } else {
        r := NodeHash(h, r, v);
      }
      fn, sn := fn / 2, sn / 2;
    }
    return if sn == 0 then Some(r) else None;
  }

  /** Inside a complete left subtree of 2^j leaves the loop behaves as it does on that subtree alone,
      and the last path element is hashed on the right. */
  lemma {:induction false} FoldLeft(h: Hash, j: nat, f: nat, s: nat, r: Data, path: seq<Data>)
    requires f < Pow2(j) <= s < 2 * Pow2(j)
    ensures path == [] ==> Fold(h, f, s, r, path) == None
    ensures path != [] ==>
      Fold(h, f, s, r, path) == OnLeft(h, Fold(h, f, Pow2(j) - 1, r, path[..|path| - 1]), path[|path| - 1])
    decreases j
  {
    if path != [] && j > 0 { FoldLeftStep(h, j, f, s, r, path); }
  }

  lemma {:induction false} FoldLeftStep(h: Hash, j: nat, f: nat, s: nat, r: Data, path: seq<Data>)
    requires f < Pow2(j) <= s < 2 * Pow2(j) && j > 0 && path != []
    ensures Fold(h, f, s, r, path) == OnLeft(h, Fold(h, f, Pow2(j) - 1, r, path[..|path| - 1]), path[|path| - 1])
    decreases j, 0
  {
    hide Fold, NodeHash;
    var rest := path[..|path| - 1];
    assert Pow2(j) == 2 * Pow2(j - 1);
    FoldUnfold(h, f, s, r, path);
    FoldLeft(h, j - 1, f / 2, s / 2, Joined(h, f, r, path[0]), path[1..]);
    if rest == [] {
      FoldEmpty(h, f, Pow2(j) - 1, r);
    } else {
      FoldUnfold(h, f, Pow2(j) - 1, r, rest);
      assert rest[1..] == path[1..][..|path| - 2];
    }
  }

  lemma FoldEmpty(h: Hash, f: nat, s: nat, r: Data)
    ensures Fold(h, f, s, r, []) == if s == 0 then Some(r) else None
  {
  }

  /** Skipping commutes with a leading bit above all the others. */
  lemma {:induction false} SkipUnderLeadingBit(j: nat, f: nat, s: nat) returns (j': nat)
    requires 0 < f <= s < Pow2(j)
    ensures j' <= j
    ensures Skip(f, s).0 % 2 == 1 && Skip(f, s).0 <= Skip(f, s).1 < Pow2(j')
    ensures Skip(Pow2(j) + f, Pow2(j) + s) == (Pow2(j') + Skip(f, s).0, Pow2(j') + Skip(f, s).1)
    decreases j
  {
    hide Skip, Pow2;
    SkipStep(f, s);
    SkipStep(Pow2(j) + f, Pow2(j) + s);
    LeadingBit(j, f, s);
    if f % 2 == 0 {
      LeadingBit(j, s, s);
      j' := SkipUnderLeadingBit(j - 1, f / 2, s / 2);
    } else {
      j' := j;
    }
  }

  /** Halving moves the leading bit down. */
  lemma LeadingBit(j: nat, f: nat, s: nat)
    requires 0 < f <= s < Pow2(j)
    ensures j > 0 && s / 2 < Pow2(j - 1)
    ensures (Pow2(j) + f) % 2 == f % 2 && (Pow2(j) + f) / 2 == Pow2(j - 1) + f / 2
  {
  }

  lemma SkipStep(f: nat, s: nat)
    ensures Skip(f, s) == if f != 0 && f % 2 == 0 then Skip(f / 2, s / 2) else (f, s)
  {
  }

  lemma {:induction false} SkipPowerOfTwo(j: nat)
    ensures Skip(Pow2(j), Pow2(j)) == (1, 1)
  {
    if j > 0 { SkipPowerOfTwo(j - 1); }
  }

  /** To the right of a complete subtree of 2^j leaves the loop behaves as it does on the right subtree
      alone, and the last path element is hashed on the left. */
  lemma {:induction false} FoldRight(h: Hash, j: nat, f: nat, s: nat, r: Data, path: seq<Data>)
    requires f <= s < Pow2(j)
    ensures path == [] ==> Fold(h, Pow2(j) + f, Pow2(j) + s, r, path) == None
    ensures path != [] ==>
      Fold(h, Pow2(j) + f, Pow2(j) + s, r, path) ==
      OnRight(h, Fold(h, f, s, r, path[..|path| - 1]), path[|path| - 1])
    decreases |path|
  {
    if path == [] {
    } else if s == 0 {
      FoldRightDone(h, j, r, path);
    } else {
      var rest := path[..|path| - 1];
      var j', f', s', r' := FoldStep(h, j, f, s, r, path, rest);
      FoldRight(h, j', f', s', r', path[1..]);
      if rest != [] {
        assert rest[1..] == path[1..][..|path| - 2];
      }
    }
  }

  /** One pass of the loop, on a subtree and on the same subtree below a leading bit, in step. */
  lemma FoldStep(h: Hash, j: nat, f: nat, s: nat, r: Data, path: seq<Data>, rest: seq<Data>)
    returns (j': nat, f': nat, s': nat, r': Data)
    requires f <= s < Pow2(j) && s > 0 && path != [] && rest <= path
    ensures f' <= s' < Pow2(j')
    ensures Fold(h, Pow2(j) + f, Pow2(j) + s, r, path) == Fold(h, Pow2(j') + f', Pow2(j') + s', r', path[1..])
    ensures rest != [] ==> Fold(h, f, s, r, rest) == Fold(h, f', s', r', rest[1..])
  {
    hide Fold, Skip, NodeHash;
    if f % 2 == 0 && f == s {
      j', f', s', r' := FoldSkip(h, j, f, r, path, rest);
    } else {
      j', f', s', r' := j - 1, f / 2, s / 2, Joined(h, f, r, path[0]);
      assert Pow2(j) == 2 * Pow2(j');
      FoldUnfold(h, Pow2(j) + f, Pow2(j) + s, r, path);
      if rest != [] { FoldUnfold(h, f, s, r, rest); }
    }
  }

  lemma FoldSkip(h: Hash, j: nat, f: nat, r: Data, path: seq<Data>, rest: seq<Data>)
    returns (j': nat, f': nat, s': nat, r': Data)
    requires 0 < f < Pow2(j) && f % 2 == 0 && path != [] && rest <= path
    ensures f' <= s' < Pow2(j')
    ensures Fold(h, Pow2(j) + f, Pow2(j) + f, r, path) == Fold(h, Pow2(j') + f', Pow2(j') + s', r', path[1..])
    ensures rest != [] ==> Fold(h, f, f, r, rest) == Fold(h, f', s', r', rest[1..])
  {
    hide Fold, Skip;
    var j1 := SkipUnderLeadingBit(j, f, f);
    var (f1, s1) := Skip(f, f);
    j', f', s', r' := j1 - 1, f1 / 2, s1 / 2, NodeHash(h, path[0], r);
    FoldSkipUnfold(h, Pow2(j) + f, r, path);
    if rest != [] { FoldSkipUnfold(h, f, r, rest); }
  }

  /** A pass without a skip halves both indices. */
  lemma FoldUnfold(h: Hash, f: nat, s: nat, r: Data, path: seq<Data>)
    requires 0 < s && path != [] && (f % 2 == 1 || f != s)
    ensures Fold(h, f, s, r, path) == Fold(h, f / 2, s / 2, Joined(h, f, r, path[0]), path[1..])
  {
  }

  function Joined(h: Hash, f: nat, r: Data, v: Data): Data {
    if f % 2 == 1 then NodeHash(h, v, r) else NodeHash(h, r, v)
  }

  lemma FoldSkipUnfold(h: Hash, f: nat, r: Data, path: seq<Data>)
    requires 0 < f && f % 2 == 0 && path != []
    ensures Fold(h, f, f, r, path) == Fold(h, Skip(f, f).0 / 2, Skip(f, f).1 / 2, NodeHash(h, path[0], r), path[1..])
  {
  }

  /** The right-edge skip: a finished right subtree joins the complete one whatever the level of that is. */
  lemma FoldRightDone(h: Hash, j: nat, r: Data, path: seq<Data>)
    requires path != []
    ensures Fold(h, Pow2(j), Pow2(j), r, path)
      == OnRight(h, Fold(h, 0, 0, r, path[..|path| - 1]), path[|path| - 1])
  {
    SkipPowerOfTwo(j);
    assert j > 0 ==> Pow2(j) % 2 == 0;
    assert Fold(h, Pow2(j), Pow2(j), r, path) == Fold(h, 0, 0, NodeHash(h, path[0], r), path[1..]);
  }

  /** The loop computes the recursive rebuild, for every index, size and path. */
  lemma {:induction false} FoldIsRebuild(h: Hash, leaf: Data, m: nat, n: nat, path: seq<Data>)
    requires m < n
    ensures Fold(h, m, n - 1, leaf, path) == Rebuild(h, leaf, m, n, path)
    decreases n
  {
    if n > 1 && path != [] { FoldIsRebuildStep(h, leaf, m, n, path); }
  }

  lemma {:induction false} FoldIsRebuildStep(h: Hash, leaf: Data, m: nat, n: nat, path: seq<Data>)
    requires m < n && n > 1 && path != []
    ensures Fold(h, m, n - 1, leaf, path) == Rebuild(h, leaf, m, n, path)
    decreases n, 0
  {
    hide Fold, Level, Pow2;
    var k, rest, last := Split(n), path[..|path| - 1], path[|path| - 1];
    if m < k {
      FoldIsRebuild(h, leaf, m, k, rest);
      FoldLeft(h, Level(n), m, n - 1, leaf, path);
    } else {
      var f, s := m - k, n - 1 - k;
      FoldIsRebuild(h, leaf, f, s + 1, rest);
      FoldRight(h, Level(n), f, s, leaf, path);
    }
  }

  // ---------------------------------------------------------------------------------------------
  // Completeness and soundness

  /** The check returns a root exactly when the path has the length of the audit path. */
  lemma {:induction false} RootShape(h: Hash, leaf: Data, m: nat, n: nat, path: seq<Data>)
    ensures Root(h, leaf, m, n, path).Some? <==> m < n && |path| == PathLength(m, n)
    decreases n
  {
    if m < n && n > 1 && path != [] {
      var k := Split(n);
      var rest := path[..|path| - 1];
      if m < k { RootShape(h, leaf, m, k, rest); } else { RootShape(h, leaf, m - k, n - k, rest); }
    }
  }

  /** Every leaf, with its audit path, rebuilds the tree head. */
  lemma {:induction false} Complete(h: Hash, m: nat, d: seq<Data>)
    requires m < |d|
    ensures Root(h, LeafHash(h, d[m]), m, |d|, AuditPath(h, m, d)) == Some(Mth(h, d))
    decreases |d|
  {
    if |d| > 1 {
      var k := Split(|d|);
      if m < k {
        Complete(h, m, d[..k]);
        RebuildSnoc(h, LeafHash(h, d[m]), m, |d|, AuditPath(h, m, d[..k]), Mth(h, d[k..]));
      } else {
        Complete(h, m - k, d[k..]);
        RebuildSnoc(h, LeafHash(h, d[m]), m, |d|, AuditPath(h, m - k, d[k..]), Mth(h, d[..k]));
      }
    }
  }

  lemma RebuildSnoc(h: Hash, leaf: Data, m: nat, n: nat, rest: seq<Data>, last: Data)
    requires m < n && n > 1
    ensures Rebuild(h, leaf, m, n, rest + [last]) ==
      var k := Split(n);
      if m < k then OnLeft(h, Rebuild(h, leaf, m, k, rest), last)
      else OnRight(h, Rebuild(h, leaf, m - k, n - k, rest), last)
  {
    assert (rest + [last])[..|rest|] == rest;
  }

  lemma LeafInjective(h: Hash, x: Data, y: Data) returns (a: Data, b: Data)
    requires LeafHash(h, x) == LeafHash(h, y)
    ensures x == y || Collision(h, a, b)
  {
    a, b := [0] + x, [0] + y;
    assert a[1..] == x && b[1..] == y;
  }

  lemma NodeInjective(h: Hash, l: Data, r: Data, l': Data, r': Data) returns (a: Data, b: Data)
    requires (|l| == |l'| || |r| == |r'|) && NodeHash(h, l, r) == NodeHash(h, l', r')
    ensures (l == l' && r == r') || Collision(h, a, b)
  {
    a, b := [1] + (l + r), [1] + (l' + r');
    if a == b {
      assert l + r == a[1..] == b[1..] == l' + r';
      assert |l| == |l'|;
      SplitConcat(l, r, l', r');
    }
  }

  lemma {:induction false} RebuildInjective(h: Hash, x: Data, y: Data, m: nat, n: nat, p: seq<Data>, q: seq<Data>)
    returns (a: Data, b: Data)
    requires m < n && |x| == |y| == 32
    requires Rebuild(h, x, m, n, p).Some? && Rebuild(h, x, m, n, p) == Rebuild(h, y, m, n, q)
    ensures (x == y && p == q) || Collision(h, a, b)
    decreases n
  {
    a, b := [], [];
    if n > 1 {
      var k := Split(n);
      var p', u, q', v := p[..|p| - 1], p[|p| - 1], q[..|q| - 1], q[|q| - 1];
      assert p == p' + [u] && q == q' + [v];
      if m < k {
        a, b := NodeInjective(h, Rebuild(h, x, m, k, p').value, u, Rebuild(h, y, m, k, q').value, v);
        if !Collision(h, a, b) { a, b := RebuildInjective(h, x, y, m, k, p', q'); }
      } else {
        var m', n' := m - k, n - k;
        a, b := NodeInjective(h, u, Rebuild(h, x, m', n', p').value, v, Rebuild(h, y, m', n', q').value);
        if !Collision(h, a, b) { a, b := RebuildInjective(h, x, y, m', n', p', q'); }
      }
    }
  }

  /** The turns from the leaf at m up to the root of n leaves, leaf side first: whether the leaf lies on the left. */
  function Route(m: nat, n: nat): (turns: seq<bool>)
    requires m < n
    ensures |turns| == PathLength(m, n)
    decreases n
  {
    if n == 1 then [] else
      var k := Split(n);
      if m < k then Route(m, k) + [true] else Route(m - k, n - k) + [false]
  }

  /** An index and a size mean the same place in a tree as another index and another size. */
  predicate SameRoute(m: nat, n: nat, m': nat, n': nat) {
    m < n && m' < n' && Route(m, n) == Route(m', n')
  }

  /** Different leaves of one tree have different routes. */
  lemma {:induction false} RouteInjective(i: nat, j: nat, n: nat)
    requires SameRoute(i, n, j, n)
    ensures i == j
    decreases n
  {
    hide Route;
    if n > 1 {
      var k := Split(n);
      RouteShape(i, n);
      RouteShape(j, n);
      if i < k { RouteInjective(i, j, k); } else { RouteInjective(i - k, j - k, n - k); }
    }
  }

  /** The loop sees the index and the size only through the route. */
  lemma {:induction false} RebuildByRoute(h: Hash, leaf: Data, m: nat, n: nat, m': nat, n': nat, path: seq<Data>)
    requires SameRoute(m, n, m', n')
    ensures Rebuild(h, leaf, m, n, path) == Rebuild(h, leaf, m', n', path)
    decreases n
  {
    hide Route, Rebuild;
    RouteShape(m, n);
    RouteShape(m', n');
    RebuildEnds(h, leaf, m, n, path);
    RebuildEnds(h, leaf, m', n', path);
    if n > 1 && path != [] {
      var k, k', rest, last := Split(n), Split(n'), path[..|path| - 1], path[|path| - 1];
      RebuildSnoc(h, leaf, m, n, rest, last);
      RebuildSnoc(h, leaf, m', n', rest, last);
      assert path == rest + [last];
      if m < k {
        RebuildByRoute(h, leaf, m, k, m', k', rest);
      } else {
        RebuildByRoute(h, leaf, m - k, n - k, m' - k', n' - k', rest);
      }
    }
  }

  lemma RebuildEnds(h: Hash, leaf: Data, m: nat, n: nat, path: seq<Data>)
    requires m < n
    ensures n == 1 ==> Rebuild(h, leaf, m, n, path) == if path == [] then Some(leaf) else None
    ensures n > 1 && path == [] ==> Rebuild(h, leaf, m, n, path) == None
  {
  }

  lemma RouteShape(m: nat, n: nat)
    requires m < n
    ensures (Route(m, n) == []) == (n == 1)
    ensures n > 1 ==> var t := Route(m, n); var k := Split(n);
      t[|t| - 1] == (m < k) && t[..|t| - 1] == if m < k then Route(m, k) else Route(m - k, n - k)
  {
  }

  /** One place under one root holds one leaf: two accepted inclusions whose index and size mean the same place
      agree on the leaf and on the whole path, or the two returned byte strings collide. */
  lemma Binding(h: Hash, x: Data, y: Data, m: nat, n: nat, m': nat, n': nat, p: seq<Data>, q: seq<Data>)
    returns (a: Data, b: Data)
    requires SameRoute(m, n, m', n') && Root(h, LeafHash(h, x), m, n, p).Some?
    requires Root(h, LeafHash(h, x), m, n, p) == Root(h, LeafHash(h, y), m', n', q)
    ensures (x == y && p == q) || Collision(h, a, b)
  {
    RebuildByRoute(h, LeafHash(h, y), m', n', m, n, q);
    a, b := RebuildInjective(h, LeafHash(h, x), LeafHash(h, y), m, n, p, q);
    if !Collision(h, a, b) { a, b := LeafInjective(h, x, y); }
  }

  /** A path that rebuilds the tree head is the audit path of the leaf at that index; otherwise the two
      returned byte strings collide. */
  lemma Sound(h: Hash, x: Data, m: nat, d: seq<Data>, path: seq<Data>) returns (a: Data, b: Data)
    requires m < |d|
    requires Root(h, LeafHash(h, x), m, |d|, path) == Some(Mth(h, d))
    ensures (x == d[m] && path == AuditPath(h, m, d)) || Collision(h, a, b)
  {
    Complete(h, m, d);
    a, b := Binding(h, x, d[m], m, |d|, m, |d|, path, AuditPath(h, m, d));
  }

  /** Leaves and nodes are hashed apart. */
  lemma LeafIsNoNode(h: Hash, x: Data, l: Data, r: Data) returns (a: Data, b: Data)
    requires LeafHash(h, x) == NodeHash(h, l, r)
    ensures Collision(h, a, b)
  {
    a, b := [0] + x, [1] + (l + r);
    assert a[0] != b[0];
  }

  /** What an accepted inclusion says when the stated size is not known to be that of the list: the leaf is in the
      list, at the place whose route the stated index and size describe, and the path is its audit path; otherwise
      the two returned byte strings collide. */
  lemma {:induction false} Located(h: Hash, x: Data, m: nat, n: nat, d: seq<Data>, path: seq<Data>)
    returns (i: nat, a: Data, b: Data)
    requires d != [] && Root(h, LeafHash(h, x), m, n, path) == Some(Mth(h, d))
    ensures Collision(h, a, b) ||
      (SameRoute(i, |d|, m, n) && x == d[i] && path == AuditPath(h, i, d))
    decreases n
  {
    i := 0;
    if n == 1 {
      if |d| == 1 {
        a, b := LeafInjective(h, x, d[0]);
      } else {
        var k := Split(|d|);
        a, b := LeafIsNoNode(h, x, Mth(h, d[..k]), Mth(h, d[k..]));
      }
    } else {
      i, a, b := LocatedBelow(h, x, m, n, d, path);
    }
  }

  lemma {:induction false} LocatedBelow(h: Hash, x: Data, m: nat, n: nat, d: seq<Data>, path: seq<Data>)
    returns (i: nat, a: Data, b: Data)
    requires n > 1 && d != [] && Root(h, LeafHash(h, x), m, n, path) == Some(Mth(h, d))
    ensures Collision(h, a, b) ||
      (SameRoute(i, |d|, m, n) && x == d[i] && path == AuditPath(h, i, d))
    decreases n, 0
  {
    hide Mth, NodeHash, AuditPath, SameRoute, Root, LeafHash;
    a, b := TopAgrees(h, x, m, n, d, path);
    i := 0;
    if !Collision(h, a, b) {
      var k, j, rest := Split(n), Split(|d|), path[..|path| - 1];
      assert path == rest + [path[|path| - 1]];
      if m < k {
        i, a, b := Located(h, x, m, k, d[..j], rest);
        if !Collision(h, a, b) { LocatedLeft(h, x, m, n, i, d, rest); }
      } else {
        i, a, b := Located(h, x, m - k, n - k, d[j..], rest);
        i := j + i;
        if !Collision(h, a, b) { LocatedRight(h, x, m, n, i, d, rest); }
      }
    }
  }

  lemma LocatedLeft(h: Hash, x: Data, m: nat, n: nat, i: nat, d: seq<Data>, rest: seq<Data>)
    requires n > 1 && |d| > 1 && m < Split(n) && SameRoute(i, Split(|d|), m, Split(n))
    requires x == d[..Split(|d|)][i] && rest == AuditPath(h, i, d[..Split(|d|)])
    ensures SameRoute(i, |d|, m, n) && x == d[i] && rest + [Mth(h, d[Split(|d|)..])] == AuditPath(h, i, d)
  {
    StepUp(h, m, n, i, d, true);
  }

  lemma LocatedRight(h: Hash, x: Data, m: nat, n: nat, i: nat, d: seq<Data>, rest: seq<Data>)
    requires n > 1 && |d| > 1 && Split(n) <= m < n && Split(|d|) <= i
    requires SameRoute(i - Split(|d|), |d| - Split(|d|), m - Split(n), n - Split(n))
    requires x == d[Split(|d|)..][i - Split(|d|)] && rest == AuditPath(h, i - Split(|d|), d[Split(|d|)..])
    ensures SameRoute(i, |d|, m, n) && x == d[i] && rest + [Mth(h, d[..Split(|d|)])] == AuditPath(h, i, d)
  {
    StepUp(h, m, n, i, d, false);
  }

  /** The topmost node of an accepted inclusion is the root of the list: both halves agree. */
  lemma TopAgrees(h: Hash, x: Data, m: nat, n: nat, d: seq<Data>, path: seq<Data>) returns (a: Data, b: Data)
    requires n > 1 && d != [] && Root(h, LeafHash(h, x), m, n, path) == Some(Mth(h, d))
    ensures m < n && path != []
    ensures Collision(h, a, b) ||
      (|d| > 1 &&
       var k, j, rest, last := Split(n), Split(|d|), path[..|path| - 1], path[|path| - 1];
       if m < k then Root(h, LeafHash(h, x), m, k, rest) == Some(Mth(h, d[..j])) && last == Mth(h, d[j..])
       else Root(h, LeafHash(h, x), m - k, n - k, rest) == Some(Mth(h, d[j..])) && last == Mth(h, d[..j]))
  {
    hide Mth, NodeHash, Rebuild;
    MthUnfold(h, d);
    RebuildEnds(h, LeafHash(h, x), m, n, path);
    var k, rest, u := Split(n), path[..|path| - 1], path[|path| - 1];
    assert path == rest + [u];
    RebuildSnoc(h, LeafHash(h, x), m, n, rest, u);
    var left := m < k;
    var v := Rebuild(h, LeafHash(h, x), if left then m else m - k, if left then k else n - k, rest).value;
    var l, r := if left then v else u, if left then u else v;
    if |d| == 1 {
      a, b := LeafIsNoNode(h, d[0], l, r);
    } else {
      a, b := NodeInjective(h, l, r, Mth(h, d[..Split(|d|)]), Mth(h, d[Split(|d|)..]));
    }
  }

  /** One level up, the route gets one turn and the audit path one hash. */
  lemma StepUp(h: Hash, m: nat, n: nat, i: nat, d: seq<Data>, left: bool)
    requires m < n && n > 1 && i < |d| && |d| > 1 && left == (m < Split(n)) == (i < Split(|d|))
    ensures var k, j := Split(n), Split(|d|);
      && (left ==> (SameRoute(i, j, m, k) ==> SameRoute(i, |d|, m, n))
                   && AuditPath(h, i, d) == AuditPath(h, i, d[..j]) + [Mth(h, d[j..])])
      && (!left ==> (SameRoute(i - j, |d| - j, m - k, n - k) ==> SameRoute(i, |d|, m, n))
                    && AuditPath(h, i, d) == AuditPath(h, i - j, d[j..]) + [Mth(h, d[..j])])
  {
  }

  /** Conversely every index and size with the route of a leaf are accepted for that leaf with its audit path. */
  lemma Accepted(h: Hash, i: nat, d: seq<Data>, m: nat, n: nat)
    requires SameRoute(i, |d|, m, n)
    ensures Root(h, LeafHash(h, d[i]), m, n, AuditPath(h, i, d)) == Some(Mth(h, d))
  {
    Complete(h, i, d);
    RebuildByRoute(h, LeafHash(h, d[i]), i, |d|, m, n, AuditPath(h, i, d));
  }

  /** The stated index is the place in the list exactly when the stated size gives it the same route. */
  lemma IndexIsTrue(i: nat, size: nat, m: nat, n: nat)
    requires SameRoute(i, size, m, n)
    ensures i == m <==> SameRoute(m, size, m, n)
  {
    if SameRoute(m, size, m, n) { RouteInjective(i, m, size); }
  }

  /** The last of five leaves passes as index 2 of 3. */
  lemma LastOfFive(h: Hash, d: seq<Data>)
    requires |d| == 5
    ensures SameRoute(4, 5, 2, 3) && !SameRoute(2, 5, 2, 3)
    ensures Root(h, LeafHash(h, d[4]), 2, 3, [Mth(h, d[..4])]) == Some(Mth(h, d))
  {
    hide Mth, LeafHash, Rebuild;
    assert Level(2) == 0 && Level(3) == 1 && Level(5) == 2;
    assert Pow2(0) == 1 && Pow2(1) == 2 && Pow2(2) == 4;
    assert Route(0, 1) == [] && Route(4, 5) == [] + [false] && Route(2, 3) == [] + [false];
    if SameRoute(2, 5, 2, 3) { RouteInjective(2, 4, 5); }
    assert d[4..][0] == d[4] && AuditPath(h, 0, d[4..]) == [];
    assert AuditPath(h, 4, d) == [] + [Mth(h, d[..4])] == [Mth(h, d[..4])];
    Accepted(h, 4, d, 2, 3);
  }

  lemma MthUnfold(h: Hash, d: seq<Data>)
    requires d != []
    ensures Mth(h, d) == if |d| == 1 then LeafHash(h, d[0]) else
      NodeHash(h, Mth(h, d[..Split(|d|)]), Mth(h, d[Split(|d|)..]))
  {
  }
}
