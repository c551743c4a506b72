/** The session root: hex digests folded level by level, the last node repeated on an odd level. */
module Session {
  import opened Bytes
  import opened Text

  /** One hash job: SHA-256 of the two hex strings joined, as hex. */
  function Pair(h: Hash, l: JsString, r: JsString): (s: JsString)
    ensures Digest(s)
  {
    Hex(h.Of(TextEncode(l + r)))
  }

  /** A 64-digit lowercase hex digest. */
  predicate Digest(s: JsString) { |s| == 64 && IsHex(s) }

  predicate Digests(level: seq<JsString>) {
    forall i :: 0 <= i < |level| ==> Digest(level[i])
  }

  // ---------------------------------------------------------------------------------------------
  // The tree, from the root down

  /** Nodes on level d above n leaves. */
  function Width(n: nat, d: nat): (w: nat)
    ensures n > 0 ==> w > 0
  {
    if d == 0 then n else (Width(n, d - 1) + 1) / 2
  }

  /** The right child of node i, on a level of w nodes. */
  function Right(i: nat, w: nat): (j: nat)
    requires i < (w + 1) / 2
    ensures j < w && (2 * i + 1 < w ==> j == 2 * i + 1) && (2 * i + 1 == w ==> j == 2 * i)
  {
    if 2 * i + 1 < w then 2 * i + 1 else w - 1
  }

  /** Node i of level d; a right child past the end of its level is the last node of that level. */
  function Node(h: Hash, leaves: seq<JsString>, d: nat, i: nat): JsString
    requires i < Width(|leaves|, d)
  {
    if d == 0 then leaves[i] else
      Pair(h, Node(h, leaves, d - 1, 2 * i), Node(h, leaves, d - 1, Right(i, Width(|leaves|, d - 1))))
  }

  function Height(n: nat): (d: nat)
    ensures n > 0 ==> Width(n, d) == 1
  {
    if n <= 1 then 0 else WidthUp(n, Height((n + 1) / 2)); 1 + Height((n + 1) / 2)
  }

  function Root(h: Hash, leaves: seq<JsString>): JsString
    requires leaves != []
  {
    Node(h, leaves, Height(|leaves|), 0)
  }

  lemma {:induction false} WidthUp(n: nat, d: nat)
    ensures Width(n, d + 1) == Width((n + 1) / 2, d)
  {
    if d > 0 { WidthUp(n, d - 1); }
  }

  // ---------------------------------------------------------------------------------------------
  // The fold, from the leaves up

  function Up(h: Hash, level: seq<JsString>): (next: seq<JsString>)
    ensures |next| == (|level| + 1) / 2 && Digests(next)
  {
    seq((|level| + 1) / 2, i requires 0 <= i < (|level| + 1) / 2 =>
      Pair(h, level[2 * i], level[Right(i, |level|)]))
  }

  lemma UpAt(h: Hash, level: seq<JsString>, i: nat)
    requires i < (|level| + 1) / 2
    ensures Up(h, level)[i] == Pair(h, level[2 * i], level[Right(i, |level|)])
  {
  }

  lemma NodeStep(h: Hash, leaves: seq<JsString>, d: nat, i: nat)
    requires i < Width(|leaves|, d + 1)
    ensures Width(|leaves|, d + 1) == (Width(|leaves|, d) + 1) / 2
    ensures Node(h, leaves, d + 1, i) ==
      Pair(h, Node(h, leaves, d, 2 * i), Node(h, leaves, d, Right(i, Width(|leaves|, d))))
  {
  }

  lemma NodeZero(h: Hash, leaves: seq<JsString>, i: nat)
    requires i < |leaves|
    ensures Width(|leaves|, 0) == |leaves| && Node(h, leaves, 0, i) == leaves[i]
  {
  }

  lemma {:induction false} NodeUp(h: Hash, leaves: seq<JsString>, d: nat, i: nat)
    requires i < Width(|leaves|, d + 1)
    ensures i < Width((|leaves| + 1) / 2, d) && Node(h, leaves, d + 1, i) == Node(h, Up(h, leaves), d, i)
    decreases d
  {
    hide Node, Up, Width, Right, Pair;
    WidthUp(|leaves|, d);
    NodeStep(h, leaves, d, i);
    if d == 0 {
      WidthZero(|leaves|);
      WidthZero((|leaves| + 1) / 2);
      UpAt(h, leaves, i);
      NodeZero(h, leaves, 2 * i);
      NodeZero(h, leaves, Right(i, |leaves|));
      NodeZero(h, Up(h, leaves), i);
    } else {
      WidthUp(|leaves|, d - 1);
      NodeUp(h, leaves, d - 1, 2 * i);
      NodeUp(h, leaves, d - 1, Right(i, Width(|leaves|, d)));
      NodeStep(h, Up(h, leaves), d - 1, i);
    }
  }

  lemma WidthZero(n: nat)
    ensures Width(n, 0) == n
  {
  }

  /** Folding one level keeps the root. */
  lemma RootUp(h: Hash, leaves: seq<JsString>)
    requires |leaves| > 1
    ensures Root(h, leaves) == Root(h, Up(h, leaves))
  {
    hide Node, Up, Width;
    HeightStep(|leaves|);
    NodeUp(h, leaves, Height((|leaves| + 1) / 2), 0);
  }

  lemma HeightStep(n: nat)
    requires n > 1
    ensures Height(n) == 1 + Height((n + 1) / 2)
  {
  }

  /** bare: without the prefix, in lower case. */
  function Bare(hashes: seq<JsString>): (level: seq<JsString>)
    ensures |level| == |hashes|
  {
    seq(|hashes|, i requires 0 <= i < |hashes| => Lower(Strip(hashes[i])))
  }

  /** Digests are bare already. */
  lemma BareDigests(hashes: seq<JsString>)
    requires Digests(hashes)
    ensures Bare(hashes) == hashes
  {
    hide IsHex, Lower, Strip;
    forall i | 0 <= i < |hashes| ensures Bare(hashes)[i] == hashes[i] {
      StripHex(hashes[i]);
      LowerOfHex(hashes[i]);
    }
  }

  /** None stands for the undefined root of an empty session. */
  method SessionRoot(h: Hash, hashes: seq<JsString>) returns (root: Option<JsString>)
    ensures root == if hashes == [] then None else Some(Root(h, Bare(hashes)))
  {
    hide Root, Up, Pair;
    if hashes == [] { return None; }
    var level := Bare(hashes);
    while |level| > 1
      invariant level != [] && Root(h, level) == Root(h, Bare(hashes))
      decreases |level|
    {
      var jobs: seq<JsString> := [];
      var i: nat := 0;
      while i < |level|
        invariant i <= |level| + 1 && i % 2 == 0
        invariant jobs == Up(h, level)[..i / 2]
      {
        var l, r := level[i], if i + 1 < |level| then level[i + 1] else level[i];
        UpAt(h, level, i / 2);
        assert Up(h, level)[..i / 2 + 1] == Up(h, level)[..i / 2] + [Pair(h, l, r)];
        jobs := jobs + [Pair(h, l, r)];
        i := i + 2;
      }
      assert jobs == Up(h, level);
      RootUp(h, level);
      level := jobs;
    }
    RootOfOne(h, level);
    root := Some(level[0]);
  }

  lemma RootOfOne(h: Hash, leaves: seq<JsString>)
    requires |leaves| == 1
    ensures Root(h, leaves) == leaves[0]
  {
    NodeZero(h, leaves, 0);
  }

  // ---------------------------------------------------------------------------------------------
  // Binding

  /** The bytes that hash job i of a level hashes. */
  function JobBytes(level: seq<JsString>, i: nat): Data
    requires i < (|level| + 1) / 2
  {
    TextEncode(level[2 * i] + level[Right(i, |level|)])
  }

  predicate SameJobs(ls: seq<JsString>, ms: seq<JsString>) {
    |ls| == |ms| && forall i :: 0 <= i < (|ls| + 1) / 2 ==> JobBytes(ls, i) == JobBytes(ms, i)
  }

  /** A level has the digests of its jobs. */
  lemma UpJob(h: Hash, level: seq<JsString>, i: nat)
    requires i < (|level| + 1) / 2
    ensures Up(h, level)[i] == Hex(h.Of(JobBytes(level, i)))
  {
  }

  /** One level up is the same level exactly when the jobs hash the same bytes, or two of them collide. */
  lemma UpExactly(h: Hash, ls: seq<JsString>, ms: seq<JsString>) returns (a: Data, b: Data)
    requires |ls| == |ms|
    ensures SameJobs(ls, ms) ==> Up(h, ls) == Up(h, ms)
    ensures Up(h, ls) == Up(h, ms) ==> SameJobs(ls, ms) || Collision(h, a, b)
  {
    hide Up, JobBytes, Hex;
    a, b := [], [];
    if SameJobs(ls, ms) {
      forall i | 0 <= i < |Up(h, ls)| ensures Up(h, ls)[i] == Up(h, ms)[i] {
        UpJob(h, ls, i);
        UpJob(h, ms, i);
      }
    } else if Up(h, ls) == Up(h, ms) {
      var i: nat :| i < (|ls| + 1) / 2 && JobBytes(ls, i) != JobBytes(ms, i);
      UpJob(h, ls, i);
      UpJob(h, ms, i);
      a, b := JobBytes(ls, i), JobBytes(ms, i);
      HexInjective(h.Of(a), h.Of(b));
    }
  }

  /** Entries that one hash job cannot confuse: without lone surrogates, and position by position of one length. */
  predicate Aligned(ls: seq<JsString>, ms: seq<JsString>) {
    |ls| == |ms| && forall i :: 0 <= i < |ls| ==> WellFormed(ls[i]) && WellFormed(ms[i]) && |ls[i]| == |ms[i]|
  }

  lemma DigestsAligned(ls: seq<JsString>, ms: seq<JsString>)
    requires |ls| == |ms| && Digests(ls) && Digests(ms)
    ensures Aligned(ls, ms)
  {
    hide WellFormed;
    forall i | 0 <= i < |ls| ensures WellFormed(ls[i]) && WellFormed(ms[i]) {
      PlainIsWellFormed(ls[i]);
      PlainIsWellFormed(ms[i]);
    }
  }

  lemma JobsOfAligned(ls: seq<JsString>, ms: seq<JsString>)
    requires Aligned(ls, ms) && SameJobs(ls, ms)
    ensures ls == ms
  {
    hide WellFormed, TextEncode;
    forall i | 0 <= i < |ls| ensures ls[i] == ms[i] {
      var k := i / 2;
      var r := Right(k, |ls|);
      assert i == 2 * k || i == r;
      assert JobBytes(ls, k) == JobBytes(ms, k);
      WellFormedConcat(ls[2 * k], ls[r]);
      WellFormedConcat(ms[2 * k], ms[r]);
      TextEncodeInjective(ls[2 * k] + ls[r], ms[2 * k] + ms[r]);
      SplitConcat(ls[2 * k], ls[r], ms[2 * k], ms[r]);
    }
  }

  /** Two sessions of the same length with the same root are the same session, or the two returned byte strings
      collide; for digests, and for any other entries that no hash job can confuse. */
  lemma {:induction false} RootBinding(h: Hash, ls: seq<JsString>, ms: seq<JsString>) returns (a: Data, b: Data)
    requires |ls| > 0 && Aligned(ls, ms) && Root(h, ls) == Root(h, ms)
    ensures ls == ms || Collision(h, a, b)
    decreases |ls|
  {
    hide Root, Aligned, SameJobs;
    a, b := [], [];
    assert |ls| == |ms| by { AlignedLength(ls, ms); }
    if |ls| > 1 {
      a, b := RootExactly(h, ls, ms);
      if !Collision(h, a, b) { JobsOfAligned(ls, ms); }
    } else {
      RootOfOne(h, ls);
      RootOfOne(h, ms);
      assert ls == [ls[0]] && ms == [ms[0]];
    }
  }

  lemma AlignedLength(ls: seq<JsString>, ms: seq<JsString>)
    requires Aligned(ls, ms)
    ensures |ls| == |ms|
  {
  }

  /** Whatever the entries are: two sessions of one length above 1 have one root exactly when their first hash jobs
      hash the same bytes, or the two returned byte strings collide. */
  lemma {:induction false} RootExactly(h: Hash, ls: seq<JsString>, ms: seq<JsString>) returns (a: Data, b: Data)
    requires |ls| == |ms| > 1
    ensures SameJobs(ls, ms) ==> Root(h, ls) == Root(h, ms)
    ensures Root(h, ls) == Root(h, ms) ==> SameJobs(ls, ms) || Collision(h, a, b)
    decreases |ls|, 0
  {
    hide Root, SameJobs;
    RootUp(h, ls);
    RootUp(h, ms);
    a, b := UpExactly(h, ls, ms);
    if Root(h, ls) == Root(h, ms) && Up(h, ls) != Up(h, ms) {
      DigestsAligned(Up(h, ls), Up(h, ms));
      a, b := RootBinding(h, Up(h, ls), Up(h, ms));
    }
  }

  /** The same from the hashes as they are written: sessions of one length with one root name the same entries, and
      are the same list when they are digests written bare. */
  lemma SessionBinding(h: Hash, ls: seq<JsString>, ms: seq<JsString>) returns (a: Data, b: Data)
    requires |ls| > 0 && Aligned(Bare(ls), Bare(ms)) && Root(h, Bare(ls)) == Root(h, Bare(ms))
    ensures Bare(ls) == Bare(ms) || Collision(h, a, b)
    ensures Digests(ls) && Digests(ms) ==> ls == ms || Collision(h, a, b)
  {
    hide Root, Bare, Aligned;
    a, b := RootBinding(h, Bare(ls), Bare(ms));
    if Digests(ls) && Digests(ms) {
      BareDigests(ls);
      BareDigests(ms);
    }
  }

  /** Entries of other lengths can move characters from one to the next: ["ab", "c"] and ["a", "bc"] have one root. */
  lemma MovedCharacter(h: Hash)
    ensures Root(h, Bare([[97, 98], [99]])) == Root(h, Bare([[97], [98, 99]]))
  {
    hide Root, TextEncode;
    var ls: seq<JsString>, ms: seq<JsString> := [[97, 98], [99]], [[97], [98, 99]];
    assert Lit("sha256:")[0] == 115;
    assert Bare(ls)[0] == ls[0] && Bare(ls)[1] == ls[1] && Bare(ms)[0] == ms[0] && Bare(ms)[1] == ms[1];
    assert Bare(ls) == ls && Bare(ms) == ms;
    assert ls[0] + ls[1] == ms[0] + ms[1];
    assert SameJobs(ls, ms);
    var a, b := RootExactly(h, ls, ms);
  }

  // ---------------------------------------------------------------------------------------------
  // The root and the number of entries

  function Constant(x: JsString, n: nat): (level: seq<JsString>)
    ensures |level| == n
  {
    seq(n, i => x)
  }

  /** x paired with itself k times over. */
  function Climb(h: Hash, x: JsString, k: nat): JsString
    decreases k
  {
    if k == 0 then x else Climb(h, Pair(h, x, x), k - 1)
  }

  lemma {:induction false} ClimbDigest(h: Hash, x: JsString, k: nat)
    requires Digest(x)
    ensures Digest(Climb(h, x, k))
    decreases k
  {
    hide Digest, Pair;
    if k > 0 { ClimbDigest(h, Pair(h, x, x), k - 1); }
  }

  lemma ClimbStep(h: Hash, x: JsString, k: nat)
    ensures Climb(h, x, k) == if k == 0 then x else Climb(h, Pair(h, x, x), k - 1)
  {
  }

  lemma {:induction false} ClimbOn(h: Hash, x: JsString, j: nat, k: nat)
    ensures Climb(h, x, j + k) == Climb(h, Climb(h, x, j), k)
    decreases j
  {
    hide Pair, Climb;
    ClimbStep(h, x, j);
    ClimbStep(h, x, j + k);
    if j > 0 { ClimbOn(h, Pair(h, x, x), j - 1, k); }
  }

  /** A session of equal entries has a root that depends on its height alone. */
  lemma {:induction false} RootOfConstant(h: Hash, x: JsString, n: nat)
    requires n > 0
    ensures Root(h, Constant(x, n)) == Climb(h, x, Height(n))
    decreases n
  {
    hide Root, Pair, Up, Height;
    if n == 1 {
      RootOfOne(h, Constant(x, n));
      HeightOfOne();
    } else {
      HeightStep(n);
      RootUp(h, Constant(x, n));
      RootOfConstant(h, Pair(h, x, x), (n + 1) / 2);
      forall i | 0 <= i < (n + 1) / 2 ensures Up(h, Constant(x, n))[i] == Pair(h, x, x) { UpAt(h, Constant(x, n), i); }
      assert Up(h, Constant(x, n)) == Constant(Pair(h, x, x), (n + 1) / 2);
    }
  }

  lemma HeightOfOne()
    ensures Height(1) == 0
  {
  }

  /** The length has to be stated: for any two lengths there are sessions of digests of those lengths with one
      root. */
  lemma AnyLength(h: Hash, n: nat, m: nat) returns (ls: seq<JsString>, ms: seq<JsString>)
    requires n > 0 && m > 0
    ensures |ls| == n && |ms| == m && Digests(ls) && Digests(ms) && Root(h, ls) == Root(h, ms)
    decreases if Height(n) < Height(m) then 1 else 0
  {
    hide Root, Pair, Climb, Height;
    var x := Hex(h.Of([]));
    if Height(n) >= Height(m) {
      var k := Height(n) - Height(m);
      ls, ms := Constant(x, n), Constant(Climb(h, x, k), m);
      ClimbOn(h, x, k, Height(m));
      ClimbDigest(h, x, k);
      RootOfConstant(h, x, n);
      RootOfConstant(h, Climb(h, x, k), m);
    } else {
      ms, ls := AnyLength(h, m, n);
    }
  }

  /** For one entry more the sessions need not be chosen: on an odd level the last entry counts twice, so an odd
      session and the same session with its last entry repeated have one root. */
  lemma RepeatedLast(h: Hash, ls: seq<JsString>)
    requires |ls| % 2 == 1 && |ls| >= 3
    ensures Root(h, ls) == Root(h, ls + [ls[|ls| - 1]])
  {
    hide Root, Up, Pair;
    var ms := ls + [ls[|ls| - 1]];
    RootUp(h, ls);
    RootUp(h, ms);
    forall i | 0 <= i < (|ls| + 1) / 2 ensures Up(h, ls)[i] == Up(h, ms)[i] {
      UpAt(h, ls, i);
      UpAt(h, ms, i);
    }
    assert Up(h, ls) == Up(h, ms);
  }
}
