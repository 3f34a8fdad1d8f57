/**
 The Merkle commitment over receipt leaves
 (sns-daemon/src/zk_payments.rs:73-104). SHA-256 is any function from byte
 strings to 32-byte digests; nothing assumes it injective, so binding is stated
 as "equal, or here are two inputs with one digest".
 */
module Merkle {
  import opened Bytes
  import opened Common

  type Digest = d: Bytes | |d| == 32 witness ZeroBytes(32)
  type HashFn = Bytes -> Digest

  const ZERO_DIGEST: Digest := ZeroBytes(32)

  predicate Collision(h: HashFn, x: Bytes, y: Bytes) {
    x != y && h(x) == h(y)
  }

  /** `update(left); update(right)`: one digest after the other. */
  function Join(left: Bytes, right: Bytes): Bytes {
    left + right
  }

  /** The two children hashed at position `i` of the next level, the last one doubled when alone. */
  function PairAt(level: seq<Digest>, i: nat): Bytes
    requires 2 * i < |level|
  {
    Join(level[2 * i], if 2 * i + 1 < |level| then level[2 * i + 1] else level[2 * i])
  }

  function Pairs(level: seq<Digest>): (ps: seq<Bytes>)
    ensures |ps| == (|level| + 1) / 2
    ensures forall i :: 0 <= i < |ps| ==> ps[i] == PairAt(level, i)
  {
    seq((|level| + 1) / 2, i requires 0 <= i < (|level| + 1) / 2 => PairAt(level, i))
  }

  function HashAll(h: HashFn, inputs: seq<Bytes>): (ds: seq<Digest>)
    ensures |ds| == |inputs| && forall i :: 0 <= i < |ds| ==> ds[i] == h(inputs[i])
  {
    seq(|inputs|, i requires 0 <= i < |inputs| => h(inputs[i]))
  }

  function NextLevel(h: HashFn, level: seq<Digest>): seq<Digest> {
    HashAll(h, Pairs(level))
  }

  function Root(h: HashFn, leaves: seq<Digest>): Digest
    decreases |leaves|
  {
    if leaves == [] then ZERO_DIGEST
    else if |leaves| == 1 then leaves[0]
    else Root(h, NextLevel(h, leaves))
  }

  function Pow2(k: nat): nat {
    if k == 0 then 1 else 2 * Pow2(k - 1)
  }

  /** `k` is the base-2 logarithm of `n`, rounded up. */
  predicate IsCeilLog2(n: nat, k: nat) {
    n <= Pow2(k) && (k > 0 ==> Pow2(k - 1) < n)
  }

  /** The inner loop: one level up, pairwise. */
  method HashLevel(h: HashFn, current: seq<Digest>) returns (next: seq<Digest>)
    ensures next == NextLevel(h, current)
  {
    next := [];
    var i := 0;
    while i < |current|
      invariant i == 2 * |next| && i <= |current| + 1
      invariant forall j :: 0 <= j < |next| ==> next[j] == NextLevel(h, current)[j]
    {
      var left := current[i];
      var right := if i + 1 < |current| then current[i + 1] else current[i];
      next := next + [h(Join(left, right))];
      i := i + 2;
    }
  }

  /** Level by level; a non-empty list takes exactly ceil(log2 n) of them. */
  method ComputeMerkleRoot(h: HashFn, leaves: seq<Digest>) returns (root: Digest, levels: nat)
    ensures root == Root(h, leaves)
    ensures leaves != [] ==> IsCeilLog2(|leaves|, levels)
  {
    hide NextLevel;
    if leaves == [] {
      return ZERO_DIGEST, 0;
    }
    if |leaves| == 1 {
      return leaves[0], 0;
    }
    var current := leaves;
    levels := 0;
    while |current| > 1
      invariant current != [] && Root(h, current) == Root(h, leaves)
      invariant (|current| - 1) * Pow2(levels) < |leaves| <= |current| * Pow2(levels)
      invariant levels > 0 ==> Pow2(levels - 1) < |leaves|
      decreases |current|
    {
      var next := HashLevel(h, current);
      NextLevelLength(h, current);
      LevelShrinks(|current|, |next|, Pow2(levels));
      current, levels := next, levels + 1;
    }
    return current[0], levels;
  }

  lemma NextLevelLength(h: HashFn, level: seq<Digest>)
    ensures |NextLevel(h, level)| == (|level| + 1) / 2
  {
  }

  lemma LevelShrinks(n: nat, m: nat, p: nat)
    requires n > 1 && m == (n + 1) / 2
    ensures n * p <= m * (2 * p)
    ensures (m - 1) * (2 * p) <= (n - 1) * p
    ensures p <= (n - 1) * p
  {
    assert n <= 2 * m && 2 * (m - 1) <= n - 1;
    assert n * p <= (2 * m) * p;
    assert (2 * (m - 1)) * p <= (n - 1) * p;
    assert 1 * p <= (n - 1) * p;
  }

  // ----- Inclusion ------------------------------------------------------------

  /** The sibling of index `i` on its level: itself at an odd end. */
  function Sibling(level: seq<Digest>, i: nat): Digest
    requires i < |level|
  {
    if i % 2 == 1 then level[i - 1] else if i + 1 < |level| then level[i + 1] else level[i]
  }

  /** The siblings met on the way from leaf `i` to the root. */
  function Path(h: HashFn, leaves: seq<Digest>, i: nat): seq<Digest>
    requires i < |leaves|
    decreases |leaves|
  {
    if |leaves| == 1 then [] else [Sibling(leaves, i)] + Path(h, NextLevel(h, leaves), i / 2)
  }

  /** Hashes a leaf with its siblings, left or right as the index says. */
  function Fold(h: HashFn, leaf: Digest, i: nat, path: seq<Digest>): Digest
    decreases |path|
  {
    if path == [] then leaf
    else Fold(h, if i % 2 == 0 then h(Join(leaf, path[0])) else h(Join(path[0], leaf)), i / 2, path[1..])
  }

  /** One level up: the parent of leaf `i` is the hash of the leaf and its sibling. */
  lemma ParentOf(h: HashFn, level: seq<Digest>, i: nat)
    requires i < |level|
    ensures i / 2 < |NextLevel(h, level)|
    ensures var s := Sibling(level, i);
            NextLevel(h, level)[i / 2] == if i % 2 == 0 then h(Join(level[i], s)) else h(Join(s, level[i]))
  {
  }

  /** The path has one sibling for each level. */
  lemma {:induction false} PathLength(h: HashFn, leaves: seq<Digest>, i: nat)
    requires i < |leaves|
    ensures IsCeilLog2(|leaves|, |Path(h, leaves, i)|)
    decreases |leaves|
  {
    hide Sibling;
    if |leaves| > 1 {
      ParentOf(h, leaves, i);
      NextLevelLength(h, leaves);
      PathLength(h, NextLevel(h, leaves), i / 2);
    }
  }

  /** Every leaf folds up to the root along its path, one hash for each of the
      ceil(log2 n) levels. */
  lemma {:induction false} EveryLeafFoldsToRoot(h: HashFn, leaves: seq<Digest>, i: nat)
    requires i < |leaves|
    ensures Fold(h, leaves[i], i, Path(h, leaves, i)) == Root(h, leaves)
    ensures IsCeilLog2(|leaves|, |Path(h, leaves, i)|)
    decreases |leaves|
  {
    hide NextLevel, Sibling, IsCeilLog2;
    PathLength(h, leaves, i);
    if |leaves| > 1 {
      ParentOf(h, leaves, i);
      NextLevelLength(h, leaves);
      EveryLeafFoldsToRoot(h, NextLevel(h, leaves), i / 2);
      assert Path(h, leaves, i)[1..] == Path(h, NextLevel(h, leaves), i / 2);
    }
  }

  // ----- Binding --------------------------------------------------------------

  /** The first position where two lists of equal length differ. */
  function FirstDifference<T(==)>(a: seq<T>, b: seq<T>): (i: nat)
    requires |a| == |b| && a != b
    ensures i < |a| && a[i] != b[i]
  {
    if a[0] != b[0] then 0 else 1 + FirstDifference(a[1..], b[1..])
  }

  /** Looks for two different inputs with one digest where two trees disagree. */
  function FindCollision(h: HashFn, a: seq<Digest>, b: seq<Digest>): Option<(Bytes, Bytes)>
    decreases |a|
  {
    if |a| != |b| || |a| <= 1 then None
    else
      var pa, pb := Pairs(a), Pairs(b);
      if NextLevel(h, a) != NextLevel(h, b) then FindCollision(h, NextLevel(h, a), NextLevel(h, b))
      else if pa == pb then None
      else
        var i := FirstDifference(pa, pb);
        Some((pa[i], pb[i]))
  }

  lemma PairsInjective(a: seq<Digest>, b: seq<Digest>)
    requires |a| == |b| && Pairs(a) == Pairs(b)
    ensures a == b
  {
    forall i | 0 <= i < |a| ensures a[i] == b[i] {
      var p, q := Pairs(a)[i / 2], Pairs(b)[i / 2];
      assert a[2 * (i / 2)] == p[..32] && b[2 * (i / 2)] == q[..32];
      if i % 2 == 1 {
        assert a[i] == p[32..] && b[i] == q[32..];
      }
    }
  }

  /** The search succeeded, with two different inputs that share a digest. */
  ghost predicate Found(h: HashFn, c: Option<(Bytes, Bytes)>) {
    c.Some? && Collision(h, c.value.0, c.value.1)
  }

  /** Two leaf lists of the same length and root are equal, or the search finds a collision. */
  lemma {:induction false} RootBinds(h: HashFn, a: seq<Digest>, b: seq<Digest>)
    requires |a| == |b| && Root(h, a) == Root(h, b)
    ensures a == b || Found(h, FindCollision(h, a, b))
    decreases |a|
  {
    if |a| <= 1 {
      assert a == b;
    } else if NextLevel(h, a) != NextLevel(h, b) {
      RootBinds(h, NextLevel(h, a), NextLevel(h, b));
    } else if Pairs(a) == Pairs(b) {
      PairsInjective(a, b);
    } else {
      var i := FirstDifference(Pairs(a), Pairs(b));
      assert NextLevel(h, a)[i] == h(Pairs(a)[i]) && NextLevel(h, b)[i] == h(Pairs(b)[i]);
    }
  }

  lemma SamePairs(longer: seq<Digest>, leaves: seq<Digest>)
    requires |leaves| % 2 == 1 && longer == leaves + [leaves[|leaves| - 1]]
    ensures Pairs(longer) == Pairs(leaves)
  {
    forall i | 0 <= i < (|leaves| + 1) / 2
      ensures PairAt(longer, i) == PairAt(leaves, i)
    {
    }
  }

  /** The length is needed: an odd list and the same list with its last leaf
      repeated have one root, whatever the hash function. */
  lemma RepeatedLastLeafKeepsRoot(h: HashFn, leaves: seq<Digest>)
    requires |leaves| >= 3 && |leaves| % 2 == 1
    ensures Root(h, leaves + [leaves[|leaves| - 1]]) == Root(h, leaves)
  {
    var longer := leaves + [leaves[|leaves| - 1]];
    SamePairs(longer, leaves);
  }

  // ----- What the root is ------------------------------------------------------

  /** Hashed with itself `times` times, as a lone last node is on its way up. */
  function Doubled(h: HashFn, d: Digest, times: nat): Digest
    decreases times
  {
    if times == 0 then d else Doubled(h, h(d + d), times - 1)
  }

  lemma RootOfFew(h: HashFn, x: Digest, y: Digest)
    ensures Root(h, []) == ZeroBytes(32) && Root(h, [x]) == x && Root(h, [x, y]) == h(x + y)
  {
    var next := NextLevel(h, [x, y]);
    assert next == [h(x + y)];
  }

  lemma PairsSplit(a: seq<Digest>, b: seq<Digest>, i: nat)
    requires |a| % 2 == 0 && 2 * i < |a| + |b|
    ensures PairAt(a + b, i) == if 2 * i < |a| then PairAt(a, i) else PairAt(b, i - |a| / 2)
  {
  }

  lemma LevelSplits(h: HashFn, a: seq<Digest>, b: seq<Digest>)
    requires |a| % 2 == 0
    ensures NextLevel(h, a + b) == NextLevel(h, a) + NextLevel(h, b)
  {
    hide PairAt;
    forall i | 0 <= i < (|a| + |b| + 1) / 2
      ensures Pairs(a + b)[i] == (Pairs(a) + Pairs(b))[i]
    {
      PairsSplit(a, b, i);
    }
    assert Pairs(a + b) == Pairs(a) + Pairs(b);
  }

  /** The shape of the tree: 2^k leaves and up to 2^k more are hashed side by side, the
      left root first, the right one doubled up to the same height. */
  lemma {:induction false} RootSplits(h: HashFn, a: seq<Digest>, b: seq<Digest>, k: nat, j: nat)
    requires |a| == Pow2(k) && j <= k && b != [] && IsCeilLog2(|b|, j)
    ensures Root(h, a + b) == h(Root(h, a) + Doubled(h, Root(h, b), k - j))
    decreases k
  {
    if k == 0 {
      assert a + b == [a[0], b[0]];
      RootOfFew(h, a[0], b[0]);
      RootOfFew(h, b[0], b[0]);
    } else {
      var a', b' := NextLevel(h, a), NextLevel(h, b);
      Pow2Positive(k);
      LevelSplits(h, a, b);
      assert Root(h, a + b) == Root(h, a' + b');
      NextLevelLength(h, a);
      NextLevelLength(h, b);
      if |b| == 1 {
        assert j == 0 by {
          Pow2Positive(j);
        }
        var top := h(Join(b[0], b[0]));
        assert b' == [top] && IsCeilLog2(1, 0);
        RootSplits(h, a', b', k - 1, 0);
        assert Doubled(h, b[0], k) == Doubled(h, top, k - 1);
      } else {
        RootSplits(h, a', b', k - 1, j - 1);
      }
    }
  }

  lemma {:induction false} Pow2Positive(j: nat)
    ensures Pow2(j) >= 1 && (j > 0 ==> Pow2(j - 1) >= 1)
  {
    if j > 0 {
      Pow2Positive(j - 1);
    }
  }
}
