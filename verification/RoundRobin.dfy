/** Consecutive round-robin selections on an unchanged list of live nodes. */
module RoundRobin {
  import opened Common
  import opened LoadBalancer

  lemma MulAtLeast(n: nat, d: int)
    requires d >= 1
    ensures n * d >= n
  {
  }

  /** Quotient and remainder are unique. */
  lemma DivisionUnique(n: nat, q: int, r: nat, q': int, r': nat)
    requires r < n && r' < n && n * q + r == n * q' + r'
    ensures q == q' && r == r'
  {
    if q > q' {
      MulAtLeast(n, q - q');
    } else if q' > q {
      MulAtLeast(n, q' - q);
    }
  }

  lemma RemainderIs(n: nat, q: nat, r: nat)
    requires r < n
    ensures (n * q + r) % n == r && (n * q + r) / n == q
  {
    var x := n * q + r;
    DivisionUnique(n, q, r, x / n, x % n);
  }

  lemma VisitExists(n: nat, first: nat, i: nat) returns (k: nat)
    requires i < n
    ensures first <= k < first + n && k % n == i
  {
    var q, r := first / n, first % n;
    assert first == n * q + r;
    if r <= i {
      k := n * q + i;
      RemainderIs(n, q, i);
    } else {
      k := n * (q + 1) + i;
      RemainderIs(n, q + 1, i);
      assert n * (q + 1) == n * q + n;
    }
  }

  lemma VisitUnique(n: nat, j: nat, k: nat)
    requires j <= k < j + n && j % n == k % n
    ensures j == k
  {
    var a, b := j / n, k / n;
    assert j == n * a + j % n && k == n * b + k % n;
    assert n * b - n * a == n * (b - a) && n * a - n * b == n * (a - b);
    if b > a {
      MulAtLeast(n, b - a);
    } else if a > b {
      MulAtLeast(n, a - b);
    }
  }

  const COUNTERS: nat := MAX_U64 + 1

  /** The counter after `k` calls. */
  ghost function CounterAfter(first: u64, k: nat): u64 {
    if k == 0 then first else NextCounter(CounterAfter(first, k - 1))
  }

  /** What `k` calls in a row select. */
  ghost function Picks(alive: seq<Node>, first: u64, k: nat): (ps: seq<Selection>)
    requires alive != []
    ensures |ps| == k && forall j :: 0 <= j < k ==> ps[j] == RoundRobinPick(alive, CounterAfter(first, j))
  {
    if k == 0 then [] else Picks(alive, first, k - 1) + [RoundRobinPick(alive, CounterAfter(first, k - 1))]
  }

  ghost predicate SelectedAt(picks: seq<Selection>, k: nat, p: Selection) {
    k < |picks| && picks[k] == p
  }

  ghost predicate SelectedOnce(picks: seq<Selection>, p: Selection) {
    exists k :: SelectedAt(picks, k, p) && forall j :: SelectedAt(picks, j, p) ==> j == k
  }

  /** Each live node, known by its position, is selected once. */
  ghost predicate EachOnce(alive: seq<Node>, picks: seq<Selection>) {
    forall i :: 0 <= i < |alive| ==> SelectedOnce(picks, Selected(i, alive[i].endpoint))
  }

  lemma Remainder(n: nat, x: nat)
    requires 0 < n
    ensures x == n * (x / n) + x % n
  {
  }

  lemma SmallRemainder(n: nat, r: nat)
    requires r < n
    ensures r % n == r
  {
  }

  lemma NextRemainder(m: nat, x: nat)
    requires 0 < m
    ensures (x % m + 1) % m == (x + 1) % m
  {
    var a, r := x / m, x % m;
    Remainder(m, x);
    if r + 1 < m {
      RemainderIs(m, a, r + 1);
      SmallRemainder(m, r + 1);
    } else {
      RemainderIs(m, a + 1, 0);
      RemainderIs(m, 1, 0);
      assert m * (a + 1) == m * a + m;
    }
  }

  lemma {:induction false} CounterIs(first: u64, k: nat)
    ensures CounterAfter(first, k) == (first + k) % COUNTERS
  {
    if k == 0 {
      SmallRemainder(COUNTERS, first);
    } else {
      CounterIs(first, k - 1);
      NextRemainder(COUNTERS, first + k - 1);
    }
  }

  /** Without a wrap, or with one that keeps the residue, the indices follow `first + k`. */
  lemma ResidueKept(n: nat, m: nat, x: nat)
    requires 0 < n && 0 < m && (x < m || m % n == 0)
    ensures x % m % n == x % n
  {
    if x < m {
      SmallRemainder(m, x);
    } else {
      Remainder(m, x);
      Remainder(n, m);
      Remainder(n, x % m);
      Combine(n, m / n, x / m, x % m / n, x % m % n, m, x % m, x);
    }
  }

  lemma Combine(n: nat, b: nat, a: nat, c: nat, r: nat, m: nat, y: nat, x: nat)
    requires r < n && m == n * b && y == n * c + r && x == m * a + y
    ensures x % n == r
  {
    Regroup(n, b, a, c, r);
    RemainderIs(n, b * a + c, r);
  }

  lemma Regroup(n: nat, b: nat, a: nat, c: nat, r: nat)
    ensures n * b * a + (n * c + r) == n * (b * a + c) + r
  {
    assert n * b * a == n * (b * a);
  }

  /** A wrap that breaks the residue makes two of `n` calls meet on one index. */
  lemma WrapRepeats(n: nat, m: nat, first: nat, q: nat, r: nat) returns (j: nat, k: nat, i: nat)
    requires first < m < first + n && m == n * q + r && 0 < r < n
    ensures j < k < n && (first + j) % m % n == i && (first + k) % m % n == i
  {
    var wrap := m - first;
    if wrap < r {
      j, k, i := 0, r, r - wrap;
      MeetOn(n, m, q, first, first + r, i);
    } else {
      j, k, i := wrap - r, wrap, 0;
      MeetOn(n, m, q, first + j, m, 0);
    }
    assert first + k == m + i;
  }

  /** Counter `x` before the wrap and `y` after it both lead to index `i`. */
  lemma MeetOn(n: nat, m: nat, q: nat, x: nat, y: nat, i: nat)
    requires i < n && i < m && x < m && x == n * q + i && y == m + i
    ensures x % m % n == i && y % m % n == i
  {
    SmallRemainder(m, x);
    RemainderIs(n, q, i);
    RemainderIs(m, 1, i);
    SmallRemainder(n, i);
  }

  /** In as many calls in a row as there are live nodes, each is selected exactly
      once, exactly when the 64-bit counter does not wrap meanwhile or the number of
      nodes divides 2^64. */
  lemma EachOnceExactlyWhen(alive: seq<Node>, first: u64)
    requires alive != []
    ensures EachOnce(alive, Picks(alive, first, |alive|)) <==>
            first + |alive| <= COUNTERS || COUNTERS % |alive| == 0
  {
    hide CounterAfter, RoundRobinPick;
    var n := |alive|;
    if first + n <= COUNTERS || COUNTERS % n == 0 {
      forall i | 0 <= i < n ensures SelectedOnce(Picks(alive, first, n), Selected(i, alive[i].endpoint)) {
        NodeOnce(alive, first, i);
      }
    } else {
      NodeTwice(alive, first);
    }
  }

  lemma NodeOnce(alive: seq<Node>, first: u64, i: nat)
    requires i < |alive| && (first + |alive| <= COUNTERS || COUNTERS % |alive| == 0)
    ensures SelectedOnce(Picks(alive, first, |alive|), Selected(i, alive[i].endpoint))
  {
    hide CounterAfter;
    var n, p := |alive|, Selected(i, alive[i].endpoint);
    var picks := Picks(alive, first, n);
    var at := VisitExists(n, first, i);
    var k := at - first;
    CounterIs(first, k);
    ResidueKept(n, COUNTERS, first + k);
    assert SelectedAt(picks, k, p);
    forall j: nat | SelectedAt(picks, j, p) ensures j == k {
      CounterIs(first, j);
      ResidueKept(n, COUNTERS, first + j);
      if j <= k {
        VisitUnique(n, first + j, first + k);
      } else {
        VisitUnique(n, first + k, first + j);
      }
    }
  }

  lemma NodeTwice(alive: seq<Node>, first: u64)
    requires alive != [] && first + |alive| > COUNTERS && COUNTERS % |alive| != 0
    ensures !EachOnce(alive, Picks(alive, first, |alive|))
  {
    hide CounterAfter;
    var n := |alive|;
    var picks := Picks(alive, first, n);
    Remainder(n, COUNTERS);
    var j, k, i := WrapRepeats(n, COUNTERS, first, COUNTERS / n, COUNTERS % n);
    CounterIs(first, j);
    CounterIs(first, k);
    assert SelectedAt(picks, j, picks[j]) && SelectedAt(picks, k, picks[j]);
    assert picks[j] == Selected(i, alive[i].endpoint);
    assert !SelectedOnce(picks, Selected(i, alive[i].endpoint));
  }

  /** Three live nodes and the counter at its last value: the first node is selected
      twice and the third not at all. */
  lemma WrapSkipsANode(alive: seq<Node>)
    requires |alive| == 3
    ensures var picks := Picks(alive, MAX_U64, 3);
            && picks[0] == picks[1] == Selected(0, alive[0].endpoint) && picks[2] == Selected(1, alive[1].endpoint)
            && !EachOnce(alive, picks)
  {
    assert CounterAfter(MAX_U64, 1) == 0;
    assert CounterAfter(MAX_U64, 2) == 1;
    EachOnceExactlyWhen(alive, MAX_U64);
  }
}
