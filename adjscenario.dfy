/**
 * The adjacency-list test driver, step by step. With M = 5 and N = 2M it joins
 * every node below N to the value N in a compact list, makes that list
 * editable, lets node i also hold i, ..., N - 2, removes the odd nodes from the
 * top down, removes every odd adjacent, halves every adjacent in place, and
 * converts the result back to a compact list, whose node i must then hold only
 * values between i and M.
 *
 * Each editing pass is a method over any list, specified by a function of the
 * lists it is given; the lemmas below work out what those functions give on
 * the driver's lists.
 */
module AdjacencyScenario {
  import opened Outcomes
  import opened AdjacencySpec
  import opened AdjacencyLists

  /** The integers lo, lo + 1, ..., hi - 1. */
  function Span(lo: int, hi: int): (r: seq<int>)
    ensures |r| == if lo <= hi then hi - lo else 0
    ensures forall k :: 0 <= k < |r| ==> r[k] == lo + k
  {
    if lo <= hi then seq(hi - lo, k requires 0 <= k < hi - lo => lo + k) else []
  }

  /** The even integers 2a, 2a + 2, ..., 2b - 2. */
  function Doubles(a: int, b: int): (r: seq<int>)
    requires a <= b
    ensures |r| == b - a
    ensures forall k :: 0 <= k < |r| ==> r[k] == 2 * (a + k)
  {
    seq(b - a, k requires 0 <= k < b - a => 2 * (a + k))
  }

  /** The even values of s, in order. */
  function KeepEven(s: seq<int>): (r: seq<int>)
    ensures |r| <= |s|
    ensures forall x :: x in r <==> x in s && x % 2 == 0
  {
    if |s| == 0 then []
    else
      assert s == [s[0]] + s[1..];
      (if s[0] % 2 == 0 then [s[0]] else []) + KeepEven(s[1..])
  }

  /** Integer division by 2 as C++ does it, rounding toward zero. */
  function Half(x: int): (r: int)
    ensures x >= 0 ==> 0 <= r && 2 * r <= x < 2 * r + 2
    ensures x < 0 ==> r <= 0 && 2 * r - 2 < x <= 2 * r
  {
    if x >= 0 then x / 2 else -((-x) / 2)
  }

  /** Every value of s halved. */
  function Halved(s: seq<int>): (r: seq<int>)
    ensures |r| == |s|
    ensures forall k :: 0 <= k < |s| ==> r[k] == Half(s[k])
  {
    seq(|s|, k requires 0 <= k < |s| => Half(s[k]))
  }

  /** Halving s in place, position by position through UpdateAdjacent, never meets a value
      already present: no two positions have the same half, and no later value equals an
      earlier one's half. */
  predicate HalvingSafe(s: seq<int>) {
    forall p, q :: 0 <= p < q < |s| ==> HalvesApart(s, p, q)
  }

  /** Positions p and q of s halve to different values, and the later one is not the earlier
      one's half. */
  predicate HalvesApart(s: seq<int>, p: nat, q: nat)
    requires p < q < |s|
  {
    Half(s[p]) != Half(s[q]) && s[q] != Half(s[p])
  }

  // ---------------------------------------------------------------------------
  // The editing passes
  // ---------------------------------------------------------------------------

  /** AddAdjacent(i, j) for j = i, ..., n - 2 on a node holding just n: every call succeeds,
      and the node ends with n followed by i, ..., n - 2. */
  method FillNode(l: AdjacencyList, i: nat, n: nat)
    requires i < |l.adj| && l.adj[i] == [n]
    modifies l
    ensures l.adj == old(l.adj)[i := [n] + Span(i, n - 1)]
    ensures l.nConnections == old(l.nConnections)
  {
    assert [n] + Span(i, i) == [n];
    var j := i;
    while j < n - 1
      invariant i <= j && (j <= n - 1 || j == i)
      invariant l.adj == old(l.adj)[i := [n] + Span(i, j)]
      invariant l.nConnections == old(l.nConnections)
    {
      assert j !in l.adj[i];
      var r := l.AddAdjacent(i, j);
      assert [n] + Span(i, j) + [j] == [n] + Span(i, j + 1);
      j := j + 1;
    }
    assert Span(i, j) == Span(i, n - 1);
  }

  /** FillNode for every node of n nodes each holding just n. */
  method FillAbove(l: AdjacencyList, n: nat)
    requires l.adj == seq(n, _ => [n])
    modifies l
    ensures |l.adj| == n
    ensures forall t :: 0 <= t < n ==> l.adj[t] == [n] + Span(t, n - 1)
    ensures l.nConnections == old(l.nConnections)
  {
    for i := 0 to n
      invariant |l.adj| == n && l.nConnections == old(l.nConnections)
      invariant forall t :: 0 <= t < n ==> l.adj[t] == if t < i then [n] + Span(t, n - 1) else [n]
    {
      FillNode(l, i, n);
    }
  }

  /** Removing node i = 2k - 2m - 1 from the k nodes left moves the pattern on to i - 2: the
      nodes up to i are the original ones, and above them every other original node. */
  lemma RemoveOddStep(A: seq<seq<int>>, cur: seq<seq<int>>, m: nat, k: nat, i: int)
    requires m < k <= 2 * m && i == 2 * k - 2 * m - 1 && |A| == 2 * m && |cur| == k
    requires forall t :: 0 <= t <= i ==> cur[t] == A[t]
    requires forall t :: i < t < k ==> cur[t] == A[2 * t - i - 1]
    ensures 0 <= i < k
    ensures forall t :: 0 <= t <= i - 2 ==> RemoveAt(cur, i)[t] == A[t]
    ensures forall t :: i - 2 < t < k - 1 ==> RemoveAt(cur, i)[t] == A[2 * t - i + 1]
  {
    forall t | 0 <= t < k - 1
      ensures RemoveAt(cur, i)[t] == A[if t <= i - 2 then t else 2 * t - i + 1]
    {
      if t < i {
        assert RemoveAt(cur, i)[t] == cur[t];
      } else {
        assert RemoveAt(cur, i)[t] == cur[t + 1];
      }
    }
  }

  /** One call RemoveNode(i) of the pass, with i = 2k - 2m - 1 and k nodes left: it succeeds
      and moves the pattern on to i - 2. */
  method RemoveOddAt(l: AdjacencyList, ghost A: seq<seq<int>>, m: nat, ghost k: nat, i: int)
    requires m < k <= 2 * m && i == 2 * k - 2 * m - 1 && |A| == 2 * m && |l.adj| == k
    requires forall t :: 0 <= t <= i ==> l.adj[t] == A[t]
    requires forall t :: i < t < k ==> l.adj[t] == A[2 * t - i - 1]
    modifies l
    ensures |l.adj| == k - 1 && l.nConnections == old(l.nConnections)
    ensures forall t :: 0 <= t <= i - 2 ==> l.adj[t] == A[t]
    ensures forall t :: i - 2 < t < k - 1 ==> l.adj[t] == A[2 * t - i + 1]
  {
    RemoveOddStep(A, l.adj, m, k, i);
    var r := l.RemoveNode(i);
  }

  /** RemoveNode(i) for i = 2m - 1, 2m - 3, ..., 1 on 2m nodes: every call succeeds, and the
      even-numbered nodes remain, in order. */
  method RemoveOddNodes(l: AdjacencyList, m: nat)
    requires |l.adj| == 2 * m
    modifies l
    ensures |l.adj| == m
    ensures forall t :: 0 <= t < m ==> l.adj[t] == old(l.adj)[2 * t]
    ensures l.nConnections == old(l.nConnections)
  {
    ghost var A := l.adj;
    var i := 2 * m - 1;
    ghost var k := 2 * m;
    while i >= 0
      invariant m <= k <= 2 * m && i == 2 * k - 2 * m - 1
      invariant |l.adj| == k && l.nConnections == old(l.nConnections)
      invariant forall t :: 0 <= t <= i ==> l.adj[t] == A[t]
      invariant forall t :: i < t < k ==> l.adj[t] == A[2 * t - i - 1]
      decreases i + 1
    {
      RemoveOddAt(l, A, m, k, i);
      i, k := i - 2, k - 1;
    }
  }

  /** One step of the backward scan over s: the even values from position k on are s[k],
      if even, followed by the even values from k + 1 on. */
  lemma KeepEvenFrom(s: seq<int>, k: nat)
    requires k < |s|
    ensures KeepEven(s[k..]) == (if s[k] % 2 == 0 then [s[k]] else []) + KeepEven(s[k + 1..])
  {
    assert s[k..][1..] == s[k + 1..];
  }

  /** One step of the backward scan over node s, whose positions above idx already hold only
      their even values: position idx holds s[idx], and removing it when odd, or keeping it
      when even, leaves the positions from idx on holding only their even values. */
  lemma ScanStep(s: seq<int>, idx: nat)
    requires idx < |s|
    ensures var cur := s[..idx + 1] + KeepEven(s[idx + 1..]);
            && idx < |cur| && cur[idx] == s[idx]
            && (s[idx] % 2 != 0 ==> RemoveAt(cur, idx) == s[..idx] + KeepEven(s[idx..]))
            && (s[idx] % 2 == 0 ==> cur == s[..idx] + KeepEven(s[idx..]))
  {
    KeepEvenFrom(s, idx);
    assert s[..idx + 1] == s[..idx] + [s[idx]];
    var cur := s[..idx + 1] + KeepEven(s[idx + 1..]);
    if s[idx] % 2 != 0 {
      assert RemoveAt(cur, idx) == cur[..idx] + cur[idx + 1..];
      assert cur[..idx] == s[..idx];
      assert cur[idx + 1..] == KeepEven(s[idx + 1..]);
    }
  }

  /** One step of the backward scan: with the values after idx already filtered, the value
      at idx is removed when it is odd and kept when it is even. */
  method KeepEvenAt(l: AdjacencyList, i: nat, ghost s: seq<int>, idx: nat)
    requires i < |l.adj| && idx < |s|
    requires l.adj[i] == s[..idx + 1] + KeepEven(s[idx + 1..])
    modifies l
    ensures |l.adj| == |old(l.adj)| && l.adj[i] == s[..idx] + KeepEven(s[idx..])
    ensures forall t :: 0 <= t < |l.adj| && t != i ==> l.adj[t] == old(l.adj)[t]
    ensures l.nConnections == old(l.nConnections)
  {
    ScanStep(s, idx);
    if l.GetAdjacent(i, idx).value % 2 != 0 {
      var r := l.RemoveAdjacent(i, idx);
    }
  }

  /** A backward scan over node i removing each odd adjacent: the node ends with its even
      values, in order. */
  method KeepEvenNode(l: AdjacencyList, i: nat)
    requires i < |l.adj|
    modifies l
    ensures |l.adj| == |old(l.adj)| && l.adj[i] == KeepEven(old(l.adj)[i])
    ensures forall t :: 0 <= t < |l.adj| && t != i ==> l.adj[t] == old(l.adj)[t]
    ensures l.nConnections == old(l.nConnections)
  {
    ghost var A := l.adj;
    ghost var s := l.adj[i];
    var idx := l.NumAdjacents(i).value - 1;
    assert s[..idx + 1] + KeepEven(s[idx + 1..]) == s by {
      assert s[..|s|] == s && s[|s|..] == [];
    }
    while idx >= 0
      invariant -1 <= idx < |s|
      invariant |l.adj| == |A| && l.adj[i] == s[..idx + 1] + KeepEven(s[idx + 1..])
      invariant forall t :: 0 <= t < |A| && t != i ==> l.adj[t] == A[t]
      invariant l.nConnections == old(l.nConnections)
      decreases idx + 1
    {
      KeepEvenAt(l, i, s, idx);
      idx := idx - 1;
    }
    assert s[..0] == [] && s[0..] == s;
  }

  /** KeepEvenNode for every node. */
  method RemoveOddAdjacents(l: AdjacencyList)
    modifies l
    ensures |l.adj| == |old(l.adj)|
    ensures forall t :: 0 <= t < |l.adj| ==> l.adj[t] == KeepEven(old(l.adj)[t])
    ensures l.nConnections == old(l.nConnections)
  {
    ghost var A := l.adj;
    var n := l.NumNodes();
    for i := 0 to n
      invariant |l.adj| == n && l.nConnections == old(l.nConnections)
      invariant forall t :: 0 <= t < n ==> l.adj[t] == if t < i then KeepEven(A[t]) else A[t]
    {
      KeepEvenNode(l, i);
    }
  }

  /** One step of the forward halving over s: the value to write is either the one already at
      position j or absent from the list, and writing it extends the halved prefix. */
  lemma HalvingStep(s: seq<int>, j: nat)
    requires HalvingSafe(s) && j < |s|
    ensures var cur := Halved(s[..j]) + s[j..];
            && |cur| == |s| && cur[j] == s[j]
            && (s[j] == Half(s[j]) || Half(s[j]) !in cur)
            && cur[j := Half(s[j])] == Halved(s[..j + 1]) + s[j + 1..]
  {
    var cur := Halved(s[..j]) + s[j..];
    var v := Half(s[j]);
    if cur[j] != v {
      forall p | 0 <= p < |cur| ensures cur[p] != v {
        if p < j {
          assert HalvesApart(s, p, j);
          assert cur[p] == Half(s[p]);
        } else if p > j {
          assert HalvesApart(s, j, p);
          assert cur[p] == s[p];
        }
      }
    }
    var next := Halved(s[..j + 1]) + s[j + 1..];
    forall p | 0 <= p < |s| ensures cur[j := v][p] == next[p] {
      if p < j {
        assert next[p] == Half(s[..j + 1][p]);
      }
    }
  }

  /** Once the scan has passed every position, the whole list is halved. */
  lemma HalvedWhole(s: seq<int>, n: nat)
    requires n == |s|
    ensures Halved(s[..n]) + s[n..] == Halved(s)
  {
    assert s[..n] == s && s[n..] == [];
  }

  /** One call UpdateAdjacent(i, GetAdjacent(i, j) / 2, j) of the halving pass: with the
      first j values of node i halved and no halving colliding, the call succeeds and halves
      the value at j too. */
  method HalveAt(l: AdjacencyList, i: nat, ghost s: seq<int>, j: nat)
    requires i < |l.adj| && HalvingSafe(s) && j < |s|
    requires l.adj[i] == Halved(s[..j]) + s[j..]
    modifies l
    ensures |l.adj| == |old(l.adj)| && l.adj[i] == Halved(s[..j + 1]) + s[j + 1..]
    ensures forall t :: 0 <= t < |l.adj| && t != i ==> l.adj[t] == old(l.adj)[t]
    ensures l.nConnections == old(l.nConnections)
  {
    ghost var cur := l.adj[i];
    HalvingStep(s, j);
    var x := l.GetAdjacent(i, j);
    var h := Half(x.value);
    assert h == Half(s[j]) && cur[j] == s[j];
    var r := l.UpdateAdjacent(i, h, j);
    assert r == Success;
  }

  /** UpdateAdjacent(i, GetAdjacent(i, j) / 2, j) for each position j of node i in turn: when
      no halving collides, every call succeeds and every value of the node ends halved. */
  method HalveNode(l: AdjacencyList, i: nat)
    requires i < |l.adj| && HalvingSafe(l.adj[i])
    modifies l
    ensures |l.adj| == |old(l.adj)| && l.adj[i] == Halved(old(l.adj)[i])
    ensures forall t :: 0 <= t < |l.adj| && t != i ==> l.adj[t] == old(l.adj)[t]
    ensures l.nConnections == old(l.nConnections)
  {
    ghost var A := l.adj;
    ghost var s := l.adj[i];
    var na := l.NumAdjacents(i).value;
    assert Halved(s[..0]) + s[0..] == s by {
      assert s[..0] == [] && s[0..] == s;
    }
    for j := 0 to na
      invariant |l.adj| == |A| && l.adj[i] == Halved(s[..j]) + s[j..]
      invariant forall t :: 0 <= t < |A| && t != i ==> l.adj[t] == A[t]
      invariant l.nConnections == old(l.nConnections)
    {
      HalveAt(l, i, s, j);
    }
    HalvedWhole(s, na);
  }

  /** HalveNode for every node. */
  method HalveAdjacents(l: AdjacencyList)
    requires forall t :: 0 <= t < |l.adj| ==> HalvingSafe(l.adj[t])
    modifies l
    ensures |l.adj| == |old(l.adj)|
    ensures forall t :: 0 <= t < |l.adj| ==> l.adj[t] == Halved(old(l.adj)[t])
    ensures l.nConnections == old(l.nConnections)
  {
    ghost var A := l.adj;
    var n := l.NumNodes();
    for i := 0 to n
      invariant |l.adj| == n && l.nConnections == old(l.nConnections)
      invariant forall t :: 0 <= t < n ==> l.adj[t] == if t < i then Halved(A[t]) else A[t]
    {
      HalveNode(l, i);
    }
  }

  // ---------------------------------------------------------------------------
  // What the passes give on the driver's lists
  // ---------------------------------------------------------------------------

  lemma SpanCons(lo: int, hi: int)
    requires lo < hi
    ensures Span(lo, hi) == [lo] + Span(lo + 1, hi)
  {
  }

  lemma KeepEvenConsEven(x: int, rest: seq<int>)
    requires x % 2 == 0
    ensures KeepEven([x] + rest) == [x] + KeepEven(rest)
  {
    assert ([x] + rest)[1..] == rest;
  }

  lemma KeepEvenConsOdd(x: int, rest: seq<int>)
    requires x % 2 == 1
    ensures KeepEven([x] + rest) == KeepEven(rest)
  {
    assert ([x] + rest)[1..] == rest;
  }

  lemma DoublesCons(a: int, b: int)
    requires a < b
    ensures Doubles(a, b) == [2 * a] + Doubles(a + 1, b)
  {
  }

  /** Two steps of a span from an even start: the even start is kept, the odd one after it
      dropped. */
  lemma KeepEvenPair(a: int, hi: int)
    requires 2 * a < hi
    ensures KeepEven(Span(2 * a, hi)) == [2 * a] + KeepEven(Span(2 * a + 2, hi))
  {
    var lo := 2 * a;
    var odd := Span(lo + 1, hi);
    SpanCons(lo, hi);
    assert lo % 2 == 0;
    KeepEvenConsEven(lo, odd);
    if lo + 1 < hi {
      SpanCons(lo + 1, hi);
      assert (lo + 1) % 2 == 1;
      KeepEvenConsOdd(lo + 1, Span(lo + 2, hi));
    } else {
      assert odd == [] && Span(lo + 2, hi) == [];
    }
  }

  /** The even values of 2a, ..., 2b - 2 are 2a, 2a + 2, ..., 2b - 2. */
  lemma {:induction false} KeepEvenSpan(a: int, b: int)
    requires a <= b
    ensures KeepEven(Span(2 * a, 2 * b - 1)) == Doubles(a, b)
    decreases b - a
  {
    var lo, hi := 2 * a, 2 * b - 1;
    if a == b {
      assert Span(lo, hi) == [];
    } else {
      KeepEvenPair(a, hi);
      KeepEvenSpan(a + 1, b);
      assert 2 * (a + 1) == lo + 2;
      DoublesCons(a, b);
    }
  }

  /** Node k after the odd nodes go: 2m, then 2k, ..., 2m - 2; keeping its even values keeps
      all of it. */
  lemma KeepEvenOfFilled(m: nat, k: nat)
    requires k < m
    ensures KeepEven([2 * m] + Span(2 * k, 2 * m - 1)) == [2 * m] + Doubles(k, m)
  {
    var rest := Span(2 * k, 2 * m - 1);
    assert ([2 * m] + rest)[1..] == rest;
    KeepEvenSpan(k, m);
  }

  /** For odd m, halving 2m, 2k, ..., 2m - 2 never collides, and gives m, k, ..., m - 1. */
  lemma HalvingOfDoubles(m: nat, k: nat)
    requires k < m && m % 2 == 1
    ensures HalvingSafe([2 * m] + Doubles(k, m))
    ensures Halved([2 * m] + Doubles(k, m)) == [m] + Span(k, m)
  {
    var s := [2 * m] + Doubles(k, m);
    forall p, q | 0 <= p < q < |s| ensures HalvesApart(s, p, q) {
      assert s[q] == 2 * (k + q - 1);
      if p == 0 {
        assert Half(s[p]) == m;
      } else {
        assert s[p] == 2 * (k + p - 1);
      }
    }
    forall p | 0 <= p < |s| ensures Halved(s)[p] == ([m] + Span(k, m))[p] {
      if p > 0 {
        assert s[p] == 2 * (k + p - 1);
      }
    }
  }

  // ---------------------------------------------------------------------------
  // The driver
  // ---------------------------------------------------------------------------

  /** The compact layout of the star on 10 nodes: node i holds just 10. */
  lemma StarLists()
    ensures NodeCount(Star(10)) == 10
    ensures seq(NodeCount(Star(10)), i requires 0 <= i < NodeCount(Star(10)) => Bucket(SortConnections(Star(10)), i))
            == seq(10, _ => [10])
  {
    StarLayout(10);
    var L := seq(NodeCount(Star(10)), i requires 0 <= i < NodeCount(Star(10)) => Bucket(SortConnections(Star(10)), i));
    PointwiseEqual(L, seq(10, _ => [10]));
  }

  /** Lines one to three of the driver: the pairs (i, 10) for i < 10 make a compact list, and
      its editable copy has 10 nodes, each holding just 10. */
  method StarScenario() returns (compact: CompactAdjacencyList, editable: AdjacencyList)
    ensures fresh(compact) && fresh(editable) && compact.Valid()
    ensures editable.NumNodes() == 10 && editable.adj == seq(10, _ => [10])
    ensures forall i :: 0 <= i < 10 ==> editable.NumAdjacents(i) == Ok(1) && editable.GetAdjacent(i, 0) == Ok(10)
  {
    StarLists();
    compact := new CompactAdjacencyList.FromConnections(Star(10));
    editable := new AdjacencyList.FromCompact(compact);
  }

  /** The editing passes on the editable copy: node k of the 5 that remain holds 5, then
      k, ..., 4. */
  method EditScenario(editable: AdjacencyList)
    requires editable.adj == seq(10, _ => [10])
    modifies editable
    ensures editable.NumNodes() == 5
    ensures editable.adj == seq(5, k requires 0 <= k < 5 => [5] + Span(k, 5))
  {
    FillAbove(editable, 10);
    RemoveOddNodes(editable, 5);
    assert forall t :: 0 <= t < 5 ==> editable.adj[t] == [10] + Span(2 * t, 9);
    RemoveOddAdjacents(editable);
    forall t | 0 <= t < 5 ensures editable.adj[t] == [10] + Doubles(t, 5) {
      KeepEvenOfFilled(5, t);
    }
    forall t | 0 <= t < 5 ensures HalvingSafe(editable.adj[t]) {
      HalvingOfDoubles(5, t);
    }
    HalveAdjacents(editable);
    forall t | 0 <= t < 5 ensures editable.adj[t] == [5] + Span(t, 5) {
      HalvingOfDoubles(5, t);
    }
    PointwiseEqual(editable.adj, seq(5, k requires 0 <= k < 5 => [5] + Span(k, 5)));
  }

  /** Node i of the driver's result holds only values between i and 5. */
  lemma DriverBounds(L: seq<seq<int>>)
    requires L == seq(5, k requires 0 <= k < 5 => [5] + Span(k, 5))
    ensures forall i, j :: 0 <= i < |L| && 0 <= j < |L[i]| ==> i <= L[i][j] <= 5
  {
    forall i, j | 0 <= i < |L| && 0 <= j < |L[i]| ensures i <= L[i][j] <= 5 {
      if j > 0 {
        assert L[i][j] == Span(i, 5)[j - 1];
      }
    }
  }

  /** The whole driver: the edited list, moved back into the compact list, has 5 nodes and
      node i reads only values v with i <= v <= 5, so every check the driver makes passes. */
  method AdjacencyTest() returns (compact: CompactAdjacencyList)
    ensures compact.Valid() && compact.NumNodes() == 5
    ensures compact.Lists() == seq(5, k requires 0 <= k < 5 => [5] + Span(k, 5))
    ensures forall i, j :: 0 <= i < compact.NumNodes() && compact.GetAdjacent(i, j).Ok?
              ==> i <= compact.GetAdjacent(i, j).value <= 5
  {
    var editable;
    compact, editable := StarScenario();
    EditScenario(editable);
    var converted := new CompactAdjacencyList.FromList(editable);
    compact.MoveFrom(converted);
    DriverBounds(compact.Lists());
  }
}
