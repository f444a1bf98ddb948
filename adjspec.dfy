/**
 * The meaning of the two adjacency lists as pure values: a list of lists of
 * integers, node i's list at index i. The pair-list constructors, the CSR
 * (compressed sparse row) layout and the generic conversions are described by
 * the functions here, and the lemmas state what those functions guarantee.
 * Adjacent values are arbitrary integers, not necessarily node ids.
 */
module AdjacencySpec {

  /** A connection (node, adjacent) as the pair-list constructors receive it. */
  type Connection = (int, int)

  /** No value occurs twice in s. */
  predicate NoRepeats(s: seq<int>) {
    forall p, q :: 0 <= p < q < |s| ==> s[p] != s[q]
  }

  /** Position of the first occurrence of x in s, or |s| when x is absent (std::find). */
  function IndexOf(s: seq<int>, x: int): (r: nat)
    ensures r <= |s|
    ensures r == |s| <==> x !in s
    ensures r < |s| ==> s[r] == x
    ensures forall p :: 0 <= p < r ==> s[p] != x
  {
    if |s| == 0 then 0
    else if s[0] == x then 0
    else 1 + IndexOf(s[1..], x)
  }

  // ---------------------------------------------------------------------------
  // Positional edits of a sequence, as std::vector's emplace, erase and swap
  // ---------------------------------------------------------------------------

  /** s with x inserted at position p, later elements shifted up by one. */
  function InsertAt<T>(s: seq<T>, p: nat, x: T): (r: seq<T>)
    requires p <= |s|
    ensures |r| == |s| + 1 && r[p] == x
    ensures forall k :: 0 <= k < p ==> r[k] == s[k]
    ensures forall k :: p < k < |r| ==> r[k] == s[k - 1]
  {
    s[..p] + [x] + s[p..]
  }

  /** s with position p erased, later elements shifted down by one. */
  function RemoveAt<T>(s: seq<T>, p: nat): (r: seq<T>)
    requires p < |s|
    ensures |r| == |s| - 1
    ensures forall k :: 0 <= k < p ==> r[k] == s[k]
    ensures forall k :: p <= k < |r| ==> r[k] == s[k + 1]
  {
    s[..p] + s[p + 1..]
  }

  /** s with positions p and q exchanged. */
  function SwapAt<T>(s: seq<T>, p: nat, q: nat): (r: seq<T>)
    requires p < |s| && q < |s|
    ensures |r| == |s| && r[p] == s[q] && r[q] == s[p]
    ensures forall k :: 0 <= k < |s| && k != p && k != q ==> r[k] == s[k]
  {
    s[p := s[q]][q := s[p]]
  }

  /** Two sequences that agree at every position are equal. */
  lemma PointwiseEqual<T>(s: seq<T>, t: seq<T>)
    requires |s| == |t|
    requires forall k :: 0 <= k < |s| ==> s[k] == t[k]
    ensures s == t
  {
  }

  /** Erasing what was just inserted restores the sequence. */
  lemma RemoveAfterInsert<T>(s: seq<T>, p: nat, x: T)
    requires p <= |s|
    ensures RemoveAt(InsertAt(s, p, x), p) == s
  {
  }

  /** Re-inserting what was just erased restores the sequence. */
  lemma InsertAfterRemove<T>(s: seq<T>, p: nat)
    requires p < |s|
    ensures InsertAt(RemoveAt(s, p), p, s[p]) == s
  {
  }

  /** Swapping the same two positions twice restores the sequence; swapping a position with
      itself changes nothing. */
  lemma SwapTwice<T>(s: seq<T>, p: nat, q: nat)
    requires p < |s| && q < |s|
    ensures SwapAt(SwapAt(s, p, q), p, q) == s
    ensures SwapAt(s, p, p) == s
  {
  }

  /** The edits the editable list performs on one node's adjacents keep it free of repeats:
      erasing, and inserting, appending or overwriting with a value not already present. */
  lemma EditsKeepNoRepeats(s: seq<int>, p: nat, x: int)
    requires NoRepeats(s)
    ensures p < |s| ==> NoRepeats(RemoveAt(s, p))
    ensures p <= |s| && x !in s ==> NoRepeats(InsertAt(s, p, x))
    ensures x !in s ==> NoRepeats(s + [x])
    ensures p < |s| && x !in s ==> NoRepeats(s[p := x])
  {
    if p < |s| {
      var r := RemoveAt(s, p);
      forall a, b | 0 <= a < b < |r| ensures r[a] != r[b] {
        var a' := if a < p then a else a + 1;
        var b' := if b < p then b else b + 1;
        assert r[a] == s[a'] && r[b] == s[b'];
      }
    }
    if p <= |s| && x !in s {
      var r := InsertAt(s, p, x);
      forall a, b | 0 <= a < b < |r| ensures r[a] != r[b] {
        if a != p && b != p {
          var a' := if a < p then a else a - 1;
          var b' := if b < p then b else b - 1;
          assert r[a] == s[a'] && r[b] == s[b'];
        } else if a == p {
          assert r[b] == s[b - 1];
        } else {
          assert r[a] == s[a];
        }
      }
    }
  }

  // ---------------------------------------------------------------------------
  // The editable list built from a pair list
  // ---------------------------------------------------------------------------

  /** The node count the pair-list constructors derive: one past the largest first value,
      and 0 when there is none above -1. */
  function NodeCount(C: seq<Connection>): (r: int)
    ensures 0 <= r
    ensures forall k :: 0 <= k < |C| ==> C[k].0 < r
    ensures r == 0 || exists k :: 0 <= k < |C| && C[k].0 == r - 1
  {
    if |C| == 0 then 0
    else
      var p := C[..|C| - 1];
      var r := NodeCount(p);
      assert forall k :: 0 <= k < |p| ==> C[k] == p[k];
      if C[|C| - 1].0 + 1 > r then C[|C| - 1].0 + 1
      else
        assert r == 0 || exists k :: 0 <= k < |C| && C[k].0 == r - 1 by {
          if r != 0 {
            var k :| 0 <= k < |p| && p[k].0 == r - 1;
            assert C[k] == p[k];
          }
        }
        r
  }

  /** The seconds of the connections of node i, in list order, repeats kept. */
  function SecondsOf(C: seq<Connection>, i: int): (r: seq<int>)
    ensures forall x :: x in r <==> exists k :: 0 <= k < |C| && C[k] == (i, x)
  {
    if |C| == 0 then []
    else
      var p := SecondsOf(C[..|C| - 1], i);
      assert forall x :: x in p <==> exists k :: 0 <= k < |C| - 1 && C[k] == (i, x) by {
        forall x ensures x in p <==> exists k :: 0 <= k < |C| - 1 && C[k] == (i, x) {
          if x in p {
            var k :| 0 <= k < |C| - 1 && C[..|C| - 1][k] == (i, x);
            assert C[k] == (i, x);
          }
          if exists k :: 0 <= k < |C| - 1 && C[k] == (i, x) {
            var k :| 0 <= k < |C| - 1 && C[k] == (i, x);
            assert C[..|C| - 1][k] == (i, x);
          }
        }
      }
      if C[|C| - 1].0 == i then p + [C[|C| - 1].1] else p
  }

  /** s with every repeat dropped, first occurrences kept in order. */
  function Dedup(s: seq<int>): (r: seq<int>)
    ensures NoRepeats(r)
    ensures forall x :: x in r <==> x in s
    ensures |r| <= |s|
  {
    if |s| == 0 then []
    else
      var d := Dedup(s[..|s| - 1]);
      assert forall x :: x in s[..|s| - 1] ==> x in s;
      assert forall x :: x in s ==> x in s[..|s| - 1] || x == s[|s| - 1];
      if s[|s| - 1] in d then d else d + [s[|s| - 1]]
  }

  /** Dedup leaves a sequence without repeats as it is. */
  lemma {:induction false} DedupOfNoRepeats(s: seq<int>)
    requires NoRepeats(s)
    ensures Dedup(s) == s
  {
    if |s| > 0 {
      var p := s[..|s| - 1];
      assert NoRepeats(p);
      DedupOfNoRepeats(p);
      assert s[|s| - 1] !in p;
      assert p + [s[|s| - 1]] == s;
    }
  }

  /** Dedup keeps first occurrences in order: x comes before y in Dedup(s) exactly when
      x first occurs in s before y does. */
  lemma {:induction false} DedupKeepsFirstOccurrenceOrder(s: seq<int>, p: nat, q: nat)
    requires p < |Dedup(s)| && q < |Dedup(s)|
    ensures p < q <==> IndexOf(s, Dedup(s)[p]) < IndexOf(s, Dedup(s)[q])
  {
    if |s| > 0 {
      var t := s[..|s| - 1];
      var d := Dedup(t);
      assert forall x :: x in t ==> IndexOf(s, x) == IndexOf(t, x) by {
        forall x | x in t ensures IndexOf(s, x) == IndexOf(t, x) {
          IndexOfPrefix(s, |s| - 1, x);
        }
      }
      if p < |d| && q < |d| {
        DedupKeepsFirstOccurrenceOrder(t, p, q);
      } else {
        // one of p, q is the appended last element, which first occurs at |s| - 1
        var last := s[|s| - 1];
        assert last !in d && Dedup(s) == d + [last];
        assert last !in t;
        assert IndexOf(s, last) == |s| - 1 by {
          IndexOfPrefix(s, |s| - 1, last);
        }
        if p < |d| {
          assert Dedup(s)[p] in t;
          IndexOfPrefix(s, |s| - 1, Dedup(s)[p]);
        }
        if q < |d| {
          assert Dedup(s)[q] in t;
          IndexOfPrefix(s, |s| - 1, Dedup(s)[q]);
        }
      }
    }
  }

  /** A value found in a prefix of s is found at the same position in s; one missing from the
      prefix is found at or after the prefix's end. */
  lemma {:induction false} IndexOfPrefix(s: seq<int>, m: nat, x: int)
    requires m <= |s|
    ensures x in s[..m] ==> IndexOf(s, x) == IndexOf(s[..m], x)
    ensures x !in s[..m] ==> IndexOf(s, x) >= m
  {
    if x in s[..m] {
      var r' := IndexOf(s[..m], x);
      assert s[r'] == x;
    }
  }

  /** The lists the pair-list constructor of the editable list builds over n nodes: node i
      holds the distinct seconds of its connections, in order of first occurrence. */
  function PairLists(C: seq<Connection>, n: nat): (r: seq<seq<int>>)
    ensures |r| == n
    ensures forall i :: 0 <= i < n ==> NoRepeats(r[i])
    ensures forall i, x :: 0 <= i < n ==> (x in r[i] <==> exists k :: 0 <= k < |C| && C[k] == (i, x))
  {
    seq(n, i requires 0 <= i < n => Dedup(SecondsOf(C, i)))
  }

  /** Adding the connections one at a time, skipping a connection whose node is out of range
      or whose adjacent is already listed, builds PairLists. */
  lemma PairListsStep(C: seq<Connection>, k: nat, n: nat)
    requires k < |C|
    ensures var prev := PairLists(C[..k], n);
            var (i, j) := C[k];
            PairLists(C[..k + 1], n)
              == if 0 <= i < n && j !in prev[i] then prev[i := prev[i] + [j]] else prev
  {
    assert C[..k + 1][..k] == C[..k];
  }

  // ---------------------------------------------------------------------------
  // Sorting the pair list
  // ---------------------------------------------------------------------------

  /** Lexicographic order on connections, the order of std::pair. */
  predicate LexLe(a: Connection, b: Connection) {
    a.0 < b.0 || (a.0 == b.0 && a.1 <= b.1)
  }

  predicate LexSorted(s: seq<Connection>) {
    forall p, q :: 0 <= p < q < |s| ==> LexLe(s[p], s[q])
  }

  /** x inserted into a sorted s before the first element it does not exceed. */
  function InsertSorted(s: seq<Connection>, x: Connection): (r: seq<Connection>)
    requires LexSorted(s)
    ensures LexSorted(r)
    ensures multiset(r) == multiset(s) + multiset{x}
    ensures |r| == |s| + 1
  {
    if |s| == 0 then [x]
    else if LexLe(x, s[0]) then
      SortedCons(x, s);
      [x] + s
    else
      var t := InsertSorted(s[1..], x);
      assert s == [s[0]] + s[1..];
      assert forall k :: 0 <= k < |t| ==> LexLe(s[0], t[k]) by {
        forall k | 0 <= k < |t| ensures LexLe(s[0], t[k]) {
          assert t[k] in multiset(t);
          if t[k] != x {
            assert t[k] in multiset(s[1..]);
          }
        }
      }
      SortedCons(s[0], t);
      [s[0]] + t
  }

  /** A head no larger than any element of a sorted tail gives a sorted list. */
  lemma SortedCons(h: Connection, t: seq<Connection>)
    requires LexSorted(t)
    requires forall k :: 0 <= k < |t| ==> LexLe(h, t[k])
    ensures LexSorted([h] + t)
  {
    var r := [h] + t;
    forall p, q | 0 <= p < q < |r| ensures LexLe(r[p], r[q]) {
      assert r[q] == t[q - 1];
      if p > 0 {
        assert r[p] == t[p - 1];
      }
    }
  }

  /** The sorted copy of the pair list: sorted lexicographically and a permutation of C. */
  function SortConnections(C: seq<Connection>): (r: seq<Connection>)
    ensures LexSorted(r)
    ensures multiset(r) == multiset(C)
    ensures |r| == |C|
  {
    if |C| == 0 then []
    else
      assert C == C[..|C| - 1] + [C[|C| - 1]];
      InsertSorted(SortConnections(C[..|C| - 1]), C[|C| - 1])
  }

  /** The sorted permutation of a pair list is unique, so any correct sort (std::sort among
      them) gives SortConnections. */
  lemma {:induction false} SortedPermutationUnique(a: seq<Connection>, b: seq<Connection>)
    requires LexSorted(a) && LexSorted(b) && multiset(a) == multiset(b)
    ensures a == b
    decreases |a|
  {
    if |a| > 0 {
      assert |b| == |multiset(b)| == |a|;
      SortedHeadIsLeast(a);
      SortedHeadIsLeast(b);
      assert a[0] in multiset(b) && b[0] in multiset(a);
      assert a[0] == b[0];
      TailMultiset(a);
      TailMultiset(b);
      SortedPermutationUnique(a[1..], b[1..]);
    }
  }

  lemma SortedHeadIsLeast(a: seq<Connection>)
    requires LexSorted(a) && |a| > 0
    ensures forall y :: y in multiset(a) ==> LexLe(a[0], y)
  {
    forall y | y in multiset(a) ensures LexLe(a[0], y) {
      var k :| 0 <= k < |a| && a[k] == y;
    }
  }

  lemma TailMultiset(a: seq<Connection>)
    requires |a| > 0
    ensures multiset(a[1..]) == multiset(a) - multiset{a[0]}
    ensures LexSorted(a) ==> LexSorted(a[1..])
  {
    assert a == [a[0]] + a[1..];
  }

  /** In a sorted pair list no first value exceeds the last one. */
  lemma LastHasLargestFirst(s: seq<Connection>)
    requires LexSorted(s) && |s| > 0
    ensures forall k :: 0 <= k < |s| ==> s[k].0 <= s[|s| - 1].0
  {
    forall k | 0 <= k < |s| - 1 ensures s[k].0 <= s[|s| - 1].0 {
      assert LexLe(s[k], s[|s| - 1]);
    }
  }

  /** A member of one pair list is a member of any permutation of it. */
  lemma PermutationMember(a: seq<Connection>, b: seq<Connection>, x: Connection)
    requires multiset(a) == multiset(b) && x in a
    ensures x in b
  {
    assert x in multiset(a);
  }

  /** The compact constructor's node count, one past the last first value of the sorted copy,
      agrees with NodeCount when that is positive. */
  lemma SortedNodeCount(C: seq<Connection>)
    requires NodeCount(C) >= 1
    ensures |SortConnections(C)| > 0
    ensures SortConnections(C)[|C| - 1].0 + 1 == NodeCount(C)
  {
    var s := SortConnections(C);
    var r := NodeCount(C);
    var k :| 0 <= k < |C| && C[k].0 == r - 1;
    PermutationMember(C, s, C[k]);
    var p :| 0 <= p < |s| && s[p] == C[k];
    assert |s| == |C|;
    var last := s[|C| - 1];
    assert s[p].0 <= last.0 by {
      LastHasLargestFirst(s);
    }
    PermutationMember(s, C, last);
    var q :| 0 <= q < |C| && C[q] == last;
    assert C[q].0 < r;
    assert last.0 + 1 == r;
  }

  // ---------------------------------------------------------------------------
  // The CSR layout built from a sorted pair list
  // ---------------------------------------------------------------------------

  /** The node a connection is filed under by the compact constructor: its walk over the sorted
      list starts at node 0 and never moves back, so negative first values land in node 0. */
  function Owner(f: int): (r: nat)
    ensures 0 <= f ==> r == f
    ensures f < 0 ==> r == 0
  {
    if f < 0 then 0 else f
  }

  /** How many connections of s are filed under a node below t. */
  function CountBelow(s: seq<Connection>, t: int): (r: nat)
    ensures r <= |s|
  {
    if |s| == 0 then 0
    else CountBelow(s[..|s| - 1], t) + (if Owner(s[|s| - 1].0) < t then 1 else 0)
  }

  /** The seconds of s in order: the compact list's flat adjacency array. */
  function Seconds(s: seq<Connection>): (r: seq<int>)
    ensures |r| == |s|
    ensures forall k :: 0 <= k < |s| ==> r[k] == s[k].1
  {
    if |s| == 0 then [] else Seconds(s[..|s| - 1]) + [s[|s| - 1].1]
  }

  /** The seconds of the connections filed under node i, in list order. */
  function Bucket(s: seq<Connection>, i: int): seq<int> {
    if |s| == 0 then []
    else if Owner(s[|s| - 1].0) == i then Bucket(s[..|s| - 1], i) + [s[|s| - 1].1]
    else Bucket(s[..|s| - 1], i)
  }

  /** Every member of node i's bucket is the second of a pair filed under i. */
  lemma {:induction false} BucketMembers(s: seq<Connection>, i: int)
    ensures forall x :: x in Bucket(s, i) ==>
              exists k :: 0 <= k < |s| && Owner(s[k].0) == i && s[k].1 == x
  {
    if |s| > 0 {
      var t := s[..|s| - 1];
      BucketMembers(t, i);
      forall x | x in Bucket(s, i)
        ensures exists k :: 0 <= k < |s| && Owner(s[k].0) == i && s[k].1 == x
      {
        if x in Bucket(t, i) {
          var k :| 0 <= k < |t| && Owner(t[k].0) == i && t[k].1 == x;
          assert s[k] == t[k];
        } else {
          assert Owner(s[|s| - 1].0) == i && s[|s| - 1].1 == x;
        }
      }
    }
  }

  /** CountBelow never decreases as the bound grows. */
  lemma {:induction false} CountBelowMonotone(s: seq<Connection>, t: int, u: int)
    requires t <= u
    ensures CountBelow(s, t) <= CountBelow(s, u)
  {
    if |s| > 0 {
      CountBelowMonotone(s[..|s| - 1], t, u);
    }
  }

  /** Every connection is filed under a node below t: all of s counts. */
  lemma {:induction false} CountBelowAll(s: seq<Connection>, t: int)
    requires forall k :: 0 <= k < |s| ==> Owner(s[k].0) < t
    ensures CountBelow(s, t) == |s|
  {
    if |s| > 0 {
      CountBelowAll(s[..|s| - 1], t);
    }
  }

  /** No connection is filed under a node below t. */
  lemma {:induction false} CountBelowNone(s: seq<Connection>, t: int)
    requires forall k :: 0 <= k < |s| ==> Owner(s[k].0) >= t
    ensures CountBelow(s, t) == 0
  {
    if |s| > 0 {
      CountBelowNone(s[..|s| - 1], t);
    }
  }

  /** No connection is filed under node i: its bucket is empty. */
  lemma {:induction false} BucketNone(s: seq<Connection>, i: int)
    requires forall k :: 0 <= k < |s| ==> Owner(s[k].0) != i
    ensures Bucket(s, i) == []
  {
    if |s| > 0 {
      BucketNone(s[..|s| - 1], i);
    }
  }

  /** In a sorted list no connection before the last is filed under a later node. */
  lemma OwnersUpToLast(s: seq<Connection>)
    requires LexSorted(s) && |s| > 0
    ensures forall k :: 0 <= k < |s| - 1 ==> Owner(s[k].0) <= Owner(s[|s| - 1].0)
  {
    forall k | 0 <= k < |s| - 1 ensures Owner(s[k].0) <= Owner(s[|s| - 1].0) {
      assert LexLe(s[k], s[|s| - 1]);
    }
  }

  /** In a sorted list, the connections filed under node i (i >= 0) occupy positions
      CountBelow(s, i) .. CountBelow(s, i + 1), and their seconds there are node i's bucket. */
  lemma {:induction false} SortedSlice(s: seq<Connection>, i: nat)
    requires LexSorted(s)
    ensures CountBelow(s, i) <= CountBelow(s, i + 1)
    ensures Seconds(s)[CountBelow(s, i)..CountBelow(s, i + 1)] == Bucket(s, i)
  {
    if |s| > 0 {
      var p := s[..|s| - 1];
      var x := s[|s| - 1];
      var o := Owner(x.0);
      assert LexSorted(p);
      OwnersUpToLast(s);
      SortedSlice(p, i);
      var lo, hi := CountBelow(p, i), CountBelow(p, i + 1);
      assert Seconds(s) == Seconds(p) + [x.1];
      assert CountBelow(s, i) == lo + (if o < i then 1 else 0);
      assert CountBelow(s, i + 1) == hi + (if o < i + 1 then 1 else 0);
      assert Bucket(s, i) == if o == i then Bucket(p, i) + [x.1] else Bucket(p, i);
      var q := Seconds(p);
      if i < o {
        SliceOfSnoc(q, x.1, lo, hi);
        assert Seconds(s)[lo..hi] == q[lo..hi] == Bucket(p, i);
      } else if i == o {
        CountBelowAll(p, i + 1);
        SliceOfSnoc(q, x.1, lo, hi);
        assert Seconds(s)[lo..hi + 1] == q[lo..hi] + [x.1] == Bucket(p, i) + [x.1];
      } else {
        CountBelowAll(p, i);
        CountBelowAll(p, i + 1);
        BucketNone(p, i);
        assert Seconds(s)[|p| + 1..|p| + 1] == [];
      }
    }
  }

  /** Slices of a sequence with one more element appended. */
  lemma SliceOfSnoc(q: seq<int>, y: int, lo: nat, hi: nat)
    requires lo <= hi <= |q|
    ensures (q + [y])[lo..hi] == q[lo..hi]
    ensures (q + [y])[lo..hi + 1] == q[lo..hi] + (if hi == |q| then [y] else [q[hi]])
  {
  }

  /** Bucket distributes over concatenation. */
  lemma {:induction false} BucketAppend(a: seq<Connection>, b: seq<Connection>, i: int)
    ensures Bucket(a + b, i) == Bucket(a, i) + Bucket(b, i)
  {
    if |b| > 0 {
      var b' := b[..|b| - 1];
      assert (a + b)[..|a + b| - 1] == a + b';
      BucketAppend(a, b', i);
    } else {
      assert a + b == a;
    }
  }

  /** Inserting x into a sorted list adds x's second to x's bucket and to no other, as multisets. */
  lemma {:induction false} BucketInsert(s: seq<Connection>, x: Connection, i: int)
    requires LexSorted(s)
    ensures multiset(Bucket(InsertSorted(s, x), i))
         == multiset(Bucket(s, i)) + (if Owner(x.0) == i then multiset{x.1} else multiset{})
  {
    var extra := if Owner(x.0) == i then multiset{x.1} else multiset{};
    assert multiset(Bucket([x], i)) == extra by {
      assert Bucket([x], i) == Bucket([], i) + (if Owner(x.0) == i then [x.1] else []);
    }
    if |s| == 0 {
      assert InsertSorted(s, x) == [x];
    } else if LexLe(x, s[0]) {
      BucketAppend([x], s, i);
      calc {
        multiset(Bucket(InsertSorted(s, x), i));
        multiset(Bucket([x] + s, i));
        multiset(Bucket([x], i) + Bucket(s, i));
        multiset(Bucket([x], i)) + multiset(Bucket(s, i));
        extra + multiset(Bucket(s, i));
      }
    } else {
      var h, rest := s[0], s[1..];
      assert s == [h] + rest;
      TailMultiset(s);
      var ins := InsertSorted(rest, x);
      assert InsertSorted(s, x) == [h] + ins;
      BucketInsert(rest, x, i);
      BucketAppend([h], ins, i);
      BucketAppend([h], rest, i);
      var mh := multiset(Bucket([h], i));
      calc {
        multiset(Bucket(InsertSorted(s, x), i));
        multiset(Bucket([h] + ins, i));
        multiset(Bucket([h], i) + Bucket(ins, i));
        mh + multiset(Bucket(ins, i));
        mh + (multiset(Bucket(rest, i)) + extra);
        (mh + multiset(Bucket(rest, i))) + extra;
        multiset(Bucket([h], i) + Bucket(rest, i)) + extra;
        multiset(Bucket(s, i)) + extra;
      }
    }
  }

  /** Sorting keeps every node's bucket as a multiset: the compact list keeps repeats and loses
      nothing. */
  lemma {:induction false} BucketOfSorted(C: seq<Connection>, i: int)
    ensures multiset(Bucket(SortConnections(C), i)) == multiset(Bucket(C, i))
  {
    if |C| > 0 {
      var p := C[..|C| - 1];
      BucketOfSorted(p, i);
      BucketInsert(SortConnections(p), C[|C| - 1], i);
    }
  }

  /** In a sorted list, the bucket of a node above 0 is ascending; so is node 0's when no first
      value is negative. (Negative first values are filed under node 0 ahead of its own.) */
  lemma {:induction false} BucketAscending(s: seq<Connection>, i: int)
    requires LexSorted(s)
    requires i > 0 || forall k :: 0 <= k < |s| ==> s[k].0 >= 0
    ensures forall p, q :: 0 <= p < q < |Bucket(s, i)| ==> Bucket(s, i)[p] <= Bucket(s, i)[q]
  {
    if |s| > 0 {
      var t := s[..|s| - 1];
      var x := s[|s| - 1];
      assert LexSorted(t);
      assert forall k :: 0 <= k < |t| ==> t[k] == s[k];
      BucketAscending(t, i);
      var b := Bucket(t, i);
      if Owner(x.0) == i {
        assert Bucket(s, i) == b + [x.1];
        BucketMembers(t, i);
        forall y | y in b ensures y <= x.1 {
          var k :| 0 <= k < |t| && Owner(t[k].0) == i && t[k].1 == y;
          assert LexLe(s[k], x);
        }
        forall p, q | 0 <= p < q < |b| + 1 ensures (b + [x.1])[p] <= (b + [x.1])[q] {
          if q == |b| {
            assert b[p] in b;
          }
        }
      }
    }
  }

  // ---------------------------------------------------------------------------
  // The CSR invariant, flattening and the generic conversions
  // ---------------------------------------------------------------------------

  /** The CSR offset invariant: one more offset than nodes, starting at 0, never decreasing,
      ending at the length of the flat array. */
  predicate IsCsr(adj: seq<int>, idx: seq<int>) {
    && |idx| >= 1
    && idx[0] == 0
    && (forall p, q :: 0 <= p <= q < |idx| ==> idx[p] <= idx[q])
    && idx[|idx| - 1] == |adj|
  }

  /** The lists a CSR layout stands for: node i's is the slice between its two offsets. */
  function Slices(adj: seq<int>, idx: seq<int>): (r: seq<seq<int>>)
    requires IsCsr(adj, idx)
    ensures |r| == |idx| - 1
    ensures forall i :: 0 <= i < |r| ==> |r[i]| == idx[i + 1] - idx[i]
  {
    seq(|idx| - 1, i requires 0 <= i < |idx| - 1 => adj[idx[i]..idx[i + 1]])
  }

  /** The lists concatenated in node order. */
  function Flatten(L: seq<seq<int>>): seq<int> {
    if |L| == 0 then [] else Flatten(L[..|L| - 1]) + L[|L| - 1]
  }

  /** The running sums of the list lengths, starting at 0: the offsets of the flattened lists. */
  function Offsets(L: seq<seq<int>>): (r: seq<int>)
    ensures |r| == |L| + 1
  {
    seq(|L| + 1, t requires 0 <= t <= |L| => |Flatten(L[..t])|)
  }

  /** Flattening a prefix gives a prefix of the flattened whole. */
  lemma {:induction false} FlattenPrefix(L: seq<seq<int>>, t: nat)
    requires t <= |L|
    ensures |Flatten(L[..t])| <= |Flatten(L)|
    ensures Flatten(L)[..|Flatten(L[..t])|] == Flatten(L[..t])
    decreases |L| - t
  {
    if t < |L| {
      FlattenPrefix(L, t + 1);
      assert L[..t + 1][..t] == L[..t];
      assert Flatten(L[..t + 1]) == Flatten(L[..t]) + L[t];
    } else {
      assert L[..t] == L;
    }
  }

  /** The offsets never decrease. */
  lemma OffsetsAscend(L: seq<seq<int>>)
    ensures forall p, q :: 0 <= p <= q < |Offsets(L)| ==> Offsets(L)[p] <= Offsets(L)[q]
  {
    var idx := Offsets(L);
    forall p, q | 0 <= p <= q < |idx| ensures idx[p] <= idx[q] {
      FlattenPrefix(L[..q], p);
      assert L[..q][..p] == L[..p];
    }
  }

  /** Flattening and offsetting a list of lists gives a CSR layout whose slices are the lists:
      the generic conversion into the compact list loses nothing. */
  lemma FlattenIsCsr(L: seq<seq<int>>)
    ensures IsCsr(Flatten(L), Offsets(L))
    ensures Slices(Flatten(L), Offsets(L)) == L
  {
    var adj, idx := Flatten(L), Offsets(L);
    assert idx[|L|] == |adj| by {
      assert L[..|L|] == L;
    }
    OffsetsAscend(L);
    assert IsCsr(adj, idx);
    var S := Slices(adj, idx);
    forall i | 0 <= i < |L| ensures S[i] == L[i] {
      FlattenSlice(L, i);
    }
    assert S == L;
  }

  /** One more list adds one more offset, the previous one plus its length. */
  lemma OffsetsStep(L: seq<seq<int>>, i: nat)
    requires i < |L|
    ensures Offsets(L[..i + 1]) == Offsets(L[..i]) + [|Flatten(L[..i])| + |L[i]|]
  {
    var A, B := Offsets(L[..i + 1]), Offsets(L[..i]) + [|Flatten(L[..i])| + |L[i]|];
    forall t | 0 <= t <= i + 1 ensures A[t] == B[t] {
      if t <= i {
        assert L[..i + 1][..t] == L[..i][..t];
      } else {
        assert L[..i + 1][..t][..i] == L[..i];
      }
    }
  }

  /** One more list appends that list to the flattened prefix. */
  lemma FlattenSnoc(L: seq<seq<int>>, i: nat)
    requires i < |L|
    ensures Flatten(L[..i + 1]) == Flatten(L[..i]) + L[i]
  {
    assert L[..i + 1][..i] == L[..i];
  }

  /** Flattening the whole-list prefix is flattening the list. */
  lemma FlattenWhole(L: seq<seq<int>>)
    ensures Flatten(L[..|L|]) == Flatten(L)
  {
    assert L[..|L|] == L;
  }

  /** Node i's degree in a CSR layout is the gap between its two offsets. */
  lemma SliceLength(adj: seq<int>, idx: seq<int>, i: nat)
    requires IsCsr(adj, idx) && i < |idx| - 1
    ensures idx[i] + |Slices(adj, idx)[i]| == idx[i + 1]
  {
  }

  /** Node i's list sits in the flattened lists between offsets i and i + 1. */
  lemma FlattenSlice(L: seq<seq<int>>, i: nat)
    requires i < |L|
    ensures |Flatten(L[..i])| <= |Flatten(L[..i + 1])| <= |Flatten(L)|
    ensures Flatten(L)[|Flatten(L[..i])|..|Flatten(L[..i + 1])|] == L[i]
  {
    FlattenPrefix(L, i + 1);
    assert L[..i + 1][..i] == L[..i];
    var f := Flatten(L[..i + 1]);
    assert f == Flatten(L[..i]) + L[i];
    assert Flatten(L)[|Flatten(L[..i])|..|f|] == f[|Flatten(L[..i])|..];
  }

  /** Reading a CSR layout node by node and concatenating gives back its flat array: the
      generic conversion out of the compact list loses nothing either. */
  lemma FlattenSlices(adj: seq<int>, idx: seq<int>)
    requires IsCsr(adj, idx)
    ensures Flatten(Slices(adj, idx)) == adj
    ensures Offsets(Slices(adj, idx)) == idx
  {
    var L := Slices(adj, idx);
    forall t | 0 <= t <= |L| ensures Flatten(L[..t]) == adj[..idx[t]] {
      FlattenSlicesPrefix(adj, idx, t);
    }
    assert L[..|L|] == L;
  }

  lemma {:induction false} FlattenSlicesPrefix(adj: seq<int>, idx: seq<int>, t: nat)
    requires IsCsr(adj, idx) && t <= |idx| - 1
    ensures Flatten(Slices(adj, idx)[..t]) == adj[..idx[t]]
  {
    var L := Slices(adj, idx);
    if t > 0 {
      FlattenSlicesPrefix(adj, idx, t - 1);
      assert L[..t][..t - 1] == L[..t - 1];
      assert adj[..idx[t]] == adj[..idx[t - 1]] + adj[idx[t - 1]..idx[t]];
    }
  }

  /** The total number of adjacents, summed over the nodes. */
  function TotalLength(L: seq<seq<int>>): nat {
    if |L| == 0 then 0 else TotalLength(L[..|L| - 1]) + |L[|L| - 1]|
  }

  lemma {:induction false} FlattenLength(L: seq<seq<int>>)
    ensures |Flatten(L)| == TotalLength(L)
  {
    if |L| > 0 {
      FlattenLength(L[..|L| - 1]);
    }
  }

  // ---------------------------------------------------------------------------
  // The pair list of the library's test driver
  // ---------------------------------------------------------------------------

  /** The pairs (i, n) for i = 0..n-1: every node joined to the value n. */
  function Star(n: nat): (r: seq<Connection>)
    ensures |r| == n
    ensures forall k :: 0 <= k < n ==> r[k] == (k, n)
  {
    seq(n, k requires 0 <= k < n => (k, n))
  }

  /** The star is already sorted, its node count is n, and in CSR form node i holds [n]. */
  lemma StarLayout(n: nat)
    requires n >= 1
    ensures LexSorted(Star(n)) && SortConnections(Star(n)) == Star(n)
    ensures NodeCount(Star(n)) == n
    ensures forall i :: 0 <= i < n ==> Bucket(Star(n), i) == [n]
  {
    var s := Star(n);
    SortedPermutationUnique(SortConnections(s), s);
    assert s[n - 1].0 == n - 1;
    forall i | 0 <= i < n ensures Bucket(s, i) == [n] {
      StarBucketPrefix(n, n, i);
      assert s[..n] == s;
    }
  }

  lemma {:induction false} StarBucketPrefix(n: nat, m: nat, i: nat)
    requires m <= n
    ensures Bucket(Star(n)[..m], i) == if i < m then [n] else []
  {
    var s := Star(n)[..m];
    if m > 0 {
      StarBucketPrefix(n, m - 1, i);
      assert s[..m - 1] == Star(n)[..m - 1];
    }
  }
}
