/**
 * cut::MinHeap: an indexed binary heap over the elements 0..n-1, each with a
 * key, fixed at construction. The heap array holds (stored key, element) pairs
 * and an inverse permutation maps each element to its position. A max-heap
 * stores every key negated (sign = -1), so one "smallest stored key on top"
 * rule serves both modes.
 *
 * The layout puts the root at position 0 and hangs position v >= 1 below
 * position v / 2, so the children of v are 2v and 2v + 1; the root's only
 * real child is position 1. MoveDown, started at the root, also looks at
 * position 0 as a "child" of itself: when the root's stored key is no larger
 * than position 1's (or the heap has one element) it swaps the root with
 * itself forever. DownRun models that loop with fuel and proves exactly when
 * it stops; MoveDown and the key updates that call it require that condition.
 */
module MinHeaps {
  import opened Outcomes

  /** One slot of the heap array: the stored (sign-adjusted) key and its element. */
  datatype Entry = Entry(key: int, elem: nat)

  /** Where MoveDown's loop is after some number of iterations. */
  datatype Run = Stopped(at: nat) | Running

  /** The heap array with positions i and j exchanged. */
  function Swapped(s: seq<Entry>, i: nat, j: nat): seq<Entry>
    requires i < |s| && j < |s|
  {
    s[i := s[j]][j := s[i]]
  }

  /** Heap order: no position holds a smaller stored key than its parent. */
  ghost predicate HeapOrdered(s: seq<Entry>) {
    forall w :: 1 <= w < |s| ==> s[w / 2].key <= s[w].key
  }

  /** Heap order except between v and its parent, with v's parent no larger than v's children:
      what sift-up repairs. */
  ghost predicate UpSafe(s: seq<Entry>, v: nat) {
    && (forall w :: 1 <= w < |s| && w != v ==> s[w / 2].key <= s[w].key)
    && (1 <= v ==> forall w :: 1 <= w < |s| && w / 2 == v ==> s[v / 2].key <= s[w].key)
  }

  /** Heap order except between v and its children, with v's parent no larger than v's children:
      what sift-down repairs. */
  ghost predicate DownSafe(s: seq<Entry>, v: nat) {
    && (forall w :: 1 <= w < |s| && w / 2 != v ==> s[w / 2].key <= s[w].key)
    && (1 <= v ==> forall w :: 1 <= w < |s| && w / 2 == v ==> s[v / 2].key <= s[w].key)
  }

  /** The position MoveDown compares v with: 2v, or 2v + 1 when that exists and is strictly smaller.
      For v = 0 the candidates are positions 0 and 1. */
  function MinChild(s: seq<Entry>, v: nat): (u: nat)
    requires 2 * v < |s|
    ensures u < |s| && (u == v || (v < u && u / 2 == v)) && (u == v ==> v == 0)
    ensures forall w :: 1 <= w < |s| && w / 2 == v ==> s[u].key <= s[w].key
  {
    if 2 * v + 1 < |s| && s[2 * v].key > s[2 * v + 1].key then 2 * v + 1 else 2 * v
  }

  /** MoveDown's loop on the heap array, for at most fuel exchanges. The element only moves
      down: where the loop stops is v or a position below it, inside the array. */
  function DownRun(s: seq<Entry>, v: nat, fuel: nat): (r: Run)
    requires v < |s|
    ensures r.Stopped? ==> v <= r.at < |s|
    ensures r.Stopped? && r.at == v ==> 2 * v >= |s| || s[MinChild(s, v)].key > s[v].key
    decreases fuel
  {
    if 2 * v >= |s| then Stopped(v)
    else
      var u := MinChild(s, v);
      if s[u].key > s[v].key then Stopped(v)
      else if fuel == 0 then Running
      else DownRun(Swapped(s, v, u), u, fuel - 1)
  }

  /** Where MoveDown's loop breaks, DownRun stops. */
  lemma DownRunHalts(s: seq<Entry>, v: nat, fuel: nat)
    requires v < |s| && (2 * v >= |s| || s[MinChild(s, v)].key > s[v].key)
    ensures DownRun(s, v, fuel) == Stopped(v)
  {
  }

  /** Where MoveDown's loop exchanges v with its least child, DownRun does the same. */
  lemma DownRunSteps(r: Run, s: seq<Entry>, v: nat, fuel: nat, t: seq<Entry>, u: nat, rest: nat)
    requires v < |s| && 2 * v < |s| && u == MinChild(s, v) && s[u].key <= s[v].key && fuel == rest + 1
    requires t == Swapped(s, v, u) && r == DownRun(s, v, fuel)
    ensures r == DownRun(t, u, rest)
  {
  }

  /** At the root, with one element or a root no larger than position 1, MoveDown picks the
      root itself, swaps it with itself and starts over: the loop never stops. */
  lemma {:induction false} DownRunStallsAtRoot(s: seq<Entry>, fuel: nat)
    requires 1 <= |s|
    requires |s| == 1 || s[0].key <= s[1].key
    ensures DownRun(s, 0, fuel) == Running
    decreases fuel
  {
    assert MinChild(s, 0) == 0;
    if fuel > 0 {
      assert Swapped(s, 0, 0) == s;
      DownRunStallsAtRoot(s, fuel - 1);
    }
  }

  /** Away from the root, or at a root strictly larger than position 1, MoveDown stops
      within |s| - v exchanges, because the position at least doubles each time. */
  lemma {:induction false} DownRunStops(s: seq<Entry>, v: nat, fuel: nat)
    requires v < |s|
    requires v != 0 || (2 <= |s| && s[0].key > s[1].key)
    requires fuel >= |s| - v
    ensures DownRun(s, v, fuel).Stopped?
    decreases fuel
  {
    if 2 * v < |s| {
      var u := MinChild(s, v);
      if s[u].key <= s[v].key {
        assert u > v;
        DownRunStops(Swapped(s, v, u), u, fuel - 1);
      }
    }
  }

  /** The exact condition under which MoveDown, started at position v, returns. */
  lemma DownRunReturnsIff(s: seq<Entry>, v: nat)
    requires v < |s|
    ensures (exists fuel: nat :: DownRun(s, v, fuel).Stopped?)
        <==> (v != 0 || (2 <= |s| && s[0].key > s[1].key))
  {
    if v != 0 || (2 <= |s| && s[0].key > s[1].key) {
      DownRunStops(s, v, |s|);
    } else {
      forall fuel: nat ensures DownRun(s, v, fuel) == Running {
        DownRunStallsAtRoot(s, fuel);
      }
    }
  }

  /** In a heap-ordered array the root holds a smallest stored key. */
  lemma {:induction false} RootIsMinimum(s: seq<Entry>, w: nat)
    requires HeapOrdered(s) && w < |s|
    ensures s[0].key <= s[w].key
    decreases w
  {
    if w > 0 {
      RootIsMinimum(s, w / 2);
    }
  }

  /** In a heap-ordered array position 1 holds a smallest stored key among positions 1..n-1. */
  lemma {:induction false} SecondIsMinimumBelowRoot(s: seq<Entry>, w: nat)
    requires HeapOrdered(s) && 1 <= w < |s|
    ensures s[1].key <= s[w].key
    decreases w
  {
    if w > 1 {
      SecondIsMinimumBelowRoot(s, w / 2);
    }
  }

  lemma RootIsMinimal(s: seq<Entry>)
    ensures HeapOrdered(s) ==> forall w :: 0 <= w < |s| ==> s[0].key <= s[w].key
  {
    if HeapOrdered(s) {
      forall w | 0 <= w < |s| ensures s[0].key <= s[w].key {
        RootIsMinimum(s, w);
      }
    }
  }

  /** Lowering one stored key leaves a heap that sift-up repairs from that position. */
  lemma LoweredIsUpSafe(s: seq<Entry>, v: nat, k: int)
    requires HeapOrdered(s) && v < |s| && k <= s[v].key
    ensures UpSafe(s[v := s[v].(key := k)], v)
  {
    var t := s[v := s[v].(key := k)];
    forall w | 1 <= w < |t| && w / 2 == v && 1 <= v
      ensures t[v / 2].key <= t[w].key
    {
      assert s[v / 2].key <= s[v].key;
    }
  }

  /** Raising one stored key leaves a heap that sift-down repairs from that position. */
  lemma RaisedIsDownSafe(s: seq<Entry>, v: nat, k: int)
    requires HeapOrdered(s) && v < |s| && k >= s[v].key
    ensures DownSafe(s[v := s[v].(key := k)], v)
  {
    var t := s[v := s[v].(key := k)];
    forall w | 1 <= w < |t| && w / 2 == v && 1 <= v
      ensures t[v / 2].key <= t[w].key
    {
      assert s[v / 2].key <= s[v].key;
    }
  }

  /** One sift-up exchange moves the defect from v to its parent. */
  lemma UpStep(s: seq<Entry>, v: nat)
    requires 1 <= v < |s| && UpSafe(s, v) && s[v].key <= s[v / 2].key
    ensures UpSafe(Swapped(s, v / 2, v), v / 2)
  {
    var p := v / 2;
    var t := Swapped(s, p, v);
    forall w | 1 <= w < |t| && w != p
      ensures t[w / 2].key <= t[w].key
    {
      if w == v {
      } else if w / 2 == v {
        assert t[w / 2].key == s[p].key;
      } else if w / 2 == p {
        assert s[p].key <= s[w].key;
      }
    }
    if 1 <= p {
      forall w | 1 <= w < |t| && w / 2 == p
        ensures t[p / 2].key <= t[w].key
      {
        assert s[p / 2].key <= s[p].key;
        if w != v {
          assert s[p].key <= s[w].key;
        }
      }
    }
  }

  /** Sift-up stops at the root or below a strictly smaller parent, and then the heap is ordered. */
  lemma UpDone(s: seq<Entry>, v: nat)
    requires v < |s| && UpSafe(s, v)
    requires v == 0 || s[v / 2].key < s[v].key
    ensures HeapOrdered(s)
  {
  }

  /** One sift-down exchange of v with its least child u moves the defect from v to u. */
  lemma DownStep(s: seq<Entry>, v: nat, u: nat)
    requires v < u < |s| && u / 2 == v && DownSafe(s, v)
    requires forall w :: 1 <= w < |s| && w / 2 == v ==> s[u].key <= s[w].key
    requires s[u].key <= s[v].key
    ensures DownSafe(Swapped(s, v, u), u)
  {
    var t := Swapped(s, v, u);
    forall w | 1 <= w < |t| && w / 2 != u
      ensures t[w / 2].key <= t[w].key
    {
      if w == u {
      } else if w == v {
        assert s[v / 2].key <= s[u].key;
      } else if w / 2 == v {
        assert s[u].key <= s[w].key;
      }
    }
    forall w | 1 <= w < |t| && w / 2 == u
      ensures t[u / 2].key <= t[w].key
    {
      assert s[u].key <= s[w].key;
    }
  }

  /** Sift-down stops where no child of v holds a smaller stored key, and then the heap is
      ordered. */
  lemma DownDone(s: seq<Entry>, v: nat)
    requires v < |s| && DownSafe(s, v)
    requires 2 * v < |s| ==> s[v].key <= s[MinChild(s, v)].key
    ensures HeapOrdered(s)
  {
    forall w | 1 <= w < |s| && w / 2 == v ensures s[v].key <= s[w].key {
      assert 2 * v <= w;
    }
  }

  class MinHeap {
    /** The heap array of (stored key, element) pairs. */
    var nodes: seq<Entry>
    /** perm[e] is the position of element e in nodes. */
    var perm: seq<nat>
    /** 1 for a min-heap, -1 for a max-heap, whose keys are stored negated. */
    var sign: int

    /** The sign is +-1 and perm is the inverse of the element column of nodes. */
    ghost predicate Valid()
      reads this
    {
      && (sign == 1 || sign == -1)
      && |perm| == |nodes|
      && (forall e :: 0 <= e < |perm| ==> perm[e] < |nodes| && nodes[perm[e]].elem == e)
      && (forall p :: 0 <= p < |nodes| ==> nodes[p].elem < |perm| && perm[nodes[p].elem] == p)
    }

    ghost predicate Ordered()
      reads this
    {
      HeapOrdered(nodes)
    }

    ghost predicate IsMaxHeap()
      reads this
    {
      sign < 0
    }

    /** The caller-visible key of every element: the stored key with the sign undone. */
    ghost function Keys(): seq<int>
      reads this
      requires Valid()
    {
      var ns, pm, sg := nodes, perm, sign;
      seq(|pm|, e requires 0 <= e < |pm| => if pm[e] < |ns| then sg * ns[pm[e]].key else 0)
    }

    /** The condition under which MoveDown on element e returns once e's stored
        key has been raised by d: e is not at the root, or it now exceeds position 1's stored key. */
    ghost predicate SiftDownReturns(e: nat, d: int)
      reads this
      requires Valid() && e < |perm|
    {
      perm[e] != 0 || (2 <= |nodes| && nodes[0].key + d > nodes[1].key)
    }

    constructor (keys: seq<int>, asMaxHeap: bool)
      ensures Valid() && Ordered()
      ensures IsMaxHeap() == asMaxHeap
      ensures Size() == |keys| && Keys() == keys
    {
      sign := if asMaxHeap then -1 else 1;
      nodes := [];
      perm := [];
      new;
      for k := 0 to |keys|
        invariant Valid() && Ordered()
        invariant sign == if asMaxHeap then -1 else 1
        invariant Keys() == keys[..k]
      {
        Insert(keys[k]);
      }
      assert keys[..|keys|] == keys;
    }

    /** The number of elements: one key per element 0..Size()-1. */
    function Size(): (r: nat)
      reads this
      ensures Valid() ==> r == |Keys()|
    {
      |nodes|
    }

    /** The pair at the root, read back with the sign undone: a smallest key of a min-heap,
        a largest key of a max-heap. */
    function FindMin(): (r: Result<(int, nat)>)
      reads this
      requires Valid()
      ensures r.Fail? <==> Size() == 0
      ensures r.Fail? ==> r.error == OutOfBound
      ensures r.Ok? ==> r.value.1 < Size() && r.value.0 == Keys()[r.value.1]
      ensures r.Ok? && Ordered() && !IsMaxHeap() ==> forall e :: 0 <= e < Size() ==> r.value.0 <= Keys()[e]
      ensures r.Ok? && Ordered() && IsMaxHeap() ==> forall e :: 0 <= e < Size() ==> Keys()[e] <= r.value.0
    {
      if |nodes| <= 0 then Fail(OutOfBound)
      else
        RootIsMinimal(nodes);
        Ok((sign * nodes[0].key, nodes[0].elem))
    }

    function GetKey(element: nat): (r: Result<int>)
      reads this
      requires Valid()
      ensures r.Fail? <==> element >= Size()
      ensures r.Fail? ==> r.error == OutOfBound
      ensures r.Ok? ==> r.value == Keys()[element]
    {
      if element >= |nodes| then Fail(OutOfBound)
      else Ok(sign * nodes[perm[element]].key)
    }

    /** Exchanges two heap slots and the permutation entries of the two elements they hold. */
    method Exchange(i: nat, j: nat)
      requires Valid() && i < |nodes| && j < |nodes|
      modifies this`nodes, this`perm
      ensures Valid() && nodes == Swapped(old(nodes), i, j)
      ensures perm == old(perm)[old(nodes)[i].elem := j][old(nodes)[j].elem := i]
      ensures Keys() == old(Keys())
    {
      nodes := nodes[i := nodes[j]][j := nodes[i]];
      perm := perm[nodes[i].elem := perm[nodes[j].elem]][nodes[j].elem := perm[nodes[i].elem]];
    }

    /** Exchange seen from the element being sifted: it moves to position to. */
    method Carry(element: nat, to: nat)
      requires Valid() && element < |perm| && to < |nodes| && to != perm[element]
      modifies this`nodes, this`perm
      ensures Valid() && nodes == Swapped(old(nodes), old(perm[element]), to)
      ensures Keys() == old(Keys())
      ensures element < |perm| && perm[element] == to
    {
      var from := perm[element];
      assert nodes[to].elem != element by {
        assert perm[nodes[to].elem] == to;
      }
      Exchange(from, to);
    }

    /** MoveDown's choice between v's two candidate children: 2v, or 2v + 1 when that exists
        and its stored key is strictly smaller. */
    method PickChild(v: nat) returns (u: nat)
      requires 2 * v < |nodes|
      ensures u == MinChild(nodes, v)
    {
      u := 2 * v;
      if u + 1 < |nodes| {
        if nodes[u].key > nodes[u + 1].key {
          u := u + 1;
        }
      }
    }

    /** Sifts the element up while its parent's stored key is not strictly smaller. */
    method MoveUp(element: nat)
      requires Valid() && element < |perm|
      modifies this`nodes, this`perm
      ensures Valid() && |nodes| == old(|nodes|) && Keys() == old(Keys())
      ensures old(UpSafe(nodes, perm[element])) ==> Ordered()
    {
      var v := perm[element];
      ghost var safe := UpSafe(nodes, v);
      while v != 0
        invariant Valid() && |nodes| == old(|nodes|) && Keys() == old(Keys())
        invariant element < |perm| && v == perm[element] && v < |nodes|
        invariant safe ==> UpSafe(nodes, v)
        decreases v
      {
        var p := v / 2;
        if nodes[p].key < nodes[v].key {
          break;
        }
        if safe {
          UpStep(nodes, v);
        }
        Exchange(p, v);
        v := p;
      }
      if safe {
        UpDone(nodes, v);
      }
    }

    /** Sifts the element down towards its smaller child while that child's stored key is not
        strictly larger. The loop takes 2v as v's first child even at the root, so it returns
        only under SiftDownReturns(element, 0) (DownRunReturnsIff), which it requires. The
        element ends where DownRun stops. */
    method MoveDown(element: nat)
      requires Valid() && element < |perm| && SiftDownReturns(element, 0)
      modifies this`nodes, this`perm
      ensures Valid() && |nodes| == old(|nodes|) && Keys() == old(Keys())
      ensures element < |perm| && DownRun(old(nodes), old(perm[element]), |nodes|) == Stopped(perm[element])
      ensures old(DownSafe(nodes, perm[element])) ==> Ordered()
    {
      var v := perm[element];
      ghost var safe := DownSafe(nodes, v);
      ghost var run, fuel: nat := DownRun(nodes, v, |nodes|), |nodes|;
      while true
        invariant Valid() && |nodes| == old(|nodes|) && Keys() == old(Keys())
        invariant element < |perm| && v == perm[element] && v < |nodes|
        invariant v != 0 || (2 <= |nodes| && nodes[0].key > nodes[1].key)
        invariant safe ==> DownSafe(nodes, v)
        invariant fuel >= |nodes| - v
        invariant run == DownRun(nodes, v, fuel)
        decreases |nodes| - v
      {
        var u := 2 * v;
        if u >= |nodes| {
          if safe {
            DownDone(nodes, v);
          }
          DownRunHalts(nodes, v, fuel);
          assert run == Stopped(perm[element]);
          break;
        }
        u := PickChild(v);
        assert v < u by {
          if v == 0 {
            assert nodes[0].key > nodes[1].key;
          }
        }
        if nodes[u].key > nodes[v].key {
          if safe {
            DownDone(nodes, v);
          }
          DownRunHalts(nodes, v, fuel);
          assert run == Stopped(perm[element]);
          break;
        }
        fuel := Descend(element, u, safe, run, fuel);
        v := u;
      }
    }

    /** One exchange of MoveDown's loop: the element moves to its least child u, which is not
        larger, DownRun takes the same step, and the only order defect moves down with it. */
    method Descend(element: nat, u: nat, ghost safe: bool, ghost run: Run, ghost fuel: nat) returns (ghost rest: nat)
      requires Valid() && element < |perm| && perm[element] < u
      requires 2 * perm[element] < |nodes| && u == MinChild(nodes, perm[element])
      requires nodes[u].key <= nodes[perm[element]].key
      requires safe ==> DownSafe(nodes, perm[element])
      requires fuel >= |nodes| - perm[element] && run == DownRun(nodes, perm[element], fuel)
      modifies this`nodes, this`perm
      ensures Valid() && |nodes| == old(|nodes|) && Keys() == old(Keys())
      ensures element < |perm| && perm[element] == u
      ensures safe ==> DownSafe(nodes, u)
      ensures rest >= |nodes| - u && run == DownRun(nodes, u, rest)
    {
      var v := perm[element];
      if safe {
        DownStep(nodes, v, u);
      }
      ghost var before := nodes;
      Carry(element, u);
      rest := fuel - 1;
      DownRunSteps(run, before, v, fuel, nodes, u, rest);
    }

    /** Appends element |nodes| with the given key and sifts it up. */
    method Insert(key: int)
      requires Valid() && Ordered()
      modifies this`nodes, this`perm
      ensures Valid() && Ordered()
      ensures Keys() == old(Keys()) + [key]
    {
      ghost var before := Keys();
      var n := |nodes|;
      perm := perm + [n];
      nodes := nodes + [Entry(sign * key, n)];
      assert Valid() by {
        assert forall e :: 0 <= e < n ==> perm[e] == old(perm)[e];
        assert forall p :: 0 <= p < n ==> nodes[p] == old(nodes)[p];
      }
      assert Keys() == before + [key] by {
        forall e | 0 <= e < |perm|
          ensures Keys()[e] == (before + [key])[e]
        {
          if e < n {
            assert perm[e] == old(perm)[e] && nodes[perm[e]] == old(nodes)[perm[e]];
          }
        }
      }
      assert UpSafe(nodes, n) by {
        assert forall p :: 0 <= p < n ==> nodes[p] == old(nodes)[p];
      }
      MoveUp(n);
    }

    /** Lowers the element's key by decrement, in both modes, and restores the heap. */
    method DecreaseKey(element: nat, decrement: int) returns (r: Outcome)
      requires Valid()
      requires element < |perm| && IsMaxHeap() ==> SiftDownReturns(element, decrement)
      modifies this`nodes, this`perm
      ensures Valid() && Size() == old(Size())
      ensures r == if element < old(Size()) then Success else Failure(OutOfBound)
      ensures r.Failure? ==> nodes == old(nodes) && perm == old(perm)
      ensures r.Success? ==> Keys() == old(Keys())[element := old(Keys())[element] - decrement]
      ensures old(Ordered()) && decrement >= 0 ==> Ordered()
    {
      if element >= |nodes| {
        return Failure(OutOfBound);
      }
      var v := perm[element];
      ghost var before := nodes;
      nodes := nodes[v := nodes[v].(key := nodes[v].key - sign * decrement)];
      assert Keys() == old(Keys())[element := old(Keys())[element] - decrement];
      if sign > 0 {
        if HeapOrdered(before) && decrement >= 0 {
          LoweredIsUpSafe(before, v, nodes[v].key);
        }
        MoveUp(element);
      } else {
        if HeapOrdered(before) && decrement >= 0 {
          RaisedIsDownSafe(before, v, nodes[v].key);
        }
        MoveDown(element);
      }
      r := Success;
    }

    /** Raises the element's key by increment, in both modes, and restores the heap. */
    method IncreaseKey(element: nat, increment: int) returns (r: Outcome)
      requires Valid()
      requires element < |perm| && !IsMaxHeap() ==> SiftDownReturns(element, increment)
      modifies this`nodes, this`perm
      ensures Valid() && Size() == old(Size())
      ensures r == if element < old(Size()) then Success else Failure(OutOfBound)
      ensures r.Failure? ==> nodes == old(nodes) && perm == old(perm)
      ensures r.Success? ==> Keys() == old(Keys())[element := old(Keys())[element] + increment]
      ensures old(Ordered()) && increment >= 0 ==> Ordered()
    {
      if element >= |nodes| {
        return Failure(OutOfBound);
      }
      var v := perm[element];
      ghost var before := nodes;
      nodes := nodes[v := nodes[v].(key := nodes[v].key + sign * increment)];
      assert Keys() == old(Keys())[element := old(Keys())[element] + increment];
      if sign > 0 {
        if HeapOrdered(before) && increment >= 0 {
          RaisedIsDownSafe(before, v, nodes[v].key);
        }
        MoveDown(element);
      } else {
        if HeapOrdered(before) && increment >= 0 {
          LoweredIsUpSafe(before, v, nodes[v].key);
        }
        MoveUp(element);
      }
      r := Success;
    }

    /** In an ordered heap, raising e's stored key by d lets MoveDown return exactly
        when e is not at the root or some other element's stored key is below e's raised one.
        So raising the root element of a one-element heap, or raising the root by 0, never returns. */
    lemma SiftDownReturnsIff(e: nat, d: int)
      requires Valid() && Ordered() && e < |perm|
      ensures SiftDownReturns(e, d)
          <==> perm[e] != 0 || exists f :: 0 <= f < |perm| && f != e && nodes[perm[f]].key < nodes[perm[e]].key + d
    {
      if perm[e] == 0 {
        if 2 <= |nodes| && nodes[0].key + d > nodes[1].key {
          var f := nodes[1].elem;
          assert perm[f] == 1;
        }
        if exists f :: 0 <= f < |perm| && f != e && nodes[perm[f]].key < nodes[perm[e]].key + d {
          var f :| 0 <= f < |perm| && f != e && nodes[perm[f]].key < nodes[perm[e]].key + d;
          SecondIsMinimumBelowRoot(nodes, perm[f]);
        }
      }
    }
  }

  /** The library test's raising loop: IncreaseKey(j, d) for every element j below n of a
      min-heap. Each call returns as long as the last element, never raised, keeps a key below
      the raised element's new key; then exactly those n keys go up by d and the heap stays
      ordered. */
  method RaiseFirst(h: MinHeap, n: nat, d: int)
    requires h.Valid() && h.Ordered() && !h.IsMaxHeap() && n < h.Size() && d >= 0
    requires forall j :: 0 <= j < n ==> h.Keys()[h.Size() - 1] < h.Keys()[j] + d
    modifies h
    ensures h.Valid() && h.Ordered() && !h.IsMaxHeap() && h.Size() == old(h.Size())
    ensures forall j :: 0 <= j < h.Size() ==> h.Keys()[j] == old(h.Keys())[j] + (if j < n then d else 0)
  {
    ghost var K := h.Keys();
    var last := h.Size() - 1;
    for i := 0 to n
      invariant h.Valid() && h.Ordered() && !h.IsMaxHeap() && h.Size() == |K|
      invariant forall j :: 0 <= j < |K| ==> h.Keys()[j] == K[j] + (if j < i then d else 0)
    {
      h.SiftDownReturnsIff(i, d);
      assert h.nodes[h.perm[last]].key == h.Keys()[last];
      assert h.nodes[h.perm[i]].key == h.Keys()[i];
      var r := h.IncreaseKey(i, d);
    }
  }

  /** The first half of the library's min-heap test on the keys 0..999: the minimum is element
      0, and lowering 655 by 656 makes it the minimum at -1. */
  method LowerScenario() returns (h: MinHeap, first: Result<(int, nat)>, second: Result<(int, nat)>)
    ensures fresh(h) && h.Valid() && h.Ordered() && !h.IsMaxHeap() && h.Size() == 1000
    ensures h.Keys() == seq(1000, j => if j == 655 then -1 else j)
    ensures first == Ok((0, 0))
    ensures second == Ok((-1, 655))
  {
    var keys := seq(1000, i => i);
    h := new MinHeap(keys, false);
    first := h.FindMin();
    assert first.value.0 <= h.Keys()[0] == 0;
    var r := h.DecreaseKey(655, 656);
    second := h.FindMin();
    assert second.value.0 <= h.Keys()[655] == -1;
  }

  /** The whole test: after the first half, raising 0..700 by 1024 leaves 701 the minimum. */
  method HeapScenario() returns (first: Result<(int, nat)>, second: Result<(int, nat)>, third: Result<(int, nat)>)
    ensures first == Ok((0, 0))
    ensures second == Ok((-1, 655))
    ensures third == Ok((701, 701))
  {
    var h;
    h, first, second := LowerScenario();
    RaiseFirst(h, 701, 1024);
    third := h.FindMin();
    assert third.value.0 <= h.Keys()[701] == 701;
  }
}
