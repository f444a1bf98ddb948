/**
 * cut::AdjacencyList and cut::CompatAdjacencyList: two implementations of one
 * read interface (NumNodes, NumConnections, NumAdjacents, GetAdjacent) over a
 * map from node indices 0..NumNodes()-1 to sequences of integers.
 *
 * AdjacencyList is a vector of vectors edited in place; every edit checks its
 * indices (OutOfBound) and its domain condition (Assertion) before writing, so
 * a failed edit changes nothing. NumConnections is a count cached by the
 * constructors and never updated by an edit.
 *
 * CompactAdjacencyList is read-only and keeps the lists in CSR form: a flat
 * array of adjacents and an offset array with one entry more than there are
 * nodes. Both generic conversions, each class built from the other through
 * the read interface, are modelled; Lists() is the common view.
 */
module AdjacencyLists {
  import opened Outcomes
  import opened AdjacencySpec

  class AdjacencyList {
    /** Node i's adjacents, in order. */
    var adj: seq<seq<int>>
    /** The connection count fixed by the constructor. */
    var nConnections: int

    /** No node lists the same adjacent twice: what every edit preserves. */
    ghost predicate NoRepeatedAdjacents()
      reads this
    {
      forall i :: 0 <= i < |adj| ==> NoRepeats(adj[i])
    }

    /** n nodes with empty lists and no connections. */
    constructor (n: int)
      requires n >= 0
      ensures adj == seq(n, _ => []) && nConnections == 0
      ensures NoRepeatedAdjacents()
    {
      adj := seq(n, _ => []);
      nConnections := 0;
    }

    /** The list of a pair list: NodeCount(C) nodes, node i holding the distinct seconds of its
        pairs in order of first occurrence (a repeated pair is dropped by the failing
        AddAdjacent the loop ignores), and NumConnections the raw number of pairs. A negative
        first value would index the per-node counters out of range unless no node is built. */
    constructor FromConnections(C: seq<Connection>)
      requires NodeCount(C) == 0 || forall k :: 0 <= k < |C| ==> C[k].0 >= 0
      ensures adj == PairLists(C, NodeCount(C))
      ensures nConnections == |C|
      ensures NoRepeatedAdjacents()
    {
      var n := CountNodes(C);
      nConnections := |C|;
      adj := seq(n, _ => []);
      new;
      if n == 0 {
        return;
      }
      AddConnections(C);
    }

    /** The pair-list constructor's last pass: AddAdjacent for every pair in order, a pair it
        refuses (out of range, or already listed) skipped. */
    method AddConnections(C: seq<Connection>)
      requires forall i :: 0 <= i < |adj| ==> adj[i] == []
      modifies this`adj
      ensures adj == PairLists(C, |old(adj)|)
    {
      var n := |adj|;
      assert adj == PairLists(C[..0], n);
      for k := 0 to |C|
        invariant adj == PairLists(C[..k], n)
      {
        PairListsStep(C, k, n);
        var ignored := AddAdjacent(C[k].0, C[k].1);
      }
      assert C[..|C|] == C;
    }

    /** The pair-list constructor's first pass: one past the largest first value, at least 0. */
    static method CountNodes(C: seq<Connection>) returns (n: int)
      ensures n == NodeCount(C)
    {
      n := 0;
      for k := 0 to |C|
        invariant n == NodeCount(C[..k])
      {
        assert C[..k + 1][..k] == C[..k];
        if C[k].0 + 1 > n {
          n := C[k].0 + 1;
        }
      }
      assert C[..|C|] == C;
    }

    /** The generic conversion from a compact list: the same lists node by node, and the
        source's connection count. */
    constructor FromCompact(src: CompactAdjacencyList)
      requires src.Valid()
      ensures adj == src.Lists()
      ensures nConnections == src.NumConnections() == TotalLength(adj)
    {
      var lists := Unpack(src);
      nConnections := src.NumConnections();
      adj := lists;
    }

    /** The generic conversion's reading pass: node by node, each list read one adjacent at a
        time. */
    static method Unpack(src: CompactAdjacencyList) returns (lists: seq<seq<int>>)
      requires src.Valid()
      ensures lists == src.Lists()
    {
      var n := src.NumNodes();
      lists := [];
      for i := 0 to n
        invariant lists == src.Lists()[..i]
      {
        lists := UnpackAt(src, i, lists);
      }
      assert src.Lists()[..n] == src.Lists();
    }

    /** One step of Unpack's loop: node i's list read and added after the earlier ones. */
    static method UnpackAt(src: CompactAdjacencyList, i: int, lists: seq<seq<int>>) returns (lists': seq<seq<int>>)
      requires src.Valid() && 0 <= i < src.NumNodes() && lists == src.Lists()[..i]
      ensures lists' == src.Lists()[..i + 1]
    {
      ghost var L := src.Lists();
      assert L[..i + 1] == L[..i] + [L[i]];
      var row := CompactAdjacencyList.AppendRow(src, i, []);
      assert row == L[i];
      lists' := lists + [row];
    }

    /** The copy constructor applied to another AdjacencyList: the same-class shortcut copies
        the lists and the count, and then, having no return, the generic loop appends every
        list to itself once more. */
    constructor CopyOf(src: AdjacencyList)
      ensures |adj| == |src.adj|
      ensures forall i :: 0 <= i < |adj| ==> adj[i] == src.adj[i] + src.adj[i]
      ensures nConnections == src.nConnections
      ensures forall i :: 0 <= i < |adj| && |src.adj[i]| > 0 ==> !NoRepeats(adj[i])
    {
      var lists := src.adj;
      var n := src.NumNodes();
      for i := 0 to n
        invariant |lists| == n
        invariant forall t :: 0 <= t < n ==> lists[t] == if t < i then src.adj[t] + src.adj[t] else src.adj[t]
      {
        var na := src.NumAdjacents(i).value;
        var row := lists[i];
        for j := 0 to na
          invariant row == src.adj[i] + src.adj[i][..j]
        {
          row := row + [src.GetAdjacent(i, j).value];
        }
        assert src.adj[i][..na] == src.adj[i];
        lists := lists[i := row];
      }
      forall i | 0 <= i < n && |src.adj[i]| > 0 ensures !NoRepeats(lists[i]) {
        assert lists[i][0] == lists[i][|src.adj[i]|];
      }
      nConnections := src.NumConnections();
      adj := lists;
    }

    /** The number of node lists; the valid node indices are 0..NumNodes()-1. */
    function NumNodes(): (r: int)
      reads this
      ensures r >= 0 && r == |adj|
    {
      |adj|
    }

    /** The count fixed by the constructor, which no edit updates: it need not be the number
        of adjacents the lists hold. */
    function NumConnections(): (r: int)
      reads this
      ensures r == nConnections
    {
      nConnections
    }

    /** Node i's degree; OutOfBound unless 0 <= i < NumNodes(). */
    function NumAdjacents(i: int): (r: Result<int>)
      reads this
      ensures r.Fail? <==> !(0 <= i < NumNodes())
      ensures r.Fail? ==> r.error == OutOfBound
      ensures r.Ok? ==> r.value == |adj[i]|
    {
      if i < 0 || i >= |adj| then Fail(OutOfBound)
      else Ok(|adj[i]|)
    }

    /** The adjacent at position k of node i; OutOfBound unless both are in range. */
    function GetAdjacent(i: int, k: int): (r: Result<int>)
      reads this
      ensures r.Fail? <==> !(0 <= i < NumNodes() && 0 <= k < |adj[i]|)
      ensures r.Fail? ==> r.error == OutOfBound
      ensures r.Ok? ==> r.value == adj[i][k] && r.value in adj[i]
    {
      if i < 0 || i >= |adj| then Fail(OutOfBound)
      else if k < 0 || k >= |adj[i]| then Fail(OutOfBound)
      else Ok(adj[i][k])
    }

    /** Appends an empty list; the new node's index is the old NumNodes(). */
    method AddNode()
      modifies this`adj
      ensures adj == old(adj) + [[]]
      ensures old(NoRepeatedAdjacents()) ==> NoRepeatedAdjacents()
    {
      adj := adj + [[]];
    }

    /** Inserts an empty list at index i; the nodes from i on move up by one, lists intact. */
    method InsertNode(i: int) returns (r: Outcome)
      modifies this`adj
      ensures r == if 0 <= i < |old(adj)| then Success else Failure(OutOfBound)
      ensures r.Success? ==> adj == InsertAt(old(adj), i, [])
      ensures r.Failure? ==> adj == old(adj)
      ensures old(NoRepeatedAdjacents()) ==> NoRepeatedAdjacents()
    {
      if i < 0 || i >= |adj| {
        return Failure(OutOfBound);
      }
      adj := adj[..i] + [[]] + adj[i..];
      r := Success;
    }

    /** Exchanges the lists of nodes i and j. */
    method SwapNodes(i: int, j: int) returns (r: Outcome)
      modifies this`adj
      ensures r == if 0 <= i < |old(adj)| && 0 <= j < |old(adj)| then Success else Failure(OutOfBound)
      ensures r.Success? ==> adj == SwapAt(old(adj), i, j)
      ensures r.Failure? ==> adj == old(adj)
      ensures old(NoRepeatedAdjacents()) ==> NoRepeatedAdjacents()
    {
      if i < 0 || i >= |adj| || j < 0 || j >= |adj| {
        return Failure(OutOfBound);
      }
      adj := adj[i := adj[j]][j := adj[i]];
      r := Success;
    }

    /** Erases node i and its list; the nodes after it move down by one, lists intact. */
    method RemoveNode(i: int) returns (r: Outcome)
      modifies this`adj
      ensures r == if 0 <= i < |old(adj)| then Success else Failure(OutOfBound)
      ensures r.Success? ==> adj == RemoveAt(old(adj), i)
      ensures r.Failure? ==> adj == old(adj)
      ensures old(NoRepeatedAdjacents()) ==> NoRepeatedAdjacents()
    {
      if i < 0 || i >= |adj| {
        return Failure(OutOfBound);
      }
      adj := adj[..i] + adj[i + 1..];
      r := Success;
    }

    /** Appends j to node i's list; Assertion if j is already there. */
    method AddAdjacent(i: int, j: int) returns (r: Outcome)
      modifies this`adj
      ensures r == if !(0 <= i < |old(adj)|) then Failure(OutOfBound)
                   else if j in old(adj)[i] then Failure(Assertion)
                   else Success
      ensures r.Success? ==> adj == old(adj)[i := old(adj)[i] + [j]]
      ensures r.Failure? ==> adj == old(adj)
      ensures old(NoRepeatedAdjacents()) ==> NoRepeatedAdjacents()
    {
      if i < 0 || i >= |adj| {
        return Failure(OutOfBound);
      }
      if IndexOf(adj[i], j) != |adj[i]| {
        return Failure(Assertion);
      }
      if NoRepeats(adj[i]) {
        EditsKeepNoRepeats(adj[i], 0, j);
      }
      adj := adj[i := adj[i] + [j]];
      r := Success;
    }

    /** Inserts j at position k of node i's list, later adjacents shifted up. k must name an
        existing position, so this never appends and never fills an empty list. */
    method InsertAdjacent(i: int, j: int, k: int) returns (r: Outcome)
      modifies this`adj
      ensures r == if !(0 <= i < |old(adj)|) then Failure(OutOfBound)
                   else if !(0 <= k < |old(adj)[i]|) then Failure(OutOfBound)
                   else if j in old(adj)[i] then Failure(Assertion)
                   else Success
      ensures r.Success? ==> adj == old(adj)[i := InsertAt(old(adj)[i], k, j)]
      ensures r.Failure? ==> adj == old(adj)
      ensures old(NoRepeatedAdjacents()) ==> NoRepeatedAdjacents()
    {
      if i < 0 || i >= |adj| {
        return Failure(OutOfBound);
      }
      if k < 0 || k >= |adj[i]| {
        return Failure(OutOfBound);
      }
      if IndexOf(adj[i], j) != |adj[i]| {
        return Failure(Assertion);
      }
      if NoRepeats(adj[i]) {
        EditsKeepNoRepeats(adj[i], k, j);
      }
      adj := adj[i := adj[i][..k] + [j] + adj[i][k..]];
      r := Success;
    }

    /** Overwrites position k of node i's list with j. Writing the value already there is
        accepted and changes nothing; otherwise Assertion if j occurs anywhere in the list. */
    method UpdateAdjacent(i: int, j: int, k: int) returns (r: Outcome)
      modifies this`adj
      ensures r == if !(0 <= i < |old(adj)|) then Failure(OutOfBound)
                   else if !(0 <= k < |old(adj)[i]|) then Failure(OutOfBound)
                   else if old(adj)[i][k] != j && j in old(adj)[i] then Failure(Assertion)
                   else Success
      ensures r.Success? ==> adj == old(adj)[i := old(adj)[i][k := j]]
      ensures r.Failure? ==> adj == old(adj)
      ensures old(NoRepeatedAdjacents()) ==> NoRepeatedAdjacents()
    {
      if i < 0 || i >= |adj| {
        return Failure(OutOfBound);
      }
      if k < 0 || k >= |adj[i]| {
        return Failure(OutOfBound);
      }
      if adj[i][k] == j {
        assert adj[i][k := j] == adj[i];
        return Success;
      }
      if IndexOf(adj[i], j) != |adj[i]| {
        return Failure(Assertion);
      }
      if NoRepeats(adj[i]) {
        EditsKeepNoRepeats(adj[i], k, j);
      }
      adj := adj[i := adj[i][k := j]];
      r := Success;
    }

    /** Replaces the first occurrence of j in node i's list by k. Checks that k is absent
        before checking that j is present, so replacing a value by itself always fails. */
    method ReplaceAdjacent(i: int, j: int, k: int) returns (r: Outcome)
      modifies this`adj
      ensures r == if !(0 <= i < |old(adj)|) then Failure(OutOfBound)
                   else if k in old(adj)[i] then Failure(Assertion)
                   else if j !in old(adj)[i] then Failure(Assertion)
                   else Success
      ensures r.Success? ==> adj == old(adj)[i := old(adj)[i][IndexOf(old(adj)[i], j) := k]]
      ensures r.Failure? ==> adj == old(adj)
      ensures j == k ==> r.Failure?
      ensures old(NoRepeatedAdjacents()) ==> NoRepeatedAdjacents()
    {
      if i < 0 || i >= |adj| {
        return Failure(OutOfBound);
      }
      if IndexOf(adj[i], k) != |adj[i]| {
        return Failure(Assertion);
      }
      var pos := IndexOf(adj[i], j);
      if pos == |adj[i]| {
        return Failure(Assertion);
      }
      if NoRepeats(adj[i]) {
        EditsKeepNoRepeats(adj[i], pos, k);
      }
      adj := adj[i := adj[i][pos := k]];
      r := Success;
    }

    /** Erases position k of node i's list, later adjacents shifted down. */
    method RemoveAdjacent(i: int, k: int) returns (r: Outcome)
      modifies this`adj
      ensures r == if !(0 <= i < |old(adj)|) then Failure(OutOfBound)
                   else if !(0 <= k < |old(adj)[i]|) then Failure(OutOfBound)
                   else Success
      ensures r.Success? ==> adj == old(adj)[i := RemoveAt(old(adj)[i], k)]
      ensures r.Failure? ==> adj == old(adj)
      ensures old(NoRepeatedAdjacents()) ==> NoRepeatedAdjacents()
    {
      if i < 0 || i >= |adj| {
        return Failure(OutOfBound);
      }
      if k < 0 || k >= |adj[i]| {
        return Failure(OutOfBound);
      }
      if NoRepeats(adj[i]) {
        EditsKeepNoRepeats(adj[i], k, 0);
      }
      adj := adj[i := adj[i][..k] + adj[i][k + 1..]];
      r := Success;
    }
  }

  class CompactAdjacencyList {
    /** All adjacents, node after node. */
    var adj: seq<int>
    /** Node i's adjacents are adj[idx[i]..idx[i + 1]]. */
    var idx: seq<int>

    /** The CSR offset invariant. A moved-from list has no offsets and is not valid. */
    ghost predicate Valid()
      reads this
    {
      IsCsr(adj, idx)
    }

    /** The offsets ascend and point into the flat array, so every node's slice lies inside it:
        all GetAdjacent needs to read without fault. Valid layouts have it, and so do moved-from
        lists and the doubled copies CopyOf builds. */
    ghost predicate SlicesInRange()
      reads this
    {
      forall p, q :: 0 <= p <= q < |idx| ==> 0 <= idx[p] <= idx[q] <= |adj|
    }

    /** The lists the layout stands for. */
    ghost function Lists(): seq<seq<int>>
      reads this
      requires Valid()
    {
      Slices(adj, idx)
    }

    /** The list of a non-empty pair list whose largest first value is not negative: the pairs
        sorted, NumNodes() one past the last first value, and node i's adjacents the seconds
        filed under i in sorted order, repeats kept (see BucketOfSorted, BucketAscending). A
        node with no pair gets an empty slice. An empty pair list, or one whose first values
        are all negative, makes the C++ code read or write outside its arrays. */
    constructor FromConnections(C: seq<Connection>)
      requires NodeCount(C) >= 1
      ensures Valid()
      ensures NumNodes() == NodeCount(C) && NumConnections() == |C|
      ensures adj == Seconds(SortConnections(C))
      ensures Lists() == seq(NodeCount(C), i requires 0 <= i < NodeCount(C) => Bucket(SortConnections(C), i))
    {
      var conns := SortConnections(C);
      SortedNodeCount(C);
      var nNodes := conns[|conns| - 1].0 + 1;
      var a, x := Layout(conns, nNodes);
      assert |a| == |conns| == |C| by {
        assert multiset(conns) == multiset(C);
      }
      LastHasLargestFirst(conns);
      CsrOfSorted(conns, nNodes);
      SlicesOfSorted(conns, nNodes);
      adj := a;
      idx := x;
    }

    /** The pair-list constructor's filling pass over the sorted pairs: a cursor on the current
        node moves forward to each pair's node, closing the offsets it passes, and the pair's
        second is appended. A negative first value stays with node 0. */
    static method Layout(conns: seq<Connection>, nNodes: int) returns (a: seq<int>, x: seq<int>)
      requires LexSorted(conns) && |conns| > 0 && nNodes == conns[|conns| - 1].0 + 1 >= 1
      ensures a == Seconds(conns)
      ensures x == seq(nNodes + 1, t requires 0 <= t <= nNodes => CountBelow(conns, t))
    {
      LastHasLargestFirst(conns);
      a := [];
      x := seq(nNodes + 1, _ => 0);
      var cur := 0;
      for i := 0 to |conns|
        invariant 0 <= cur < nNodes && |x| == nNodes + 1
        invariant i == 0 ==> cur == 0
        invariant i > 0 ==> cur == Owner(conns[i - 1].0)
        invariant a == Seconds(conns[..i])
        invariant Filled(conns, i, cur, x)
      {
        if i > 0 {
          assert LexLe(conns[i - 1], conns[i]);
        }
        cur, x := FileAt(conns, i, cur, x);
        a := a + [conns[i].1];
      }
      assert conns[..|conns|] == conns;
      FilledAll(conns, cur, x, nNodes);
    }

    /** One pair of Layout's loop: the cursor moves up to the pair's node, closing every
        offset it passes at the running count, and the pair is counted in the open offset. */
    static method FileAt(conns: seq<Connection>, i: nat, cur: nat, x: seq<int>) returns (cur': nat, x': seq<int>)
      requires i < |conns| && cur <= Owner(conns[i].0) && Owner(conns[i].0) + 2 <= |x|
      requires Filled(conns, i, cur, x)
      ensures cur' == Owner(conns[i].0) && |x'| == |x|
      ensures Filled(conns, i + 1, cur', x')
    {
      cur', x' := cur, x;
      while conns[i].0 > cur'
        invariant cur' <= Owner(conns[i].0) && |x'| == |x|
        invariant Filled(conns, i, cur', x')
        decreases conns[i].0 - cur'
      {
        AdvanceCursor(conns, i, cur', x');
        cur' := cur' + 1;
        x' := x'[cur' + 1 := x'[cur']];
      }
      FileNext(conns, i, cur', x');
      x' := x'[cur' + 1 := x'[cur' + 1] + 1];
    }

    /** The generic conversion from an editable list: offsets are the running sums of the
        degrees and the flat array the lists concatenated, so every read equals the source's. */
    constructor FromList(src: AdjacencyList)
      ensures Valid()
      ensures adj == Flatten(src.adj) && idx == Offsets(src.adj)
      ensures Lists() == src.adj
    {
      var a, x := Pack(src);
      adj := a;
      idx := x;
      new;
      FlattenIsCsr(src.adj);
    }

    /** The generic conversion's filling pass: each node's offset is the previous one plus its
        degree, and its adjacents are appended in order. */
    static method Pack(src: AdjacencyList) returns (a: seq<int>, x: seq<int>)
      ensures a == Flatten(src.adj) && x == Offsets(src.adj)
    {
      ghost var L := src.adj;
      var n := src.NumNodes();
      a := [];
      x := seq(n + 1, _ => 0);
      for i := 0 to n
        invariant |x| == n + 1
        invariant a == Flatten(L[..i])
        invariant x[..i + 1] == Offsets(L[..i])
      {
        var na := src.NumAdjacents(i).value;
        OffsetsStep(L, i);
        assert L[..i + 1][..i] == L[..i];
        assert x[i] == |Flatten(L[..i])| by {
          assert L[..i][..i] == L[..i];
        }
        ghost var before := x;
        x := x[i + 1 := x[i] + na];
        assert x[..i + 1] == before[..i + 1];
        assert x[..i + 2] == x[..i + 1] + [x[i + 1]];
        for j := 0 to na
          invariant a == Flatten(L[..i]) + L[i][..j]
        {
          a := a + [src.GetAdjacent(i, j).value];
        }
        assert L[i][..na] == L[i];
      }
      assert L[..n] == L;
      assert x[..n + 1] == x;
    }

    /** The copy constructor applied to another compact list: the same-class shortcut copies
        both arrays, and then, having no return, the generic loop rewrites every offset with the
        value it already holds and appends every adjacent once more. The reads of node i still
        see its own adjacents, but NumConnections doubles and the layout is no longer CSR. */
    constructor CopyOf(src: CompactAdjacencyList)
      requires src.Valid()
      ensures adj == src.adj + src.adj && idx == src.idx
      ensures NumConnections() == 2 * src.NumConnections()
      ensures |src.adj| > 0 ==> !Valid()
      ensures SlicesInRange()
      ensures forall i, k :: GetAdjacent(i, k) == src.GetAdjacent(i, k)
    {
      var a, x := Refill(src);
      adj := a;
      idx := x;
      new;
      ReadsAsHalf(src);
    }

    /** A layout holding src's offsets over src's flat array written twice reads, at every node
        and index, exactly what src reads: the offsets never reach the second copy. */
    lemma ReadsAsHalf(src: CompactAdjacencyList)
      requires src.Valid() && adj == src.adj + src.adj && idx == src.idx
      ensures SlicesInRange()
      ensures forall i, k :: GetAdjacent(i, k) == src.GetAdjacent(i, k)
    {
    }

    /** The generic loop run over a copy of src's own arrays: offsets rebuilt from the degrees,
        adjacents appended after the ones already copied. */
    static method Refill(src: CompactAdjacencyList) returns (a: seq<int>, x: seq<int>)
      requires src.Valid()
      ensures a == src.adj + src.adj && x == src.idx
    {
      ghost var L := src.Lists();
      var n := src.NumNodes();
      var again: seq<int> := [];
      x := src.idx;
      for i := 0 to n
        invariant x == src.idx && again == Flatten(L[..i])
      {
        x, again := RefillAt(src, i, x, again);
      }
      FlattenWhole(L);
      src.ConnectionsAreTotalLength();
      a := src.adj + again;
    }

    /** One node of Refill's loop: offset i + 1 is rewritten with the value it holds, and node
        i's adjacents are appended. */
    static method RefillAt(src: CompactAdjacencyList, i: int, x: seq<int>, again: seq<int>)
      returns (x': seq<int>, again': seq<int>)
      requires src.Valid() && 0 <= i < src.NumNodes()
      requires x == src.idx && again == Flatten(src.Lists()[..i])
      ensures x' == src.idx && again' == Flatten(src.Lists()[..i + 1])
    {
      var na := src.NumAdjacents(i).value;
      SliceLength(src.adj, src.idx, i);
      x' := x[i + 1 := x[i] + na];
      assert x' == src.idx;
      again' := AppendRow(src, i, again);
      FlattenSnoc(src.Lists(), i);
    }

    /** The generic loops' inner pass: node i's adjacents, read one by one, appended to a. */
    static method AppendRow(src: CompactAdjacencyList, i: int, a: seq<int>) returns (b: seq<int>)
      requires src.Valid() && 0 <= i < src.NumNodes()
      ensures b == a + src.Lists()[i]
    {
      var na := src.NumAdjacents(i).value;
      b := a;
      for j := 0 to na
        invariant b == a + src.Lists()[i][..j]
      {
        b := b + [src.GetAdjacent(i, j).value];
      }
      assert src.Lists()[i][..na] == src.Lists()[i];
    }

    /** The move constructor: takes both arrays over and leaves the source with none. */
    constructor Move(src: CompactAdjacencyList)
      modifies src
      ensures adj == old(src.adj) && idx == old(src.idx)
      ensures src.adj == [] && src.idx == []
      ensures src.SlicesInRange() && forall i, k :: src.GetAdjacent(i, k) == Fail(OutOfBound)
      ensures old(src.Valid()) ==> Valid() && Lists() == old(src.Lists())
    {
      adj := src.adj;
      idx := src.idx;
      new;
      src.adj := [];
      src.idx := [];
    }

    /** Move assignment: takes both arrays over from another list and leaves it with none. */
    method MoveFrom(src: CompactAdjacencyList)
      requires src != this
      modifies this, src
      ensures adj == old(src.adj) && idx == old(src.idx)
      ensures src.adj == [] && src.idx == []
      ensures src.SlicesInRange() && forall i, k :: src.GetAdjacent(i, k) == Fail(OutOfBound)
      ensures old(src.Valid()) ==> Valid() && Lists() == old(src.Lists())
    {
      adj := src.adj;
      idx := src.idx;
      src.adj := [];
      src.idx := [];
    }

    /** One less than the number of offsets: -1 for a moved-from list. */
    function NumNodes(): (r: int)
      reads this
      ensures Valid() ==> r == |Lists()|
    {
      |idx| - 1
    }

    /** The length of the flat array: in a valid layout, the number of adjacents of all nodes. */
    function NumConnections(): (r: int)
      reads this
      ensures r >= 0
      ensures Valid() ==> r == TotalLength(Lists())
    {
      if IsCsr(adj, idx) then
        FlattenSlices(adj, idx);
        FlattenLength(Lists());
        |adj|
      else
        |adj|
    }

    /** In a valid layout the flat array holds exactly the adjacents of all nodes. */
    lemma ConnectionsAreTotalLength()
      requires Valid()
      ensures NumConnections() == TotalLength(Lists())
      ensures Flatten(Lists()) == adj
    {
      FlattenSlices(adj, idx);
      FlattenLength(Lists());
    }

    /** Node i's degree, the difference of its two offsets; OutOfBound unless
        0 <= i < NumNodes(). */
    function NumAdjacents(i: int): (r: Result<int>)
      reads this
      ensures r.Fail? <==> !(0 <= i < NumNodes())
      ensures r.Fail? ==> r.error == OutOfBound
      ensures r.Ok? && Valid() ==> r.value == |Lists()[i]|
    {
      if i < 0 || i >= |idx| - 1 then Fail(OutOfBound)
      else Ok(idx[i + 1] - idx[i])
    }

    /** The adjacent at position k of node i, read from the flat array at offset idx[i] + k;
        OutOfBound unless both are in range. */
    function GetAdjacent(i: int, k: int): (r: Result<int>)
      reads this
      requires SlicesInRange()
      ensures r.Fail? <==> !(0 <= i < NumNodes() && 0 <= k < idx[i + 1] - idx[i])
      ensures r.Fail? ==> r.error == OutOfBound
      ensures r.Ok? ==> r.value == adj[idx[i] + k]
      ensures Valid() ==> (r.Fail? <==> !(0 <= i < NumNodes() && 0 <= k < |Lists()[i]|))
      ensures Valid() && r.Ok? ==> r.value == Lists()[i][k]
    {
      if i < 0 || i >= |idx| - 1 then Fail(OutOfBound)
      else if k < 0 || k >= idx[i + 1] - idx[i] then Fail(OutOfBound)
      else Ok(adj[idx[i] + k])
    }
  }

  /** Compact to editable and back gives the very same arrays. */
  method CompactRoundTrip(src: CompactAdjacencyList) returns (back: CompactAdjacencyList)
    requires src.Valid()
    ensures back.Valid()
    ensures back.adj == src.adj && back.idx == src.idx
    ensures back.Lists() == src.Lists()
  {
    var editable := new AdjacencyList.FromCompact(src);
    back := new CompactAdjacencyList.FromList(editable);
    FlattenSlices(src.adj, src.idx);
  }

  /** Editable to compact and back gives the same lists, but NumConnections becomes the total
      number of adjacents instead of the count cached at construction. */
  method EditableRoundTrip(src: AdjacencyList) returns (back: AdjacencyList)
    ensures back.adj == src.adj
    ensures back.NumConnections() == TotalLength(src.adj)
  {
    var compact := new CompactAdjacencyList.FromList(src);
    back := new AdjacencyList.FromCompact(compact);
  }

  /** The partial CSR state of the compact constructor's loop over the sorted pairs s: the
      first i pairs are filed under nodes up to cur, the offsets up to cur are final, and the
      open offset cur + 1 counts the pairs filed so far. */
  ghost predicate Filled(s: seq<Connection>, i: nat, cur: nat, x: seq<int>)
    requires i <= |s|
  {
    && cur + 1 < |x|
    && (forall k :: 0 <= k < i ==> Owner(s[k].0) <= cur)
    && (forall t :: 0 <= t <= cur ==> x[t] == CountBelow(s[..i], t))
    && x[cur + 1] == i
  }

  /** Moving the cursor to the next node closes its offset at the current count. */
  lemma AdvanceCursor(s: seq<Connection>, i: nat, cur: nat, x: seq<int>)
    requires i <= |s| && Filled(s, i, cur, x) && cur + 2 < |x|
    ensures Filled(s, i, cur + 1, x[cur + 2 := x[cur + 1]])
  {
    CountBelowAll(s[..i], cur + 1);
    CountBelowAll(s[..i], cur + 2);
  }

  /** Filing pair i under the cursor's node leaves the closed offsets as they are. */
  lemma FileNext(s: seq<Connection>, i: nat, cur: nat, x: seq<int>)
    requires i < |s| && Filled(s, i, cur, x) && Owner(s[i].0) == cur
    ensures Filled(s, i + 1, cur, x[cur + 1 := x[cur + 1] + 1])
  {
    assert s[..i + 1][..i] == s[..i];
    forall t | 0 <= t <= cur ensures CountBelow(s[..i + 1], t) == CountBelow(s[..i], t) {
    }
  }

  /** When every pair is filed and the cursor is on the last node, the offsets are complete. */
  lemma FilledAll(s: seq<Connection>, cur: nat, x: seq<int>, n: nat)
    requires Filled(s, |s|, cur, x) && |x| == n + 1 && cur + 1 == n
    ensures x == seq(n + 1, t requires 0 <= t <= n => CountBelow(s, t))
  {
    assert s[..|s|] == s;
    var y := seq(n + 1, t requires 0 <= t <= n => CountBelow(s, t));
    forall t | 0 <= t <= n ensures x[t] == y[t] {
      if t == n {
        CountBelowAll(s, n);
      }
    }
    assert x == y;
  }

  /** Offsets CountBelow(s, 0..n) over a list whose owners are all below n form a CSR layout
      over its seconds. */
  lemma CsrOfSorted(s: seq<Connection>, n: nat)
    requires n >= 1
    requires forall k :: 0 <= k < |s| ==> Owner(s[k].0) < n
    ensures IsCsr(Seconds(s), seq(n + 1, t requires 0 <= t <= n => CountBelow(s, t)))
  {
    var x := seq(n + 1, t requires 0 <= t <= n => CountBelow(s, t));
    assert x[0] == 0 by {
      CountBelowNone(s, 0);
    }
    assert x[n] == |Seconds(s)| by {
      CountBelowAll(s, n);
    }
    forall p, q | 0 <= p <= q < |x| ensures x[p] <= x[q] {
      CountBelowMonotone(s, p, q);
    }
  }

  /** For a sorted list those offsets slice its seconds into the buckets. */
  lemma SlicesOfSorted(s: seq<Connection>, n: nat)
    requires LexSorted(s) && n >= 1
    requires IsCsr(Seconds(s), seq(n + 1, t requires 0 <= t <= n => CountBelow(s, t)))
    ensures Slices(Seconds(s), seq(n + 1, t requires 0 <= t <= n => CountBelow(s, t)))
         == seq(n, i requires 0 <= i < n => Bucket(s, i))
  {
    var x := seq(n + 1, t requires 0 <= t <= n => CountBelow(s, t));
    forall i | 0 <= i < n ensures x[i] <= x[i + 1] && Seconds(s)[x[i]..x[i + 1]] == Bucket(s, i) {
      SortedSlice(s, i);
    }
  }
}
