/** dlist_sort_custom and its helpers: a bottom-up merge sort that moves nodes between two lists. */
module DlistSort {
  import opened Counting
  import opened MergeTheory
  import opened Dlist

  /** Nodes are ordered by the data they carry. */
  function ByData(cmp: (nat, nat) -> int): Order<Node, nat> { Order((x: Node) => x.data, cmp) }

  /** Two lists that share nothing. */
  ghost predicate Apart(a: List, b: List)
    reads a, b
  {
    a != b && a.head != b.head && a.head !in b.nodes && b.head !in a.nodes && forall y :: y in a.nodes ==> y !in b.nodes
  }

  /** The marker is on the last node, or on the head of an empty list. */
  ghost predicate AtEnd(l: List)
    reads l
  {
    if l.nodes == [] then l.marker == null || l.marker == l.head else l.marker == l.nodes[|l.nodes| - 1]
  }

  /** All nodes of both lists are among the given ones. */
  ghost predicate Among(a: List, b: List, all: set<Node>)
    reads a, b
  {
    (forall y :: y in a.nodes ==> y in all) && (forall y :: y in b.nodes ==> y in all)
  }

  /** dlist_move(source, dest, target, 1) when dest's marker is at its end: the node goes from
      position k of one list to the end of the other. */
  method MoveToEnd(source: List, dest: List, target: Node, ghost k: nat, ghost all: set<Node>)
    requires source.Valid() && dest.Valid() && Apart(source, dest) && AtEnd(dest) && Among(source, dest, all)
    requires k < |source.nodes| && source.nodes[k] == target
    modifies source, dest, source.head, dest.head, all
    ensures source.Valid() && dest.Valid() && Apart(source, dest) && AtEnd(dest) && Among(source, dest, all)
    ensures source.nodes == Without(old(source.nodes), k) && dest.nodes == old(dest.nodes) + [target]
  {
    hide Leads, LeadsBack, Cycle, NoDup, Without, With, Ring;
    ghost var before := source.nodes;
    RingFacts(source);
    WithoutMembers(source.head, before, k);
    label Start:
    source.Unlink(target, k);
    assert target in before && target !in source.nodes && forall y :: y in source.nodes ==> y in before;
    StillValid@Start(dest);
    InsertPosAtEnd(dest);
    WithAtEnd(dest.nodes, target);
    label Between:
    dest.InsertNode(target, true);
    StillValid@Between(source);
  }

  /** A list stays as it is while none of its objects changes. */
  twostate lemma StillValid(l: List)
    requires old(l.Valid()) && unchanged(l) && unchanged(l.head) && forall y :: y in l.nodes ==> unchanged(y)
    ensures l.Valid()
  {}

  lemma InsertPosAtEnd(l: List)
    requires l.Valid() && AtEnd(l)
    ensures l.InsertPos(true) == |l.nodes|
  {}

  lemma RingFacts(l: List)
    requires l.Valid()
    ensures NoDup(l.nodes) && l.head !in l.nodes
  {}

  lemma WithAtEnd(s: seq<Node>, x: Node)
    ensures With(s, |s|, x) == s + [x]
  {}

  // ---- Merging two runs at the front of a list ----

  /** How many nodes the second run really has: the count, or what is left of the list. */
  function RunLength(l1count: nat, l2count: nat, total: nat): nat
    requires l1count <= total
  {
    Min(l2count, total - l1count)
  }

  lemma WithoutFirst(s: seq<Node>)
    requires s != []
    ensures Without(s, 0) == s[1..]
  {}

  lemma WithoutEntries(s: seq<Node>, k: nat)
    requires k < |s|
    ensures |Without(s, k)| == |s| - 1
    ensures k > 0 ==> Without(s, k)[0] == s[0]
    ensures k < |s| - 1 ==> Without(s, k)[k] == s[k + 1]
  {}

  /** The state of a merge: the source is what is left of the two runs and then `rest`, and the
      destination still lacks their merge. */
  ghost predicate Merging(from: seq<Node>, to: seq<Node>, l1: nat, l2: nat, rest: seq<Node>, goal: seq<Node>,
                          o: Order<Node, nat>)
  {
    && l1 <= |from|
    && var n := RunLength(l1, l2, |from|);
       from[l1 + n..] == rest && to + Merge(from[..l1], from[l1..l1 + n], o) == goal
  }

  /** The turns the merge loop still takes for what is left of the two runs. */
  ghost function StepsLeft(from: seq<Node>, l1: nat, l2: nat, o: Order<Node, nat>): nat
    requires l1 <= |from|
  {
    MergeSteps(from[..l1], from[l1..l1 + RunLength(l1, l2, |from|)], o)
  }

  lemma OneRunLeft(from: seq<Node>, l1: nat, l2: nat, o: Order<Node, nat>)
    requires l1 <= |from| && (l1 == 0 || l2 == 0) && (l2 > 0 ==> l1 < |from|)
    ensures StepsLeft(from, l1, l2, o) == if l1 > 0 || l2 > 0 then 1 else 0
  {}

  lemma MergingStarts(from: seq<Node>, to: seq<Node>, l1: nat, l2: nat, o: Order<Node, nat>)
    requires l1 <= |from|
    ensures var n := RunLength(l1, l2, |from|);
            Merging(from, to, l1, l2, from[l1 + n..], to + Merge(from[..l1], from[l1..l1 + n], o), o)
  {}

  lemma SecondRunEnded(from: seq<Node>, to: seq<Node>, l1: nat, l2: nat, rest: seq<Node>, goal: seq<Node>, o: Order<Node, nat>)
    requires l1 == |from| && Merging(from, to, l1, l2, rest, goal, o)
    ensures StepsLeft(from, l1, l2, o) == StepsLeft(from, l1, 0, o) && Merging(from, to, l1, 0, rest, goal, o)
  {}

  lemma TakeFirst(nodes: seq<Node>, l1: nat, n: nat, o: Order<Node, nat>)
    requires 0 < l1 <= l1 + n <= |nodes| && (n > 0 ==> !o.After(nodes[0], nodes[l1]))
    ensures var r := Without(nodes, 0);
            && r == nodes[1..] && r[l1 - 1 + n..] == nodes[l1 + n..]
            && Merge(nodes[..l1], nodes[l1..l1 + n], o) == [nodes[0]] + Merge(r[..l1 - 1], r[l1 - 1..l1 - 1 + n], o)
            && (n > 0 ==> MergeSteps(nodes[..l1], nodes[l1..l1 + n], o)
                          == 1 + MergeSteps(r[..l1 - 1], r[l1 - 1..l1 - 1 + n], o))
  {
    hide Merge, MergeSteps;
    var r := nodes[1..];
    WithoutFirst(nodes);
    var a, b := nodes[..l1], nodes[l1..l1 + n];
    TailSlice(nodes, 0, l1, l1 + n);
    assert a[1..] == r[..l1 - 1];
    assert a[0] == nodes[0];
    if n == 0 {
      assert a == [nodes[0]] + r[..l1 - 1];
      assert b == [];
      assert r[l1 - 1..l1 - 1] == [];
      MergeNothing(a, o);
      MergeNothing(r[..l1 - 1], o);
    } else {
      assert b[0] == nodes[l1];
      MergeUnfolds(a, b, o);
    }
  }

  /** Slices behind a removed position move down by one. */
  lemma TailSlice(nodes: seq<Node>, k: nat, lo: nat, hi: nat)
    requires k < lo <= hi <= |nodes|
    ensures var r := Without(nodes, k); r[lo - 1..hi - 1] == nodes[lo..hi] && r[hi - 1..] == nodes[hi..]
  {
    var r := Without(nodes, k);
    assert forall i :: lo <= i < |nodes| ==> r[i - 1] == nodes[i];
    forall i | 0 <= i < hi - lo ensures r[lo - 1..hi - 1][i] == nodes[lo..hi][i] {
      assert r[lo - 1 + i] == nodes[lo + i];
    }
    forall i | 0 <= i < |nodes| - hi ensures r[hi - 1..][i] == nodes[hi..][i] {
      assert r[hi - 1 + i] == nodes[hi + i];
    }
  }

  lemma MergeUnfolds(a: seq<Node>, b: seq<Node>, o: Order<Node, nat>)
    requires b != []
    ensures a == [] ==> Merge(a, b, o) == b
    ensures a != [] && o.After(a[0], b[0]) ==>
              Merge(a, b, o) == [b[0]] + Merge(a, b[1..], o) && MergeSteps(a, b, o) == 1 + MergeSteps(a, b[1..], o)
    ensures a != [] && !o.After(a[0], b[0]) ==>
              Merge(a, b, o) == [a[0]] + Merge(a[1..], b, o) && MergeSteps(a, b, o) == 1 + MergeSteps(a[1..], b, o)
  {}

  lemma MergeNothing(a: seq<Node>, o: Order<Node, nat>)
    ensures Merge(a, [], o) == a == Merge([], a, o)
  {}

  lemma TakeSecond(nodes: seq<Node>, l1: nat, n: nat, o: Order<Node, nat>)
    requires 0 < n && l1 + n <= |nodes| && (l1 > 0 ==> o.After(nodes[0], nodes[l1]))
    ensures var r := Without(nodes, l1);
            && |r| == |nodes| - 1 && r[l1 + n - 1..] == nodes[l1 + n..]
            && Merge(nodes[..l1], nodes[l1..l1 + n], o) == [nodes[l1]] + Merge(r[..l1], r[l1..l1 + n - 1], o)
            && (l1 > 0 ==> MergeSteps(nodes[..l1], nodes[l1..l1 + n], o)
                           == 1 + MergeSteps(r[..l1], r[l1..l1 + n - 1], o))
  {
    hide Merge, MergeSteps;
    var r := Without(nodes, l1);
    var a, b := nodes[..l1], nodes[l1..l1 + n];
    TailSlice(nodes, l1, l1 + 1, l1 + n);
    assert b[1..] == nodes[l1 + 1..l1 + n];
    assert b[0] == nodes[l1];
    assert r[..l1] == a;
    MergeUnfolds(a, b, o);
    if l1 == 0 {
      assert a == [];
      assert b == [b[0]] + b[1..];
      MergeNothing(b[1..], o);
    } else {
      assert a[0] == nodes[0];
    }
  }

  /** The pointers the merge loop keeps: the fronts of the two runs. */
  ghost predicate Fronts(head: Node, nodes: seq<Node>, l1: nat, l1head: Node, l2head: Node) {
    l1 <= |nodes| && (l1 > 0 ==> l1head == nodes[0]) && l2head == Around(head, nodes, l1)
  }

  /** Moving the front of the first run is one step of the merge. */
  lemma FirstStep(head: Node, from: seq<Node>, to: seq<Node>, l1: nat, l2: nat, l1head: Node, l2head: Node,
                  rest: seq<Node>, goal: seq<Node>, cmp: (nat, nat) -> int)
    requires l1 > 0 && Fronts(head, from, l1, l1head, l2head)
    requires l2 > 0 && l1 < |from| ==> cmp(l1head.data, l2head.data) <= 0
    requires Merging(from, to, l1, l2, rest, goal, ByData(cmp))
    ensures Fronts(head, Without(from, 0), l1 - 1, Around(head, from, 1), l2head)
    ensures Merging(Without(from, 0), to + [l1head], l1 - 1, l2, rest, goal, ByData(cmp))
    ensures l2 > 0 && l1 < |from| ==>
              StepsLeft(from, l1, l2, ByData(cmp)) == 1 + StepsLeft(Without(from, 0), l1 - 1, l2, ByData(cmp))
  {
    hide Merge, MergeSteps, Without;
    var n := RunLength(l1, l2, |from|);
    TakeFirst(from, l1, n, ByData(cmp));
    var r := Without(from, 0);
    assert r == from[1..];
    var m := Merge(r[..l1 - 1], r[l1 - 1..l1 - 1 + n], ByData(cmp));
    assert to + ([l1head] + m) == to + [l1head] + m;
  }

  /** Moving the front of the second run is one step of the merge. */
  lemma SecondStep(head: Node, from: seq<Node>, to: seq<Node>, l1: nat, l2: nat, l1head: Node, l2head: Node,
                   rest: seq<Node>, goal: seq<Node>, cmp: (nat, nat) -> int)
    requires l2 > 0 && l1 < |from| && Fronts(head, from, l1, l1head, l2head) && head !in from
    requires l1 > 0 ==> cmp(l1head.data, l2head.data) > 0
    requires Merging(from, to, l1, l2, rest, goal, ByData(cmp))
    ensures Fronts(head, Without(from, l1), l1, l1head, Around(head, from, l1 + 1))
    ensures Around(head, from, l1 + 1) == head <==> l1 == |Without(from, l1)|
    ensures Merging(Without(from, l1), to + [l2head], l1, l2 - 1, rest, goal, ByData(cmp))
    ensures l1 > 0 ==>
              StepsLeft(from, l1, l2, ByData(cmp)) == 1 + StepsLeft(Without(from, l1), l1, l2 - 1, ByData(cmp))
  {
    hide Merge, MergeSteps, Without;
    var n := RunLength(l1, l2, |from|);
    TakeSecond(from, l1, n, ByData(cmp));
    var r := Without(from, l1);
    WithoutEntries(from, l1);
    var m := Merge(r[..l1], r[l1..l1 + n - 1], ByData(cmp));
    assert to + ([l2head] + m) == to + [l2head] + m;
  }

  /** The inner loop of _dlist_merge: merge a run of len1 nodes at the front of source with the run
      of up to len2 nodes behind it, onto the end of dest, counting its turns in 32 bits. */
  method MergeRuns(source: List, dest: List, first: Node, second: Node, len1: nat, len2: nat, cmp: (nat, nat) -> int,
                   count0: nat, ghost all: set<Node>)
    returns (mergecount: nat)
    requires source.Valid() && dest.Valid() && Apart(source, dest) && AtEnd(dest) && Among(source, dest, all)
    requires Fronts(source.head, source.nodes, len1, first, second) && (len2 > 0 ==> len1 < |source.nodes|)
    requires count0 < UINT
    modifies source, dest, source.head, dest.head, all
    ensures source.Valid() && dest.Valid() && Apart(source, dest) && AtEnd(dest) && Among(source, dest, all)
    ensures var n := RunLength(len1, len2, |old(source.nodes)|);
            && source.nodes == old(source.nodes)[len1 + n..]
            && dest.nodes == old(dest.nodes) + Merge(old(source.nodes)[..len1], old(source.nodes)[len1..len1 + n], ByData(cmp))
    ensures mergecount == (count0 + StepsLeft(old(source.nodes), len1, len2, ByData(cmp))) % UINT
    ensures len1 == 0 && len2 == 0 ==> unchanged(source, dest, source.head, dest.head, all)
  {
    hide Leads, LeadsBack, Cycle, Ring, Merge, NoDup, Without, StepsLeft, Merging, Apart, AtEnd, Among;
    var l1head, l2head := first, second;
    var l1count: nat, l2count: nat := len1, len2;
    mergecount := count0;
    ghost var steps: nat, total := 0, StepsLeft(source.nodes, len1, len2, ByData(cmp));
    ghost var n := RunLength(len1, len2, |source.nodes|);
    ghost var rest := source.nodes[len1 + n..];
    ghost var goal := dest.nodes + Merge(source.nodes[..len1], source.nodes[len1..len1 + n], ByData(cmp));
    MergingStarts(source.nodes, dest.nodes, len1, len2, ByData(cmp));
    while l1count > 0 || l2count > 0
      invariant source.Valid() && dest.Valid() && Apart(source, dest) && AtEnd(dest) && Among(source, dest, all)
      invariant Fronts(source.head, source.nodes, l1count, l1head, l2head) && (l2count > 0 ==> l1count < |source.nodes|)
      invariant Merging(source.nodes, dest.nodes, l1count, l2count, rest, goal, ByData(cmp))
      invariant mergecount == (count0 + steps) % UINT
      invariant steps + StepsLeft(source.nodes, l1count, l2count, ByData(cmp)) == total
      invariant len1 == 0 && len2 == 0 ==>
                  l1count == 0 && l2count == 0 && unchanged(source, dest, source.head, dest.head, all)
      decreases l1count + l2count
    {
      mergecount := (mergecount + 1) % UINT;
      steps := steps + 1;
      if l1count == 0 || l2count == 0 { OneRunLeft(source.nodes, l1count, l2count, ByData(cmp)); }
      if l2count > 0 && l1count > 0 {
        if cmp(l1head.data, l2head.data) > 0 {
          l2head := MoveSecond(source, dest, l1head, l2head, l1count, l2count, rest, goal, cmp, all);
          l2count := l2count - 1;
          if l2head == source.head {
            SecondRunEnded(source.nodes, dest.nodes, l1count, l2count, rest, goal, ByData(cmp));
            l2count := 0;
          }
        } else {
          l1head := MoveFirst(source, dest, l1head, l2head, l1count, l2count, rest, goal, cmp, all);
          l1count := l1count - 1;
        }
      } else if l1count > 0 {
        l1head, l1count := DrainFirst(source, dest, l1head, l2head, l1count, rest, goal, cmp, all);
        OneRunLeft(source.nodes, 0, 0, ByData(cmp));
      } else {
        l2head, l2count := DrainSecond(source, dest, l1head, l2head, l2count, rest, goal, cmp, all);
        OneRunLeft(source.nodes, 0, 0, ByData(cmp));
      }
    }
    MergedAll(source.nodes, dest.nodes, rest, goal, ByData(cmp));
    OneRunLeft(source.nodes, 0, 0, ByData(cmp));
  }

  lemma MergedAll(from: seq<Node>, to: seq<Node>, rest: seq<Node>, goal: seq<Node>, o: Order<Node, nat>)
    requires Merging(from, to, 0, 0, rest, goal, o)
    ensures from == rest && to == goal
  {}

  /** Only the first run is left. */
  method DrainFirst(source: List, dest: List, first: Node, ghost l2head: Node, len1: nat,
                    ghost rest: seq<Node>, ghost goal: seq<Node>, ghost cmp: (nat, nat) -> int, ghost all: set<Node>)
    returns (l1head: Node, l1count: nat)
    requires source.Valid() && dest.Valid() && Apart(source, dest) && AtEnd(dest) && Among(source, dest, all)
    requires Fronts(source.head, source.nodes, len1, first, l2head)
    requires Merging(source.nodes, dest.nodes, len1, 0, rest, goal, ByData(cmp))
    modifies source, dest, source.head, dest.head, all
    ensures source.Valid() && dest.Valid() && Apart(source, dest) && AtEnd(dest) && Among(source, dest, all)
    ensures l1count == 0 && Fronts(source.head, source.nodes, 0, l1head, l2head)
    ensures Merging(source.nodes, dest.nodes, 0, 0, rest, goal, ByData(cmp))
  {
    hide Leads, LeadsBack, Cycle, Ring, Merging, NoDup, Without;
    l1head, l1count := first, len1;
    while l1count > 0
      invariant source.Valid() && dest.Valid() && Apart(source, dest) && AtEnd(dest) && Among(source, dest, all)
      invariant Fronts(source.head, source.nodes, l1count, l1head, l2head)
      invariant Merging(source.nodes, dest.nodes, l1count, 0, rest, goal, ByData(cmp))
    {
      l1head := MoveFirst(source, dest, l1head, l2head, l1count, 0, rest, goal, cmp, all);
      l1count := l1count - 1;
    }
  }

  /** Only the second run is left. */
  method DrainSecond(source: List, dest: List, ghost l1head: Node, second: Node, len2: nat,
                     ghost rest: seq<Node>, ghost goal: seq<Node>, ghost cmp: (nat, nat) -> int, ghost all: set<Node>)
    returns (l2head: Node, l2count: nat)
    requires source.Valid() && dest.Valid() && Apart(source, dest) && AtEnd(dest) && Among(source, dest, all)
    requires Fronts(source.head, source.nodes, 0, l1head, second)
    requires Merging(source.nodes, dest.nodes, 0, len2, rest, goal, ByData(cmp))
    modifies source, dest, source.head, dest.head, all
    ensures source.Valid() && dest.Valid() && Apart(source, dest) && AtEnd(dest) && Among(source, dest, all)
    ensures l2count == 0 && Fronts(source.head, source.nodes, 0, l1head, l2head)
    ensures Merging(source.nodes, dest.nodes, 0, 0, rest, goal, ByData(cmp))
  {
    hide Leads, LeadsBack, Cycle, Ring, Merge, NoDup, Without;
    l2head, l2count := second, len2;
    while l2count > 0
      invariant source.Valid() && dest.Valid() && Apart(source, dest) && AtEnd(dest) && Among(source, dest, all)
      invariant Fronts(source.head, source.nodes, 0, l1head, l2head)
      invariant Merging(source.nodes, dest.nodes, 0, l2count, rest, goal, ByData(cmp))
    {
      if l2head == source.head {
        RingFacts(source);
        l2count := 0;
      } else {
        l2head := MoveSecond(source, dest, l1head, l2head, 0, l2count, rest, goal, cmp, all);
        l2count := l2count - 1;
      }
    }
  }

  /** Move the front of the first run. */
  method MoveFirst(source: List, dest: List, l1head: Node, ghost l2head: Node, ghost l1: nat, ghost l2: nat,
                   ghost rest: seq<Node>, ghost goal: seq<Node>, ghost cmp: (nat, nat) -> int, ghost all: set<Node>)
    returns (next: Node)
    requires source.Valid() && dest.Valid() && Apart(source, dest) && AtEnd(dest) && Among(source, dest, all)
    requires l1 > 0 && Fronts(source.head, source.nodes, l1, l1head, l2head)
    requires l2 > 0 && l1 < |source.nodes| ==> cmp(l1head.data, l2head.data) <= 0
    requires Merging(source.nodes, dest.nodes, l1, l2, rest, goal, ByData(cmp))
    modifies source, dest, source.head, dest.head, all
    ensures source.Valid() && dest.Valid() && Apart(source, dest) && AtEnd(dest) && Among(source, dest, all)
    ensures |source.nodes| == |old(source.nodes)| - 1
    ensures Fronts(source.head, source.nodes, l1 - 1, next, l2head)
    ensures Merging(source.nodes, dest.nodes, l1 - 1, l2, rest, goal, ByData(cmp))
    ensures l2 > 0 && l1 < |old(source.nodes)| ==>
              StepsLeft(old(source.nodes), l1, l2, ByData(cmp)) == 1 + StepsLeft(source.nodes, l1 - 1, l2, ByData(cmp))
  {
    hide Leads, LeadsBack, Cycle, Ring, Merging, NoDup, Without, StepsLeft;
    RingFacts(source);
    WithoutMembers(source.head, source.nodes, 0);
    FirstStep(source.head, source.nodes, dest.nodes, l1, l2, l1head, l2head, rest, goal, cmp);
    RingLinks(source.head, source.nodes, 0);
    next := l1head.next;
    MoveToEnd(source, dest, l1head, 0, all);
  }

  /** Move the front of the second run. */
  method MoveSecond(source: List, dest: List, ghost l1head: Node, l2head: Node, ghost l1: nat, ghost l2: nat,
                    ghost rest: seq<Node>, ghost goal: seq<Node>, ghost cmp: (nat, nat) -> int, ghost all: set<Node>)
    returns (next: Node)
    requires source.Valid() && dest.Valid() && Apart(source, dest) && AtEnd(dest) && Among(source, dest, all)
    requires l2 > 0 && l1 < |source.nodes| && Fronts(source.head, source.nodes, l1, l1head, l2head)
    requires l1 > 0 ==> cmp(l1head.data, l2head.data) > 0
    requires Merging(source.nodes, dest.nodes, l1, l2, rest, goal, ByData(cmp))
    modifies source, dest, source.head, dest.head, all
    ensures source.Valid() && dest.Valid() && Apart(source, dest) && AtEnd(dest) && Among(source, dest, all)
    ensures |source.nodes| == |old(source.nodes)| - 1
    ensures Fronts(source.head, source.nodes, l1, l1head, next) && (next == source.head <==> l1 == |source.nodes|)
    ensures Merging(source.nodes, dest.nodes, l1, l2 - 1, rest, goal, ByData(cmp))
    ensures l1 > 0 ==>
              StepsLeft(old(source.nodes), l1, l2, ByData(cmp)) == 1 + StepsLeft(source.nodes, l1, l2 - 1, ByData(cmp))
  {
    hide Leads, LeadsBack, Cycle, Ring, Merging, NoDup, Without, StepsLeft;
    RingFacts(source);
    WithoutMembers(source.head, source.nodes, l1);
    SecondStep(source.head, source.nodes, dest.nodes, l1, l2, l1head, l2head, rest, goal, cmp);
    RingLinks(source.head, source.nodes, l1);
    next := l2head.next;
    MoveToEnd(source, dest, l2head, l1, all);
  }

  // ---- One pass over a list ----

  /** One round of a pass takes the first two runs off the list. */
  lemma PassRound(s: seq<Node>, w: nat, i: nat, j: nat, o: Order<Node, nat>)
    requires w > 0 && s != [] && i == Min(w, |s|) && j == Min(2 * w, |s|)
    ensures Pass(s, w, o) == Merge(s[..i], s[i..j], o) + Pass(s[j..], w, o)
    ensures PassSteps(s, w, o) == MergeSteps(s[..i], s[i..j], o) + PassSteps(s[j..], w, o)
  {
    hide Merge, MergeSteps;
  }

  /** A turn of the outer loop of _dlist_merge: merge the first two runs of w nodes.  With a width of 0
      it moves nothing, counts nothing and leaves both lists exactly as they were -- so on a list that
      is not empty the loop then turns for ever. */
  method MergeTurn(source: List, dest: List, w: nat, cmp: (nat, nat) -> int, count0: nat, ghost all: set<Node>)
    returns (mergecount: nat)
    requires source.Valid() && dest.Valid() && Apart(source, dest) && AtEnd(dest) && Among(source, dest, all)
    requires source.nodes != [] && count0 < UINT
    modifies source, dest, source.head, dest.head, all
    ensures source.Valid() && dest.Valid() && Apart(source, dest) && AtEnd(dest) && Among(source, dest, all)
    ensures w == 0 ==> mergecount == count0 && unchanged(source, dest, source.head, dest.head, all)
    ensures var s := old(source.nodes);
            var i, j := Min(w, |s|), Min(2 * w, |s|);
            && source.nodes == s[j..] && dest.nodes == old(dest.nodes) + Merge(s[..i], s[i..j], ByData(cmp))
            && mergecount == (count0 + MergeSteps(s[..i], s[i..j], ByData(cmp))) % UINT
  {
    hide Leads, LeadsBack, Cycle, Ring, Merge, MergeSteps, NoDup;
    ghost var s := source.nodes;
    RingLinks(source.head, s, 0);
    var l1head := source.head.next;
    var l2head, l1count := CountRun(source, l1head, w);
    var l2count := if l2head == source.head then 0 else w;
    assert l2head == source.head <==> l1count == |s| by { RingFacts(source); }
    assert l1count + RunLength(l1count, l2count, |s|) == Min(2 * w, |s|);
    mergecount := MergeRuns(source, dest, l1head, l2head, l1count, l2count, cmp, count0, all);
    if w == 0 { OneRunLeft(s, 0, 0, ByData(cmp)); }
  }

  /** _dlist_merge: merge neighbouring runs of w nodes of source onto the end of dest.  It returns the
      turns of its inner loop, modulo 2^32. */
  method MergePass(source: List, dest: List, w: nat, cmp: (nat, nat) -> int, ghost all: set<Node>) returns (mergecount: nat)
    requires source.Valid() && dest.Valid() && Apart(source, dest) && AtEnd(dest) && Among(source, dest, all) && w > 0
    modifies source, dest, source.head, dest.head, all
    ensures source.Valid() && dest.Valid() && Apart(source, dest) && AtEnd(dest) && Among(source, dest, all)
    ensures source.nodes == [] && dest.nodes == old(dest.nodes) + Pass(old(source.nodes), w, ByData(cmp))
    ensures mergecount == PassSteps(old(source.nodes), w, ByData(cmp)) % UINT
  {
    hide Leads, LeadsBack, Cycle, Ring, Merge, MergeSteps, NoDup, Pass, PassSteps;
    ghost var total, goal := PassSteps(source.nodes, w, ByData(cmp)), dest.nodes + Pass(source.nodes, w, ByData(cmp));
    mergecount := 0;
    ghost var steps: nat := 0;
    while source.count > 0
      invariant source.Valid() && dest.Valid() && Apart(source, dest) && AtEnd(dest) && Among(source, dest, all)
      invariant dest.nodes + Pass(source.nodes, w, ByData(cmp)) == goal
      invariant steps + PassSteps(source.nodes, w, ByData(cmp)) == total && mergecount == steps % UINT
      decreases |source.nodes|
    {
      ghost var s, d := source.nodes, dest.nodes;
      ghost var i, j := Min(w, |s|), Min(2 * w, |s|);
      PassRound(s, w, i, j, ByData(cmp));
      mergecount := MergeTurn(source, dest, w, cmp, mergecount, all);
      Assoc(d, Merge(s[..i], s[i..j], ByData(cmp)), Pass(source.nodes, w, ByData(cmp)));
      WrappedSum(steps, MergeSteps(s[..i], s[i..j], ByData(cmp)));
      steps := steps + MergeSteps(s[..i], s[i..j], ByData(cmp));
    }
    PassNothing(w, ByData(cmp));
  }

  lemma WrappedSum(a: nat, b: nat)
    ensures (a % UINT + b) % UINT == (a + b) % UINT
  {}

  lemma PassNothing(w: nat, o: Order<Node, nat>)
    requires w > 0
    ensures Pass([], w, o) == [] && PassSteps([], w, o) == 0
  {}

  /** Walk over the first run. */
  method CountRun(source: List, l1head: Node, w: nat) returns (l2head: Node, l1count: nat)
    requires source.Valid() && source.nodes != [] && l1head == source.nodes[0]
    ensures l1count == Min(w, |source.nodes|) && l2head == Around(source.head, source.nodes, l1count)
  {
    hide Leads, LeadsBack, Cycle, NoDup;
    l2head, l1count := l1head, 0;
    while l1count < w && l2head != source.head
      invariant l1count <= w && l1count <= |source.nodes| && l2head == Around(source.head, source.nodes, l1count)
    {
      RingFacts(source);
      RingLinks(source.head, source.nodes, l1count);
      l2head := l2head.next;
      l1count := l1count + 1;
    }
  }

  // ---- The whole sort ----

  /** Hanging a list's nodes on another head relinks the first and the last of them. */
  lemma LeadsRehomed(head: Node, other: Node, nodes: seq<Node>, nx: Links)
    requires NoDup(nodes) && nodes != [] && head !in nodes && other !in nodes && Leads(Cycle(other, nodes), nx)
    ensures Leads(Cycle(head, nodes), nx[head := nodes[0]][nodes[|nodes| - 1] := head])
  {
    var c, d, last := Cycle(other, nodes), Cycle(head, nodes), |nodes|;
    var nx' := nx[head := nodes[0]][nodes[last - 1] := head];
    assert Covers(d, nx') by { assert forall y :: y in nodes ==> y in c; }
    forall i | 0 <= i < |d| - 1 ensures nx'[d[i]] == d[i + 1] {
      if 0 < i < last {
        assert c[i] == nodes[i - 1] == d[i] && c[i + 1] == nodes[i] == d[i + 1] && nodes[i - 1] != nodes[last - 1];
        assert nx[c[i]] == c[i + 1];
      } else if i == last {
        assert d[i] == nodes[last - 1] && d[i + 1] == head;
      } else {
        assert d[0] == head && d[1] == nodes[0];
      }
    }
  }

  lemma LeadsBackRehomed(head: Node, other: Node, nodes: seq<Node>, pv: Links)
    requires NoDup(nodes) && nodes != [] && head !in nodes && other !in nodes && LeadsBack(Cycle(other, nodes), pv)
    ensures LeadsBack(Cycle(head, nodes), pv[head := nodes[|nodes| - 1]][nodes[0] := head])
  {
    var c, d, last := Cycle(other, nodes), Cycle(head, nodes), |nodes|;
    var pv' := pv[head := nodes[last - 1]][nodes[0] := head];
    assert Covers(d, pv') by { assert forall y :: y in nodes ==> y in c; }
    forall i | 0 < i < |d| ensures pv'[d[i]] == d[i - 1] {
      if 1 < i <= last {
        assert c[i] == nodes[i - 1] == d[i] && c[i - 1] == nodes[i - 2] == d[i - 1] && nodes[i - 1] != nodes[0];
        assert pv[c[i]] == c[i - 1];
      } else if i == 1 {
        assert d[1] == nodes[0] && d[0] == head;
      } else {
        assert d[i] == head && d[i - 1] == nodes[last - 1];
      }
    }
  }

  lemma Rehomed(head: Node, other: Node, nodes: seq<Node>)
    requires Ring(other, nodes) && nodes != [] && head !in nodes
    ensures NoDup(nodes) && other !in nodes && other.next == nodes[0] && other.prev == nodes[|nodes| - 1]
    ensures var first, last := nodes[0], nodes[|nodes| - 1];
            && Leads(Cycle(head, nodes), NextOf(Members(other, nodes))[head := first][last := head])
            && LeadsBack(Cycle(head, nodes), PrevOf(Members(other, nodes))[head := last][first := head])
  {
    hide Leads, LeadsBack, Cycle, NoDup;
    RingLinks(other, nodes, 0);
    LeadsRehomed(head, other, nodes, NextOf(Members(other, nodes)));
    LeadsBackRehomed(head, other, nodes, PrevOf(Members(other, nodes)));
  }

  /** The stores at the end of dlist_sort_custom, from one head node to the other. */
  method Rehang(head: Node, other: Node, ghost first: Node, ghost last: Node, ghost members: set<Node>)
    requires head != other && other.next == first && other.prev == last
    requires first != head && last != head && first != other && last != other
    modifies head, first, last, other
    ensures head.next == first && head.prev == last
    ensures forall y :: y in members && y != head && y != other ==> y.next == if y == last then head else old(y.next)
    ensures forall y :: y in members && y != head && y != other ==> y.prev == if y == first then head else old(y.prev)
    ensures other.next == null && other.prev == null
  {
    head.prev := other.prev;
    head.next := other.next;
    head.next.prev := head;
    head.prev.next := head;
    other.next, other.prev := null, null;
  }

  /** The copy at the end of dlist_sort_custom: an emptied list takes over the nodes of another. */
  method TakeOver(list: List, other: List, ghost all: set<Node>)
    requires other.Valid() && Apart(list, other) && other.nodes != []
    requires AtEnd(other) && Among(list, other, all)
    modifies list, other, list.head, other.head, all
    ensures list.Valid() && list.nodes == old(other.nodes)
  {
    hide Leads, LeadsBack, Cycle, NoDup, Ring;
    ghost var nodes := other.nodes;
    ghost var members := Members(other.head, nodes);
    ghost var nx, pv := NextOf(members), PrevOf(members);
    ghost var first, last := nodes[0], nodes[|nodes| - 1];
    Rehomed(list.head, other.head, nodes);
    list.marker := other.marker;
    list.count := other.count;
    Rehang(list.head, other.head, first, last, members);
    other.count := 0;
    RingAgrees(list.head, nodes, nx[list.head := first][last := list.head], pv[list.head := last][first := list.head]);
    list.nodes, other.nodes := nodes, [];
  }

  /** The loop of dlist_sort_custom: passes of doubling width between the two lists, until a pass
      reports no step.  Whenever it ends it leaves what SortLoop says in the list it returns. */
  method Passes(list: List, temp: List, cmp: (nat, nat) -> int, ghost all: set<Node>) returns (source: List, dest: List)
    requires list.Valid() && temp.Valid() && Apart(list, temp) && Among(list, temp, all)
    requires list.nodes != [] && temp.nodes == [] && SortLoop(list.nodes, 0, ByData(cmp)).Ends?
    modifies list, temp, list.head, temp.head, all
    ensures source.Valid() && dest.Valid() && Apart(source, dest) && AtEnd(dest) && Among(source, dest, all)
    ensures (source == list && dest == temp) || (source == temp && dest == list)
    ensures source.nodes == [] && Ends(dest.nodes) == SortLoop(old(list.nodes), 0, ByData(cmp))
  {
    hide Leads, LeadsBack, Cycle, NoDup, Ring, Pass, PassSteps, SortLoop, Width;
    ghost var o, goal := ByData(cmp), SortLoop(list.nodes, 0, ByData(cmp));
    source, dest := list, temp;
    var passcount, mergecount := 1, 1;
    ghost var finished, k: nat := false, 0;
    WidthZero();
    while mergecount > 0
      invariant (source == list && dest == temp) || (source == temp && dest == list)
      invariant source.Valid() && dest.Valid() && Apart(source, dest) && AtEnd(dest) && Among(source, dest, all)
      invariant 0 <= mergecount && (finished || mergecount != 0) && 0 < passcount
      invariant k < 32 && passcount == Width(k)
      invariant !finished ==> dest.nodes == [] && source.nodes != [] && SortLoop(source.nodes, k, o) == goal
      invariant finished ==> source.nodes == [] && mergecount <= 1 && Ends(dest.nodes) == goal
      decreases if finished then 0 else 1, if finished then mergecount else 32 - k
    {
      ghost var s := source.nodes;
      PassLength(s, passcount, o);
      PassNothing(passcount, o);
      if !finished { LoopTurn(s, k, o); }
      mergecount := MergePass(source, dest, passcount, cmp, all);
      assert !finished ==> dest.nodes == Pass(s, passcount, o);
      if mergecount > 1 {
        passcount := passcount * 2 % UINT;
        source, dest := dest, source;
        k := k + 1;
      } else {
        finished := true;
      }
    }
  }

  /** A turn of the sort's loop that ends, or goes on with a width that is not 0. */
  lemma LoopTurn(s: seq<Node>, k: nat, o: Order<Node, nat>)
    requires s != [] && k < 32 && SortLoop(s, k, o).Ends? && Width(k) > 0
    ensures var w := Width(k);
            if PassSteps(s, w, o) % UINT > 1
            then && k + 1 < 32 && SortLoop(Pass(s, w, o), k + 1, o) == SortLoop(s, k, o)
                 && Width(k + 1) == w * 2 % UINT && Width(k + 1) > 0
            else Ends(Pass(s, w, o)) == SortLoop(s, k, o)
  {
    hide Pass, PassSteps, Width;
    PassLength(s, Width(k), o);
    WidthStep(k + 1);
    WidthPositive(k + 1);
  }

  /** dlist_sort_custom, whenever it ends (SortEndsExactly: below 2^32 nodes, exactly up to 2^31 of
      them): up to 2^31 nodes it leaves the same nodes, sorted under any total preorder and with
      equivalent ones in their old order, properly linked both ways and counted. */
  method Sort(list: List, cmp: (nat, nat) -> int)
    requires list.Valid() && (list.count <= 0x8000_0000 || SortLoop(list.nodes, 0, ByData(cmp)).Ends?)
    modifies list, list.head, list.nodes
    ensures list.Valid() && list.count == old(list.count)
    ensures old(list.count) >= 2 ==> Ends(list.nodes) == SortLoop(old(list.nodes), 0, ByData(cmp))
    ensures multiset(list.nodes) == multiset(old(list.nodes))
    ensures old(list.count) <= 0x8000_0000 && TotalPreorder(cmp) ==>
              Sorted(list.nodes, ByData(cmp)) && Stable(old(list.nodes), list.nodes, ByData(cmp))
  {
    if list.count < 2 {
      return;
    }
    hide Leads, LeadsBack, Cycle, NoDup, SortFrom, SortLoop, Sorted, Stable, TotalPreorder;
    ghost var s0, all := list.nodes, set y | y in list.nodes;
    SortResult(s0, cmp);
    list.marker := list.head;
    var temp := new List();
    assert list.Valid();
    hide Ring;
    var source, dest := Passes(list, temp, cmp, all);
    if list.count == 0 {
      TakeOver(list, dest, all);
    }
  }

  lemma SortResult(s: seq<Node>, cmp: (nat, nat) -> int)
    ensures |s| <= 0x8000_0000 ==> SortLoop(s, 0, ByData(cmp)).Ends?
    ensures SortLoop(s, 0, ByData(cmp)).Ends? ==>
              var r := SortLoop(s, 0, ByData(cmp)).result;
              && |r| == |s| && multiset(r) == multiset(s)
              && (|s| <= 0x8000_0000 && TotalPreorder(cmp) ==> Sorted(r, ByData(cmp)) && Stable(s, r, ByData(cmp)))
  {
    hide SortFrom, SortLoop, Sorted, Stable, TotalPreorder;
    SortLoopPermutes(s, 0, ByData(cmp));
    if |s| <= 0x8000_0000 {
      SortEndsExactly(s, ByData(cmp));
      if TotalPreorder(cmp) { SortIsStableSort(s, ByData(cmp)); }
    }
  }

  // ---- Sorted insertion ----

  /** The sorter of dlist_insert_sorted fits the order: it says yes only when its first argument may
      come first, and no only when the other may. */
  ghost predicate Fits(precedes: (nat, nat) -> bool, cmp: (nat, nat) -> int) {
    forall a, b :: if precedes(a, b) then cmp(a, b) <= 0 else cmp(b, a) <= 0
  }

  lemma {:induction false} PassedNodes(nodes: seq<Node>, d: nat, precedes: (nat, nat) -> bool)
    ensures var k := Passed(nodes, d, precedes);
            && (forall i :: 0 <= i < k ==> !precedes(d, nodes[i].data))
            && (k < |nodes| ==> precedes(d, nodes[k].data))
  {
    if nodes != [] && !precedes(d, nodes[0].data) {
      PassedNodes(nodes[1..], d, precedes);
      assert forall i :: 0 < i < |nodes| ==> nodes[i] == nodes[1..][i - 1];
    }
  }

  /** dlist_insert_sorted keeps a sorted list sorted, under any total preorder. */
  lemma InsertSortedKeepsOrder(nodes: seq<Node>, x: Node, precedes: (nat, nat) -> bool, cmp: (nat, nat) -> int)
    requires TotalPreorder(cmp) && Fits(precedes, cmp) && Sorted(nodes, ByData(cmp))
    ensures Sorted(With(nodes, Passed(nodes, x.data, precedes), x), ByData(cmp))
  {
    hide Passed, With;
    var k, o := Passed(nodes, x.data, precedes), ByData(cmp);
    PassedNodes(nodes, x.data, precedes);
    forall i | 0 <= i < k ensures !o.After(nodes[i], x) {
      assert !precedes(x.data, nodes[i].data);
    }
    forall i | k <= i < |nodes| ensures !o.After(x, nodes[i]) {
      assert precedes(x.data, nodes[k].data);
      if i > k { assert !o.After(nodes[k], nodes[i]); }
    }
    SortedWith(nodes, k, x, o);
  }

  lemma SortedWith(nodes: seq<Node>, k: nat, x: Node, o: Order<Node, nat>)
    requires k <= |nodes| && Sorted(nodes, o)
    requires forall i :: 0 <= i < k ==> !o.After(nodes[i], x)
    requires forall i :: k <= i < |nodes| ==> !o.After(x, nodes[i])
    ensures Sorted(With(nodes, k, x), o)
  {
    var r := With(nodes, k, x);
    forall i, j | 0 <= i < j < |r| ensures !o.After(r[i], r[j]) {
      assert r[i] == if i < k then nodes[i] else if i == k then x else nodes[i - 1];
      assert r[j] == if j < k then nodes[j] else if j == k then x else nodes[j - 1];
    }
  }
}
