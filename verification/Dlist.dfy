/** The circular doubly linked list of sysfsutils, with its marker and count, relinked in place. */
module Dlist {
  import opened Counting

  // Data are addresses, as in the list's void pointers.
  class Node {
    var prev: Node?
    var next: Node?
    const data: nat

    constructor (d: nat)
      ensures data == d && prev == null && next == null
    {
      data, prev, next := d, null, null;
    }
  }

  // ---- Links as values ----

  type Links = map<Node, Node?>

  ghost function NextOf(s: set<Node>): Links reads s { map y | y in s :: y.next }

  ghost function PrevOf(s: set<Node>): Links reads s { map y | y in s :: y.prev }

  ghost predicate Distinct(c: seq<Node>, lo: nat, hi: nat)
    requires hi <= |c|
  {
    forall i, j :: lo <= i < j < hi ==> c[i] != c[j]
  }

  ghost predicate Covers(c: seq<Node>, m: Links) { forall y :: y in c ==> y in m }

  /** The links lead from each entry of c to the one after it. */
  ghost predicate Leads(c: seq<Node>, nx: Links) {
    Covers(c, nx) && forall i {:trigger nx[c[i]]} :: 0 <= i < |c| - 1 ==> nx[c[i]] == c[i + 1]
  }

  /** The links lead from each entry of c to the one before it. */
  ghost predicate LeadsBack(c: seq<Node>, pv: Links) {
    Covers(c, pv) && forall i {:trigger pv[c[i]]} :: 0 < i < |c| ==> pv[c[i]] == c[i - 1]
  }

  lemma LeadsWith(a: seq<Node>, b: seq<Node>, x: Node, nx: Links)
    requires |a| > 0 && |b| > 0 && Leads(a + b, nx) && Distinct(a + b, 0, |a + b| - 1) && x !in a + b
    ensures Leads(a + [x] + b, nx[a[|a| - 1] := x][x := b[0]])
  {
    var c, d := a + b, a + [x] + b;
    var nx' := nx[a[|a| - 1] := x][x := b[0]];
    assert Covers(d, nx');
    forall i | 0 <= i < |d| - 1 ensures nx'[d[i]] == d[i + 1] {
      if i < |a| - 1 {
        assert c[i] == d[i] && c[i + 1] == d[i + 1] && c[i] != c[|a| - 1];
        assert nx[c[i]] == c[i + 1];
      } else if i > |a| {
        assert c[i - 1] == d[i] && c[i] == d[i + 1] && c[i - 1] != c[|a| - 1];
        assert nx[c[i - 1]] == c[i];
      }
    }
  }

  lemma LeadsBackWith(a: seq<Node>, b: seq<Node>, x: Node, pv: Links)
    requires |a| > 0 && |b| > 0 && LeadsBack(a + b, pv) && Distinct(a + b, 1, |a + b|) && x !in a + b
    ensures LeadsBack(a + [x] + b, pv[b[0] := x][x := a[|a| - 1]])
  {
    var c, d := a + b, a + [x] + b;
    var pv' := pv[b[0] := x][x := a[|a| - 1]];
    assert Covers(d, pv') && c[|a|] == b[0];
    forall i | 0 < i < |d| ensures pv'[d[i]] == d[i - 1] {
      if i < |a| {
        assert c[i] == d[i] && c[i - 1] == d[i - 1];
        assert pv[c[i]] == c[i - 1];
      } else if i > |a| + 1 {
        assert c[i - 1] == d[i] && c[i - 2] == d[i - 1];
        assert pv[c[i - 1]] == c[i - 2];
      }
    }
  }

  lemma LeadsWithout(a: seq<Node>, b: seq<Node>, x: Node, nx: Links)
    requires |a| > 0 && |b| > 0 && Leads(a + [x] + b, nx) && Distinct(a + b, 0, |a + b| - 1)
    ensures Leads(a + b, nx[a[|a| - 1] := b[0]])
  {
    var c, d := a + b, a + [x] + b;
    var nx' := nx[a[|a| - 1] := b[0]];
    assert Covers(c, nx');
    forall i | 0 <= i < |c| - 1 ensures nx'[c[i]] == c[i + 1] {
      if i < |a| - 1 {
        assert c[i] == d[i] && c[i + 1] == d[i + 1] && c[i] != c[|a| - 1];
        assert nx[d[i]] == d[i + 1];
      } else if i >= |a| {
        assert c[i] == d[i + 1] && c[i + 1] == d[i + 2] && c[i] != c[|a| - 1];
        assert nx[d[i + 1]] == d[i + 2];
      }
    }
  }

  lemma LeadsBackWithout(a: seq<Node>, b: seq<Node>, x: Node, pv: Links)
    requires |a| > 0 && |b| > 0 && LeadsBack(a + [x] + b, pv) && Distinct(a + b, 1, |a + b|)
    ensures LeadsBack(a + b, pv[b[0] := a[|a| - 1]])
  {
    var c, d := a + b, a + [x] + b;
    var pv' := pv[b[0] := a[|a| - 1]];
    assert Covers(c, pv') && c[|a|] == b[0];
    forall i | 0 < i < |c| ensures pv'[c[i]] == c[i - 1] {
      if i < |a| {
        assert c[i] == d[i] && c[i - 1] == d[i - 1];
        assert pv[d[i]] == d[i - 1];
      } else if i > |a| {
        assert c[i] == d[i + 1] && c[i - 1] == d[i];
        assert pv[d[i + 1]] == d[i];
      }
    }
  }

  // ---- Lists ----

  /** Once around the list from the head. */
  ghost function Cycle(head: Node, nodes: seq<Node>): seq<Node> { [head] + nodes + [head] }

  ghost function Members(head: Node, nodes: seq<Node>): set<Node> { (set y | y in nodes) + {head} }

  /** `next` visits the nodes in order and comes back to the head, and `prev` is its inverse; a list
      that is empty may instead have null links. */
  ghost predicate Ring(head: Node, nodes: seq<Node>)
    reads head, nodes
  {
    && NoDup(nodes) && head !in nodes
    && ( || (nodes == [] && head.next == null && head.prev == null)
         || (&& Leads(Cycle(head, nodes), NextOf(Members(head, nodes)))
             && LeadsBack(Cycle(head, nodes), PrevOf(Members(head, nodes)))))
  }

  /** The i-th node counted from the head, going around. */
  ghost function Around(head: Node, nodes: seq<Node>, i: int): Node {
    if 0 <= i < |nodes| then nodes[i] else head
  }

  lemma CycleDistinct(head: Node, nodes: seq<Node>)
    requires NoDup(nodes) && head !in nodes
    ensures var c := Cycle(head, nodes); Distinct(c, 0, |c| - 1) && Distinct(c, 1, |c|)
  {}

  /** The links of the k-th node and of the head. */
  lemma RingLinks(head: Node, nodes: seq<Node>, k: nat)
    requires Ring(head, nodes) && k < |nodes|
    ensures nodes[k].next == Around(head, nodes, k + 1) && nodes[k].prev == Around(head, nodes, k - 1)
    ensures head.next == nodes[0] && head.prev == nodes[|nodes| - 1]
  {
    var c := Cycle(head, nodes);
    var nx, pv := NextOf(Members(head, nodes)), PrevOf(Members(head, nodes));
    assert c[0] == head && c[|c| - 1] == head && c[1] == nodes[0] && c[|c| - 2] == nodes[|nodes| - 1];
    assert c[k + 1] == nodes[k] && c[k + 2] == Around(head, nodes, k + 1) && c[k] == Around(head, nodes, k - 1);
    assert nx[c[0]] == c[1] && pv[c[|c| - 1]] == c[|c| - 2];
    assert nx[c[k + 1]] == c[k + 2] && pv[c[k + 1]] == c[k];
  }

  /** Links that agree with the heap on a list's members make it a ring. */
  lemma RingAgrees(head: Node, nodes: seq<Node>, nx: Links, pv: Links)
    requires NoDup(nodes) && head !in nodes
    requires Leads(Cycle(head, nodes), nx) && LeadsBack(Cycle(head, nodes), pv)
    requires forall y :: y in Members(head, nodes) ==> y in nx && y in pv && y.next == nx[y] && y.prev == pv[y]
    ensures Ring(head, nodes)
  {
    var c := Cycle(head, nodes);
    var nx', pv' := NextOf(Members(head, nodes)), PrevOf(Members(head, nodes));
    assert Covers(c, nx') && Covers(c, pv');
    forall i | 0 <= i < |c| - 1 ensures nx'[c[i]] == c[i + 1] { assert nx[c[i]] == c[i + 1]; }
    forall i | 0 < i < |c| ensures pv'[c[i]] == c[i - 1] { assert pv[c[i]] == c[i - 1]; }
  }

  ghost function Without(s: seq<Node>, k: nat): (r: seq<Node>)
    requires k < |s|
  {
    s[..k] + s[k + 1..]
  }

  ghost function With(s: seq<Node>, k: nat, x: Node): (r: seq<Node>)
    requires k <= |s|
  {
    s[..k] + [x] + s[k..]
  }

  lemma WithoutMembers(head: Node, nodes: seq<Node>, k: nat)
    requires k < |nodes| && NoDup(nodes) && head !in nodes
    ensures |Without(nodes, k)| == |nodes| - 1
    ensures forall y :: y in Members(head, Without(nodes, k)) ==> y in Members(head, nodes) && y != nodes[k]
    ensures forall y :: y in Without(nodes, k) ==> y in nodes && y != nodes[k]
    ensures forall y :: y in nodes && y != nodes[k] ==> y in Without(nodes, k)
  {
    var r := Without(nodes, k);
    forall y | y in r ensures y in nodes && y != nodes[k] {
      var i :| 0 <= i < |r| && r[i] == y;
      assert y == if i < k then nodes[i] else nodes[i + 1];
    }
    forall y | y in nodes && y != nodes[k] ensures y in r {
      var i :| 0 <= i < |nodes| && nodes[i] == y;
      assert y == if i < k then r[i] else r[i - 1];
    }
  }

  lemma WithMembers(head: Node, nodes: seq<Node>, k: nat, x: Node)
    requires k <= |nodes|
    ensures |With(nodes, k, x)| == |nodes| + 1 && x in With(nodes, k, x)
    ensures forall y :: y in Members(head, With(nodes, k, x)) ==> y in Members(head, nodes) || y == x
  {
    assert nodes == nodes[..k] + nodes[k..];
  }

  /** Taking the k-th of several nodes out of a list relinks its neighbours. */
  lemma CycleWithout(head: Node, nodes: seq<Node>, nx: Links, pv: Links, k: nat)
    requires NoDup(nodes) && head !in nodes && k < |nodes|
    requires Leads(Cycle(head, nodes), nx) && LeadsBack(Cycle(head, nodes), pv)
    ensures NoDup(Without(nodes, k)) && head !in Without(nodes, k)
    ensures var before, later, c := Around(head, nodes, k - 1), Around(head, nodes, k + 1), Cycle(head, Without(nodes, k));
            Leads(c, nx[before := later]) && LeadsBack(c, pv[later := before])
  {
    var r := Without(nodes, k);
    assert NoDup(r) && head !in r;
    var a, b := [head] + nodes[..k], nodes[k + 1..] + [head];
    assert Cycle(head, nodes) == a + [nodes[k]] + b;
    assert Cycle(head, r) == a + b;
    assert a[|a| - 1] == Around(head, nodes, k - 1) && b[0] == Around(head, nodes, k + 1);
    CycleDistinct(head, r);
    LeadsWithout(a, b, nodes[k], nx);
    LeadsBackWithout(a, b, nodes[k], pv);
  }

  /** Putting a node in at position k of a list relinks its neighbours. */
  lemma CycleWith(head: Node, nodes: seq<Node>, nx: Links, pv: Links, k: nat, x: Node)
    requires NoDup(nodes) && head !in nodes && k <= |nodes| && x !in nodes && x != head
    requires Leads(Cycle(head, nodes), nx) && LeadsBack(Cycle(head, nodes), pv)
    ensures NoDup(With(nodes, k, x)) && head !in With(nodes, k, x)
    ensures var before, later, c := Around(head, nodes, k - 1), Around(head, nodes, k), Cycle(head, With(nodes, k, x));
            Leads(c, nx[before := x][x := later]) && LeadsBack(c, pv[later := x][x := before])
  {
    var r := With(nodes, k, x);
    assert NoDup(r) && head !in r;
    var a, b := [head] + nodes[..k], nodes[k..] + [head];
    assert Cycle(head, nodes) == a + b;
    assert Cycle(head, r) == a + [x] + b;
    assert a[|a| - 1] == Around(head, nodes, k - 1) && b[0] == Around(head, nodes, k);
    CycleDistinct(head, nodes);
    LeadsWith(a, b, x, nx);
    LeadsBackWith(a, b, x, pv);
  }

  lemma NeighboursDiffer(head: Node, nodes: seq<Node>, k: nat)
    requires Ring(head, nodes) && k < |nodes|
    ensures nodes[k] != head && nodes[k] != Around(head, nodes, k - 1) && nodes[k] != Around(head, nodes, k + 1)
    ensures nodes[k] == head.next <==> k == 0
    ensures nodes[k] == head.prev <==> k == |nodes| - 1
    ensures k == 0 <==> Around(head, nodes, k - 1) == head
    ensures k == |nodes| - 1 <==> Around(head, nodes, k + 1) == head
  {
    RingLinks(head, nodes, k);
  }

  lemma NullRing(head: Node, nodes: seq<Node>)
    requires nodes == [] && head.next == null && head.prev == null
    ensures Ring(head, nodes)
  {}

  class List {
    const head: Node
    var marker: Node?
    var count: nat

    ghost var nodes: seq<Node>

    ghost predicate Valid()
      reads this, head, nodes
    {
      Ring(head, nodes) && count == |nodes| && (marker == null || marker == head || marker in nodes)
    }

    /** dlist_new. */
    constructor ()
      ensures Valid() && nodes == [] && fresh(head) && marker == null
    {
      head := new Node(0);
      marker, count, nodes := null, 0, [];
    }

    /** Where an insertion at the marker puts the new node; an unset marker stands for the head. */
    ghost function InsertPos(after: bool): (k: nat)
      requires Valid()
      reads this, head, nodes
      ensures k <= |nodes|
      ensures marker == null || marker == head ==> k == if after then 0 else |nodes|
      ensures marker != null && marker != head ==>
                if after then k > 0 && nodes[k - 1] == marker else k < |nodes| && nodes[k] == marker
    {
      if marker == null || marker == head then if after then 0 else |nodes|
      else
        var i :| 0 <= i < |nodes| && nodes[i] == marker;
        if after then i + 1 else i
    }

    /** Relink around a node that is leaving a list of several: its neighbours lead to each other. */
    method Bypass(target: Node, ghost before: Node, ghost later: Node, ghost members: set<Node>)
      requires target.prev == before && target.next == later
      requires target != head && target != before && target != later
      requires (target == head.next <==> before == head) && (target == head.prev <==> later == head)
      modifies head, target, before, later
      ensures target.prev == null && target.next == null
      ensures forall y :: y in members && y != target ==> y.next == if y == before then later else old(y.next)
      ensures forall y :: y in members && y != target ==> y.prev == if y == later then before else old(y.prev)
    {
      if target == head.next { head.next := target.next; }
      if target == head.prev { head.prev := target.prev; }
      if target.prev != null { target.prev.next := target.next; }
      if target.next != null { target.next.prev := target.prev; }
      target.prev, target.next := null, null;
    }

    /** The first half of dlist_move: take a node out, moving a marker on it to the next node. */
    method Unlink(target: Node, ghost k: nat)
      requires Valid() && k < |nodes| && nodes[k] == target
      modifies this, head, nodes
      ensures Valid() && nodes == Without(old(nodes), k) && target.prev == null && target.next == null
      ensures marker == if old(marker) == target then Around(head, old(nodes), k + 1) else old(marker)
    {
      hide Leads, LeadsBack, Cycle, NoDup, Without;
      ghost var members := Members(head, nodes);
      ghost var nx, pv := NextOf(members), PrevOf(members);
      ghost var before, later := Around(head, nodes, k - 1), Around(head, nodes, k + 1);
      ghost var rest := Without(nodes, k);
      RingLinks(head, nodes, k);
      NeighboursDiffer(head, nodes, k);
      CycleWithout(head, nodes, nx, pv, k);
      WithoutMembers(head, nodes, k);
      hide Ring;
      if marker == target {
        if target.next != null { marker := target.next; }
      }
      if count == 1 {
        if target == head.next { head.next := target.next; }
        if target == head.prev { head.prev := target.prev; }
        target.prev, target.next := null, null;
        head.next, head.prev := null, null;
        NullRing(head, rest);
      } else {
        Bypass(target, before, later, members);
        RingAgrees(head, rest, nx[before := later], pv[later := before]);
      }
      count := count - 1;
      nodes := rest;
    }

    /** _dlist_insert_dlnode: link a node in at the marker and put the marker on it. */
    method InsertNode(x: Node, after: bool)
      requires Valid() && x !in nodes && x != head
      modifies this, head, nodes, x
      ensures Valid() && nodes == With(old(nodes), old(InsertPos(after)), x) && marker == x
    {
      hide Leads, LeadsBack, Cycle, NoDup, With;
      ghost var k: int := InsertPos(after);
      ghost var members := Members(head, nodes);
      ghost var nx, pv := NextOf(members), PrevOf(members);
      ghost var before, later := Around(head, nodes, k - 1), Around(head, nodes, k);
      ghost var all := With(nodes, k, x);
      if head.next == null && nodes != [] { RingLinks(head, nodes, 0); }
      WithMembers(head, nodes, k, x);
      if nodes != [] || head.next != null {
        CycleWith(head, nodes, nx, pv, k, x);
        MarkerLinks(head, nodes, k, if marker == null then head else marker, after);
      }
      if marker == null { marker := head; }
      count := count + 1;
      if head.next == null {
        head.next, head.prev := x, x;
        x.prev, x.next := head, head;
        SingleRing(head, x);
        WithEmpty(k, x);
      } else {
        hide Ring;
        LinkIn(x, after, before, later, members);
        RingAgrees(head, all, nx[before := x][x := later], pv[later := x][x := before]);
      }
      marker := x;
      nodes := all;
    }

    /** dlist_insert of fresh data at the marker. */
    method Insert(d: nat, after: bool) returns (x: Node)
      requires Valid()
      modifies this, head, nodes
      ensures Valid() && fresh(x) && x.data == d && nodes == With(old(nodes), old(InsertPos(after)), x) && marker == x
    {
      hide Leads, LeadsBack, Cycle, NoDup, With;
      x := new Node(d);
      InsertNode(x, after);
    }

    /** dlist_insert_sorted: walk past the nodes that d does not precede and insert before the next. */
    method InsertSorted(d: nat, precedes: (nat, nat) -> bool) returns (x: Node)
      requires Valid()
      modifies this, head, nodes
      ensures Valid() && fresh(x) && x.data == d
      ensures nodes == With(old(nodes), Passed(old(nodes), d, precedes), x)
    {
      hide Leads, LeadsBack, Cycle, NoDup, With, Ring, Passed;
      ghost var k := Seek(d, precedes);
      InsertPosUnique(this, k);
      x := Insert(d, false);
    }

    /** The loop of dlist_insert_sorted: it leaves the marker on the first node that d precedes. */
    method Seek(d: nat, precedes: (nat, nat) -> bool) returns (ghost k: nat)
      requires Valid()
      modifies this`marker
      ensures Valid() && k == Passed(nodes, d, precedes) && marker == Around(head, nodes, k)
    {
      hide Leads, LeadsBack, Cycle, NoDup, Ring;
      marker := head;
      k := 0;
      if nodes != [] { RingLinks(head, nodes, 0); } else { EmptyLinks(head, nodes); }
      if marker.next != null { marker := marker.next; }
      while marker != head && !precedes(d, marker.data)
        invariant Valid() && k <= |nodes| && marker == Around(head, nodes, k)
        invariant k + Passed(nodes[k..], d, precedes) == Passed(nodes, d, precedes)
        decreases |nodes| - k
      {
        PositionOf(head, nodes, k);
        RingLinks(head, nodes, k);
        assert nodes[k..][1..] == nodes[k + 1..];
        marker := marker.next;
        k := k + 1;
      }
      PositionOf(head, nodes, k);
    }

    /** Link x in between two neighbours, one of which is the marker. */
    method LinkIn(x: Node, after: bool, ghost before: Node, ghost later: Node, ghost members: set<Node>)
      requires marker != null && x != before && x != later
      requires before.next == later && later.prev == before && marker == if after then before else later
      modifies x, before, later
      ensures x.prev == before && x.next == later
      ensures forall y :: y in members && y != x ==> y.next == if y == before then x else old(y.next)
      ensures forall y :: y in members && y != x ==> y.prev == if y == later then x else old(y.prev)
    {
      if after {
        x.next := marker.next;
        x.prev := marker;
        marker.next.prev := x;
        marker.next := x;
      } else {
        x.prev := marker.prev;
        x.next := marker;
        marker.prev.next := x;
        marker.prev := x;
      }
    }
  }

  lemma WithEmpty(k: nat, x: Node)
    requires k == 0
    ensures With([], k, x) == [x]
  {}

  lemma SingleRing(head: Node, x: Node)
    requires x != head && head.next == x && head.prev == x && x.next == head && x.prev == head
    ensures Ring(head, [x])
  {
    var c := Cycle(head, [x]);
    assert c == [head, x, head];
  }

  /** The neighbours of an insertion at the marker. */
  lemma MarkerLinks(head: Node, nodes: seq<Node>, k: nat, marker: Node, after: bool)
    requires Ring(head, nodes) && k <= |nodes| && (nodes != [] || head.next != null)
    requires marker == if after then Around(head, nodes, k - 1) else Around(head, nodes, k)
    ensures Around(head, nodes, k - 1).next == Around(head, nodes, k)
    ensures Around(head, nodes, k).prev == Around(head, nodes, k - 1)
  {
    if k < |nodes| { RingLinks(head, nodes, k); }
    if k > 0 { RingLinks(head, nodes, k - 1); }
    if nodes == [] {
      var c := Cycle(head, nodes);
      assert c == [head, head];
      assert NextOf(Members(head, nodes))[c[0]] == c[1] && PrevOf(Members(head, nodes))[c[1]] == c[0];
    }
  }

  lemma EmptyLinks(head: Node, nodes: seq<Node>)
    requires Ring(head, nodes) && nodes == []
    ensures (head.next == null && head.prev == null) || (head.next == head && head.prev == head)
  {
    var c := Cycle(head, nodes);
    assert c == [head, head];
    if head.next != null || head.prev != null {
      assert NextOf(Members(head, nodes))[c[0]] == c[1] && PrevOf(Members(head, nodes))[c[1]] == c[0];
    }
  }

  lemma PositionOf(head: Node, nodes: seq<Node>, k: nat)
    requires Ring(head, nodes) && k <= |nodes|
    ensures Around(head, nodes, k) == head <==> k == |nodes|
  {}

  lemma InsertPosUnique(l: List, k: nat)
    requires l.Valid() && k <= |l.nodes| && l.marker == Around(l.head, l.nodes, k)
    ensures l.InsertPos(false) == k
  {}

  /** How many nodes from the front d does not precede. */
  function Passed(nodes: seq<Node>, d: nat, precedes: (nat, nat) -> bool): (k: nat)
    ensures k <= |nodes|
  {
    if nodes == [] || precedes(d, nodes[0].data) then 0 else 1 + Passed(nodes[1..], d, precedes)
  }
}
