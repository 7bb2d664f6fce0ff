/** Bottom-up merge sort on sequences: what dlist_sort_custom computes, and why it is a stable
    sort.  Elements are compared through a key. */
module MergeTheory {

  /** compare(a, b) > 0 means a belongs after b; otherwise a may come first. */
  ghost predicate TotalPreorder<D(!new)>(cmp: (D, D) -> int) {
    && (forall a, b :: cmp(a, b) <= 0 || cmp(b, a) <= 0)
    && (forall a, b, c :: cmp(a, b) <= 0 && cmp(b, c) <= 0 ==> cmp(a, c) <= 0)
  }

  /** How a list's elements are ordered: by the data they carry. */
  datatype Order<!T, !D> = Order(key: T -> D, cmp: (D, D) -> int) {
    predicate After(x: T, y: T) { cmp(key(x), key(y)) > 0 }
  }

  ghost predicate Sorted<T, D>(s: seq<T>, o: Order<T, D>) {
    forall i, j :: 0 <= i < j < |s| ==> !o.After(s[i], s[j])
  }

  /** The elements equivalent to a given datum, in order. */
  ghost function Class<T, D>(s: seq<T>, o: Order<T, D>, d: D): seq<T> {
    if s == [] then []
    else (if Equivalent(o, s[0], d) then [s[0]] else []) + Class(s[1..], o, d)
  }

  predicate Equivalent<T, D>(o: Order<T, D>, x: T, d: D) { o.cmp(o.key(x), d) <= 0 && o.cmp(d, o.key(x)) <= 0 }

  /** Stable: equivalent elements keep their order. */
  ghost predicate Stable<T, D(!new)>(s: seq<T>, t: seq<T>, o: Order<T, D>) {
    forall d: D :: Class(s, o, d) == Class(t, o, d)
  }

  // ---- The algorithm ----

  function Merge<T, D>(a: seq<T>, b: seq<T>, o: Order<T, D>): seq<T>
    decreases |a| + |b|
  {
    if a == [] then b
    else if b == [] then a
    else if o.After(a[0], b[0]) then [b[0]] + Merge(a, b[1..], o)
    else [a[0]] + Merge(a[1..], b, o)
  }

  function Min(a: nat, b: nat): nat { if a < b then a else b }

  /** One pass: merge neighbouring runs of w elements. */
  function Pass<T, D>(s: seq<T>, w: nat, o: Order<T, D>): seq<T>
    requires w > 0
    decreases |s|
  {
    if s == [] then []
    else
      var i, j := Min(w, |s|), Min(2 * w, |s|);
      Merge(s[..i], s[i..j], o) + Pass(s[j..], w, o)
  }

  /** Passes with doubling width until one run is left. */
  function SortFrom<T, D>(s: seq<T>, w: nat, o: Order<T, D>): seq<T>
    requires w > 0
    decreases |s| - w
  {
    if |s| <= w then s else PassLength(s, w, o); SortFrom(Pass(s, w, o), 2 * w, o)
  }

  // ---- Lengths and permutation ----

  lemma HeadFirst<T>(s: seq<T>)
    requires s != []
    ensures multiset(s) == multiset([s[0]]) + multiset(s[1..])
  {
    assert s == [s[0]] + s[1..];
  }

  lemma HeadConcat<T>(x: T, s: seq<T>)
    ensures multiset([x] + s) == multiset([x]) + multiset(s)
  {}

  lemma {:induction false} MergePermutes<T, D>(a: seq<T>, b: seq<T>, o: Order<T, D>)
    ensures multiset(Merge(a, b, o)) == multiset(a) + multiset(b)
    ensures |Merge(a, b, o)| == |a| + |b|
    decreases |a| + |b|
  {
    if a != [] && b != [] {
      if o.After(a[0], b[0]) {
        var m := Merge(a, b[1..], o);
        assert Merge(a, b, o) == [b[0]] + m;
        MergePermutes(a, b[1..], o);
        hide Merge;
        HeadFirst(b);
        HeadConcat(b[0], m);
      } else {
        var m := Merge(a[1..], b, o);
        assert Merge(a, b, o) == [a[0]] + m;
        MergePermutes(a[1..], b, o);
        hide Merge;
        HeadFirst(a);
        HeadConcat(a[0], m);
      }
    }
  }

  lemma {:induction false} PassLength<T, D>(s: seq<T>, w: nat, o: Order<T, D>)
    requires w > 0
    ensures |Pass(s, w, o)| == |s| && multiset(Pass(s, w, o)) == multiset(s)
    decreases |s|
  {
    hide Merge, Pass;
    PassUnfolds(s, w, o);
    if s != [] {
      var i, j := Min(w, |s|), Min(2 * w, |s|);
      MergePermutes(s[..i], s[i..j], o);
      PassLength(s[j..], w, o);
      ThreeParts(s, i, j);
      BagConcat(Merge(s[..i], s[i..j], o), Pass(s[j..], w, o));
    }
  }

  lemma PassUnfolds<T, D>(s: seq<T>, w: nat, o: Order<T, D>)
    requires w > 0
    ensures s == [] ==> Pass(s, w, o) == []
    ensures s != [] ==>
              var i, j := Min(w, |s|), Min(2 * w, |s|); Pass(s, w, o) == Merge(s[..i], s[i..j], o) + Pass(s[j..], w, o)
  {
    hide Merge;
  }

  lemma BagConcat<T>(a: seq<T>, b: seq<T>)
    ensures multiset(a + b) == multiset(a) + multiset(b)
  {}

  lemma ThreeParts<T>(s: seq<T>, i: nat, j: nat)
    requires i <= j <= |s|
    ensures multiset(s) == multiset(s[..i]) + multiset(s[i..j]) + multiset(s[j..])
  {
    assert s[..j] == s[..i] + s[i..j];
    assert s == s[..j] + s[j..];
  }

  // ---- Sortedness ----

  ghost predicate Below<T, D>(x: T, s: seq<T>, o: Order<T, D>) {
    forall k :: 0 <= k < |s| ==> !o.After(x, s[k])
  }

  lemma {:induction false} BelowMerge<T, D>(x: T, a: seq<T>, b: seq<T>, o: Order<T, D>)
    requires Below(x, a, o) && Below(x, b, o)
    ensures Below(x, Merge(a, b, o), o)
    decreases |a| + |b|
  {
    if a != [] && b != [] {
      if o.After(a[0], b[0]) { BelowMerge(x, a, b[1..], o); } else { BelowMerge(x, a[1..], b, o); }
    }
  }

  lemma SortedCons<T, D>(x: T, s: seq<T>, o: Order<T, D>)
    requires Sorted(s, o) && Below(x, s, o)
    ensures Sorted([x] + s, o)
  {}

  /** What may precede a sorted list's first element may precede all of it. */
  lemma BelowSorted<T, D(!new)>(x: T, s: seq<T>, o: Order<T, D>)
    requires TotalPreorder(o.cmp) && Sorted(s, o) && (s != [] ==> !o.After(x, s[0]))
    ensures Below(x, s, o)
  {
    forall k | 0 <= k < |s| ensures !o.After(x, s[k]) {
      if k > 0 { assert !o.After(s[0], s[k]); }
    }
  }

  lemma {:induction false} MergeSorts<T, D(!new)>(a: seq<T>, b: seq<T>, o: Order<T, D>)
    requires TotalPreorder(o.cmp) && Sorted(a, o) && Sorted(b, o)
    ensures Sorted(Merge(a, b, o), o)
    decreases |a| + |b|
  {
    if a != [] && b != [] {
      var first := o.After(a[0], b[0]);
      var x, a', b' := if first then b[0] else a[0], if first then a else a[1..], if first then b[1..] else b;
      assert !o.After(x, a[0]) && !o.After(x, b[0]);
      BelowSorted(x, a, o);
      BelowSorted(x, b, o);
      assert Sorted(a', o) && Sorted(b', o) && Below(x, a', o) && Below(x, b', o);
      hide Sorted, Below, TotalPreorder;
      MergeSorts(a', b', o);
      BelowMerge(x, a', b', o);
      SortedCons(x, Merge(a', b', o), o);
    }
  }

  /** Every run of w elements, counted from the front, is sorted. */
  ghost predicate RunsSorted<T, D>(s: seq<T>, w: nat, o: Order<T, D>)
    requires w > 0
    decreases |s|
  {
    s == [] || (Sorted(s[..Min(w, |s|)], o) && RunsSorted(s[Min(w, |s|)..], w, o))
  }

  lemma {:induction false} PassDoublesRuns<T, D(!new)>(s: seq<T>, w: nat, o: Order<T, D>)
    requires w > 0 && TotalPreorder(o.cmp) && RunsSorted(s, w, o)
    ensures RunsSorted(Pass(s, w, o), 2 * w, o)
    decreases |s|
  {
    if s != [] {
      var i, j := Min(w, |s|), Min(2 * w, |s|);
      assert Sorted(s[i..j], o) && RunsSorted(s[j..], w, o) by { SecondRun(s, w, o); }
      MergeSorts(s[..i], s[i..j], o);
      MergePermutes(s[..i], s[i..j], o);
      PassDoublesRuns(s[j..], w, o);
      PassLength(s[j..], w, o);
      var m, p := Merge(s[..i], s[i..j], o), Pass(s[j..], w, o);
      assert |m| == j && (j == |s| ==> p == []);
      assert (m + p)[..Min(2 * w, |m + p|)] == m && (m + p)[Min(2 * w, |m + p|)..] == p;
    }
  }

  lemma SecondRun<T, D>(s: seq<T>, w: nat, o: Order<T, D>)
    requires w > 0 && s != [] && RunsSorted(s, w, o)
    ensures var i, j := Min(w, |s|), Min(2 * w, |s|);
            Sorted(s[..i], o) && Sorted(s[i..j], o) && RunsSorted(s[j..], w, o)
  {
    var i, j := Min(w, |s|), Min(2 * w, |s|);
    var t := s[i..];
    if t != [] {
      assert t[..Min(w, |t|)] == s[i..j] && t[Min(w, |t|)..] == s[j..];
    }
  }

  lemma {:induction false} SingleRuns<T, D>(s: seq<T>, o: Order<T, D>)
    ensures RunsSorted(s, 1, o)
  {
    if s != [] { SingleRuns(s[1..], o); }
  }

  // ---- Stability ----

  lemma {:induction false} ClassConcat<T, D>(s: seq<T>, t: seq<T>, o: Order<T, D>, d: D)
    ensures Class(s + t, o, d) == Class(s, o, d) + Class(t, o, d)
  {
    hide Class, Equivalent;
    ClassEmpty<T, D>(o, d);
    if s == [] {
      assert s + t == t;
      assert [] + Class(t, o, d) == Class(t, o, d);
    } else {
      var u, rest := s + t, s[1..];
      assert u[0] == s[0] && u[1..] == rest + t;
      ClassConcat(rest, t, o, d);
      ClassHead(s, o, d);
      ClassHead(u, o, d);
      Assoc(if Equivalent(o, s[0], d) then [s[0]] else [], Class(rest, o, d), Class(t, o, d));
    }
  }

  lemma Assoc<T>(a: seq<T>, b: seq<T>, c: seq<T>)
    ensures a + (b + c) == (a + b) + c
  {}

  lemma ClassEmpty<T, D>(o: Order<T, D>, d: D)
    ensures Class([], o, d) == []
  {}

  lemma ClassHead<T, D>(s: seq<T>, o: Order<T, D>, d: D)
    requires s != []
    ensures Class(s, o, d) == (if Equivalent(o, s[0], d) then [s[0]] else []) + Class(s[1..], o, d)
  {}

  /** Above everything equivalent to d, a sorted list has no element equivalent to d. */
  lemma {:induction false} ClassAbove<T, D(!new)>(s: seq<T>, o: Order<T, D>, x: T, d: D)
    requires TotalPreorder(o.cmp) && Sorted(s, o) && s != [] && o.After(s[0], x) && Equivalent(o, x, d)
    ensures Class(s, o, d) == []
  {
    assert !Equivalent(o, s[0], d);
    if |s| > 1 {
      assert !o.After(s[0], s[1]);
      assert o.After(s[1], x);
      ClassAbove(s[1..], o, x, d);
    }
  }

  lemma {:induction false} MergeIsStable<T, D(!new)>(a: seq<T>, b: seq<T>, o: Order<T, D>, d: D)
    requires TotalPreorder(o.cmp) && Sorted(a, o)
    ensures Class(Merge(a, b, o), o, d) == Class(a, o, d) + Class(b, o, d)
    decreases |a| + |b|
  {
    if a != [] && b != [] {
      if o.After(a[0], b[0]) {
        MergeIsStable(a, b[1..], o, d);
        assert ([b[0]] + Merge(a, b[1..], o))[1..] == Merge(a, b[1..], o);
        if Equivalent(o, b[0], d) { ClassAbove(a, o, b[0], d); }
      } else {
        MergeIsStable(a[1..], b, o, d);
        assert ([a[0]] + Merge(a[1..], b, o))[1..] == Merge(a[1..], b, o);
      }
    }
  }

  lemma {:induction false} PassIsStable<T, D(!new)>(s: seq<T>, w: nat, o: Order<T, D>, d: D)
    requires w > 0 && TotalPreorder(o.cmp) && RunsSorted(s, w, o)
    ensures Class(Pass(s, w, o), o, d) == Class(s, o, d)
    decreases |s|
  {
    hide RunsSorted, TotalPreorder, Sorted, Merge;
    if s != [] {
      var i, j := Min(w, |s|), Min(2 * w, |s|);
      SecondRun(s, w, o);
      hide Class;
      MergeIsStable(s[..i], s[i..j], o, d);
      PassIsStable(s[j..], w, o, d);
      ClassConcat(Merge(s[..i], s[i..j], o), Pass(s[j..], w, o), o, d);
      ClassConcat(s[..i], s[i..j], o, d);
      ClassConcat(s[..i] + s[i..j], s[j..], o, d);
      assert s == s[..i] + s[i..j] + s[j..];
    }
  }

  // ---- The whole sort ----

  lemma {:induction false} SortFromSorts<T, D(!new)>(s: seq<T>, w: nat, o: Order<T, D>)
    requires w > 0 && TotalPreorder(o.cmp) && RunsSorted(s, w, o)
    ensures var r := SortFrom(s, w, o);
            |r| == |s| && multiset(r) == multiset(s) && Sorted(r, o) && Stable(s, r, o)
    decreases |s| - w
  {
    if |s| <= w {
      assert s[..|s|] == s;
    } else {
      var p := Pass(s, w, o);
      PassLength(s, w, o);
      PassDoublesRuns(s, w, o);
      SortFromSorts(p, 2 * w, o);
      forall d: D ensures Class(s, o, d) == Class(SortFrom(p, 2 * w, o), o, d) {
        PassIsStable(s, w, o, d);
      }
    }
  }

  /** Bottom-up merge sort from runs of one element is a stable sorted permutation, under any
      total preorder. */
  lemma SortIsStableSort<T, D(!new)>(s: seq<T>, o: Order<T, D>)
    requires TotalPreorder(o.cmp)
    ensures var r := SortFrom(s, 1, o);
            |r| == |s| && multiset(r) == multiset(s) && Sorted(r, o) && Stable(s, r, o)
  {
    SingleRuns(s, o);
    SortFromSorts(s, 1, o);
  }

  // ---- The pass width as a 32-bit unsigned int ----

  const UINT: nat := 0x1_0000_0000

  /** The value of passcount after k doublings. */
  function Width(k: nat): nat {
    if k == 0 then 1 else (2 * Width(k - 1)) % UINT
  }

  function Pow2(k: nat): nat {
    if k == 0 then 1 else 2 * Pow2(k - 1)
  }

  lemma {:induction false} Pow2Grows(j: nat, k: nat)
    requires j <= k
    ensures 1 <= Pow2(j) <= Pow2(k)
    decreases k
  {
    if j < k { Pow2Grows(j, k - 1); } else if k > 0 { Pow2Grows(k - 1, k - 1); }
  }

  lemma Pow2Values()
    ensures Pow2(31) == 0x8000_0000 && Pow2(32) == UINT
  {
    assert Pow2(4) == 16;
    assert Pow2(8) == 16 * Pow2(4);
    assert Pow2(12) == 16 * Pow2(8);
    assert Pow2(16) == 16 * Pow2(12);
    assert Pow2(20) == 16 * Pow2(16);
    assert Pow2(24) == 16 * Pow2(20);
    assert Pow2(28) == 16 * Pow2(24);
    assert Pow2(31) == 8 * Pow2(28);
  }

  lemma {:induction false} WidthValue(k: nat)
    ensures Width(k) == if k < 32 then Pow2(k) else 0
  {
    hide Width, Pow2;
    if k == 0 {
      WidthZero();
    } else {
      WidthValue(k - 1);
      WidthStep(k);
      Pow2Values();
      if k < 32 {
        Pow2Grows(k, 31);
        SmallMod(Pow2(k));
      } else if k == 32 {
        assert Width(31) == 0x8000_0000;
      }
    }
  }

  lemma WidthZero()
    ensures Width(0) == Pow2(0) == 1
  {}

  lemma WidthStep(k: nat)
    requires k > 0
    ensures Width(k) == (2 * Width(k - 1)) % UINT && Pow2(k) == 2 * Pow2(k - 1)
  {}

  lemma SmallMod(x: nat)
    requires x < UINT
    ensures x % UINT == x
  {}

  lemma WidthPositive(k: nat)
    ensures k < 32 ==> 0 < Width(k) <= 0x8000_0000 && Width(k) == Pow2(k)
    ensures k >= 32 ==> Width(k) == 0
  {
    hide Width, Pow2;
    WidthValue(k);
    Pow2Values();
    if k < 32 { Pow2Grows(k, 31); }
  }

  // ---- The steps _dlist_merge counts ----

  /** Turns of the inner merge loop: one for each node moved while both runs last, one for draining
      whichever is left. */
  function MergeSteps<T, D>(a: seq<T>, b: seq<T>, o: Order<T, D>): nat
    decreases |a| + |b|
  {
    if a == [] && b == [] then 0
    else if a == [] || b == [] then 1
    else 1 + if o.After(a[0], b[0]) then MergeSteps(a, b[1..], o) else MergeSteps(a[1..], b, o)
  }

  function PassSteps<T, D>(s: seq<T>, w: nat, o: Order<T, D>): nat
    requires w > 0
    decreases |s|
  {
    if s == [] then 0
    else
      var i, j := Min(w, |s|), Min(2 * w, |s|);
      MergeSteps(s[..i], s[i..j], o) + PassSteps(s[j..], w, o)
  }

  lemma {:induction false} MergeStepsBounds<T, D>(a: seq<T>, b: seq<T>, o: Order<T, D>)
    ensures MergeSteps(a, b, o) <= |a| + |b|
    ensures a != [] && b != [] ==> MergeSteps(a, b, o) > 1
    ensures a != [] && b == [] ==> MergeSteps(a, b, o) == 1
    decreases |a| + |b|
  {
    if a != [] && b != [] {
      if o.After(a[0], b[0]) { MergeStepsBounds(a, b[1..], o); } else { MergeStepsBounds(a[1..], b, o); }
    }
  }

  /** A pass counts no more steps than there are nodes, one for a single run, more for several. */
  lemma {:induction false} PassStepsBounds<T, D>(s: seq<T>, w: nat, o: Order<T, D>)
    requires w > 0
    ensures PassSteps(s, w, o) <= |s|
    ensures |s| > w ==> PassSteps(s, w, o) > 1
    ensures |s| <= w ==> PassSteps(s, w, o) <= 1
    decreases |s|
  {
    if s != [] {
      var i, j := Min(w, |s|), Min(2 * w, |s|);
      hide MergeSteps;
      MergeStepsBounds(s[..i], s[i..j], o);
      PassStepsBounds(s[j..], w, o);
    }
  }

  /** A pass of width 1 counts every node once. */
  lemma {:induction false} FirstPassSteps<T, D>(s: seq<T>, o: Order<T, D>)
    ensures PassSteps(s, 1, o) == |s|
    decreases |s|
  {
    if s != [] {
      var j := Min(2, |s|);
      hide MergeSteps;
      MergeStepsBounds(s[..1], s[1..j], o);
      FirstPassSteps(s[j..], o);
    }
  }

  // ---- The loop of dlist_sort_custom, with its 32-bit counters ----

  datatype Ending<T> = Ends(result: seq<T>) | NeverEnds

  /** From pass k on: another pass while the steps counted, modulo 2^32, are more than one.  After 32
      doublings the width is 0, and _dlist_merge moves nothing as long as there is something to move. */
  function SortLoop<T, D>(s: seq<T>, k: nat, o: Order<T, D>): Ending<T>
    requires k <= 32
    decreases 32 - k
  {
    WidthPositive(k);
    if k == 32 then if s == [] then Ends(s) else NeverEnds
    else
      var t := Pass(s, Width(k), o);
      if PassSteps(s, Width(k), o) % UINT > 1 then SortLoop(t, k + 1, o) else Ends(t)
  }

  lemma PassOfOne<T, D>(s: seq<T>, w: nat, o: Order<T, D>)
    requires w > 0 && |s| <= w
    ensures Pass(s, w, o) == s
  {
    if s != [] {
      assert s[..|s|] == s && s[|s|..] == [] && s[|s|..|s|] == [];
      assert Pass<T, D>([], w, o) == [];
    }
  }

  /** Whatever the number of nodes, a loop that ends has lost none. */
  lemma {:induction false} SortLoopPermutes<T, D>(s: seq<T>, k: nat, o: Order<T, D>)
    requires k <= 32
    ensures SortLoop(s, k, o).Ends? ==>
              |SortLoop(s, k, o).result| == |s| && multiset(SortLoop(s, k, o).result) == multiset(s)
    decreases 32 - k
  {
    hide Width, Pass, PassSteps;
    WidthPositive(k);
    if k < 32 {
      PassLength(s, Width(k), o);
      SortLoopPermutes(Pass(s, Width(k), o), k + 1, o);
    }
  }

  lemma NextWidth(k: nat)
    requires k < 31
    ensures Width(k + 1) == 2 * Width(k)
  {
    WidthPositive(k);
    WidthPositive(k + 1);
    WidthStep(k + 1);
    hide Width;
  }

  /** Up to 2^31 nodes the loop is the merge sort. */
  lemma {:induction false} SortLoopSorts<T, D>(s: seq<T>, k: nat, o: Order<T, D>)
    requires |s| <= 0x8000_0000 && k < 32
    ensures Width(k) > 0 && SortLoop(s, k, o) == Ends(SortFrom(s, Width(k), o))
    decreases 32 - k
  {
    hide Width, Pass, PassSteps;
    WidthPositive(k);
    var w := Width(k);
    PassStepsBounds(s, w, o);
    SmallMod(PassSteps(s, w, o));
    if |s| <= w {
      PassOfOne(s, w, o);
    } else {
      LastWidth(k);
      NextWidth(k);
      PassLength(s, w, o);
      SortLoopSorts(Pass(s, w, o), k + 1, o);
    }
  }

  lemma LastWidth(k: nat)
    ensures Width(31) == 0x8000_0000
    ensures k < 32 && Width(k) < 0x8000_0000 ==> k < 31
  {
    hide Width, Pow2;
    WidthPositive(31);
    Pow2Values();
  }

  /** Between 2^31 and 2^32 nodes every pass up to width 2^31 reports more than one step, and then the
      width is 0 with all nodes still to move. */
  lemma {:induction false} SortLoopNeverEnds<T, D>(s: seq<T>, k: nat, o: Order<T, D>)
    requires 0x8000_0000 < |s| < UINT && k <= 32
    ensures SortLoop(s, k, o) == NeverEnds
    decreases 32 - k
  {
    hide Width, Pass, PassSteps;
    if k < 32 {
      WidthPositive(k);
      PassStepsBounds(s, Width(k), o);
      SmallMod(PassSteps(s, Width(k), o));
      PassLength(s, Width(k), o);
      SortLoopNeverEnds(Pass(s, Width(k), o), k + 1, o);
    }
  }

  /** Below 2^32 nodes: the sort ends exactly up to 2^31 of them, and what it leaves is then the merge
      sort of the list. */
  lemma SortEndsExactly<T, D>(s: seq<T>, o: Order<T, D>)
    requires |s| < UINT
    ensures SortLoop(s, 0, o).Ends? <==> |s| <= 0x8000_0000
    ensures |s| <= 0x8000_0000 ==> SortLoop(s, 0, o) == Ends(SortFrom(s, 1, o))
  {
    hide SortLoop, SortFrom, Width;
    WidthZero();
    if |s| <= 0x8000_0000 { SortLoopSorts(s, 0, o); } else { SortLoopNeverEnds(s, 0, o); }
  }

  /** With 2^32 nodes, or one more, the step count of the first pass wraps to 0 or 1 and the sort ends
      after it. */
  lemma SortLoopWraps<T, D>(s: seq<T>, o: Order<T, D>)
    requires |s| == UINT || |s| == UINT + 1
    ensures SortLoop(s, 0, o) == Ends(Pass(s, 1, o))
  {
    hide Width, Pass, PassSteps;
    WidthZero();
    FirstPassSteps(s, o);
    WrapsToFew(|s|);
  }

  lemma WrapsToFew(n: nat)
    requires n == UINT || n == UINT + 1
    ensures n % UINT <= 1
  {}

  /** One pass of width 1 does not sort a list whose first element belongs after its third and fourth. */
  lemma OnePassIsNotEnough<T, D>(s: seq<T>, o: Order<T, D>)
    requires |s| >= 4 && o.After(s[0], s[2]) && o.After(s[0], s[3])
    ensures !Sorted(Pass(s, 1, o), o)
  {
    hide Sorted, Merge, Pass;
    var t := s[2..];
    PassPair(s, o);
    PassPair(t, o);
    assert t[0] == s[2] && t[1] == s[3];
    PairMerge(s[0], s[1], o);
    PairMerge(s[2], s[3], o);
    var r := Pass(s, 1, o);
    assert (r[0] == s[0] || r[1] == s[0]) && (r[2] == s[2] || r[2] == s[3]);
    NotSorted(r, if r[0] == s[0] then 0 else 1, 2, o);
  }

  lemma PassPair<T, D>(s: seq<T>, o: Order<T, D>)
    requires |s| >= 2
    ensures Pass(s, 1, o) == Merge([s[0]], [s[1]], o) + Pass(s[2..], 1, o)
  {
    hide Merge;
    assert s[..1] == [s[0]] && s[1..2] == [s[1]];
  }

  lemma PairMerge<T, D>(x: T, y: T, o: Order<T, D>)
    ensures Merge([x], [y], o) == if o.After(x, y) then [y, x] else [x, y]
  {
    assert [y][1..] == [] && [x][1..] == [];
  }

  lemma NotSorted<T, D>(s: seq<T>, i: nat, j: nat, o: Order<T, D>)
    requires i < j < |s| && o.After(s[i], s[j])
    ensures !Sorted(s, o)
  {}

  function ByValue(): Order<int, int> { Order((x: int) => x, (a: int, b: int) => a - b) }

  function Countdown(n: nat): (s: seq<int>)
    ensures |s| == n && forall i :: 0 <= i < n ==> s[i] == n - i
  {
    seq(n, i => n - i)
  }

  /** So the 2^32 numbers in falling order are left unsorted. */
  lemma WrappedSortLeavesUnsorted()
    ensures var e := SortLoop(Countdown(UINT), 0, ByValue()); e.Ends? && !Sorted(e.result, ByValue())
  {
    hide SortLoop, Sorted, Pass, Countdown;
    var s := Countdown(UINT);
    SortLoopWraps(s, ByValue());
    assert s[0] == UINT && s[2] == UINT - 2 && s[3] == UINT - 3;
    OnePassIsNotEnough(s, ByValue());
  }
}
