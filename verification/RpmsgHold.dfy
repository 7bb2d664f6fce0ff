/** The hold counter of an rpmsg buffer: it shares the 32-bit `reserved` word of the message header
    with the descriptor index, counter in the upper half, index in the lower. */
module RpmsgHold {

  const WORD: nat := 0x1_0000_0000
  const UNIT: nat := 0x1_0000    // 1 << RPMSG_BUF_HELD_SHIFT

  type u32 = x: int | 0 <= x < 0x1_0000_0000

  /** RPMSG_BUF_HELD_COUNTER. */
  function Counter(word: u32): nat { word / UNIT }

  /** RPMSG_BUF_INDEX. */
  function Index(word: u32): nat { word % UNIT }

  // ---- The code ----

  /** RPMSG_BUF_HELD_INC on the 32-bit word. */
  method HeldInc(word: u32) returns (r: u32)
    ensures Index(r) == Index(word) && Counter(r) == (Counter(word) + 1) % UNIT
    ensures r == After(word, HoldOp).0
  {
    r := (word + UNIT) % WORD;
  }

  /** rpmsg_virtio_buf_held_dec_test: one hold fewer, unless there is none; whether it was the last. */
  method DecTest(word: u32) returns (r: u32, giveBack: bool)
    ensures Index(r) == Index(word) && Counter(r) == (if Counter(word) == 0 then 0 else Counter(word) - 1)
    ensures giveBack <==> Counter(word) == 1
    ensures (r, giveBack) == After(word, ReleaseOp)
  {
    r := word;
    if Counter(r) <= 0 {
      return r, false;
    }
    r := (r - UNIT) % WORD;
    if Counter(r) > 0 {
      return r, false;
    }
    giveBack := true;
  }

  // ---- Histories of holds and releases ----

  datatype Op = HoldOp | ReleaseOp

  /** The word after one operation, and whether the operation returns the buffer. */
  function After(word: u32, op: Op): (u32, bool) {
    match op
    case HoldOp => ((word + UNIT) % WORD, false)
    case ReleaseOp =>
      if Counter(word) == 0 then (word, false)
      else (word - UNIT, Counter(word) == 1)
  }

  function Run(word: u32, ops: seq<Op>): u32
    decreases |ops|
  {
    if ops == [] then word else After(Run(word, ops[..|ops| - 1]), ops[|ops| - 1]).0
  }

  /** Whether the last operation of a history returns the buffer. */
  predicate GivesBack(word: u32, ops: seq<Op>)
    requires ops != []
  {
    After(Run(word, ops[..|ops| - 1]), ops[|ops| - 1]).1
  }

  /** One plus the holds minus the releases of a history. */
  function Level(ops: seq<Op>): int {
    if ops == [] then 1 else Level(ops[..|ops| - 1]) + if ops[|ops| - 1].HoldOp? then 1 else -1
  }

  /** Up to the last operation the buffer is still held by someone. */
  predicate HeldBefore(ops: seq<Op>) { forall i :: 0 <= i < |ops| ==> Level(ops[..i]) >= 1 }

  /** There are never 2^16 holders at a time. */
  predicate Fits(ops: seq<Op>) { forall i :: 0 <= i <= |ops| ==> Level(ops[..i]) < UNIT }

  lemma PrefixOfPrefix(ops: seq<Op>)
    requires ops != []
    ensures var init := ops[..|ops| - 1]; forall i :: 0 <= i <= |init| ==> init[..i] == ops[..i]
  {}

  lemma FitsPrefix(ops: seq<Op>)
    requires ops != []
    ensures Fits(ops) <==> Fits(ops[..|ops| - 1]) && Level(ops) < UNIT
    ensures HeldBefore(ops) <==> HeldBefore(ops[..|ops| - 1]) && Level(ops[..|ops| - 1]) >= 1
  {
    hide Level;
    PrefixOfPrefix(ops);
    var init := ops[..|ops| - 1];
    assert ops[..|ops|] == ops && init[..|init|] == init;
    if Fits(ops) {
      forall i | 0 <= i <= |init| ensures Level(init[..i]) < UNIT { assert init[..i] == ops[..i]; }
    }
    if Fits(init) && Level(ops) < UNIT {
      forall i | 0 <= i <= |ops| ensures Level(ops[..i]) < UNIT { if i < |ops| { assert init[..i] == ops[..i]; } }
    }
    if HeldBefore(ops) {
      forall i | 0 <= i < |init| ensures Level(init[..i]) >= 1 { assert init[..i] == ops[..i]; }
    }
    if HeldBefore(init) && Level(init) >= 1 {
      forall i | 0 <= i < |ops| ensures Level(ops[..i]) >= 1 { if i < |init| { assert init[..i] == ops[..i]; } }
    }
  }

  // ---- What one operation does ----

  lemma IndexStep(word: u32, op: Op)
    ensures Index(After(word, op).0) == Index(word)
  {}

  lemma CounterStep(word: u32, op: Op)
    ensures op.HoldOp? ==> Counter(After(word, op).0) == if Counter(word) + 1 == UNIT then 0 else Counter(word) + 1
    ensures op.ReleaseOp? ==> Counter(After(word, op).0) == if Counter(word) == 0 then 0 else Counter(word) - 1
    ensures After(word, op).1 <==> op.ReleaseOp? && Counter(word) == 1
    ensures op.ReleaseOp? && Counter(word) == 0 ==> After(word, op) == (word, false)
  {}

  // ---- Every history ----

  /** The index survives every history, even if the counter overflows. */
  lemma {:induction false} IndexSurvives(word: u32, ops: seq<Op>)
    ensures Index(Run(word, ops)) == Index(word)
  {
    if ops != [] {
      IndexSurvives(word, ops[..|ops| - 1]);
      IndexStep(Run(word, ops[..|ops| - 1]), ops[|ops| - 1]);
      hide After, Index;
    }
  }

  /** The counter is the level exactly as long as there were never 2^16 holders; once there were, it
      stays below the level until nobody holds the buffer. */
  lemma {:induction false} CounterCounts(word: u32, ops: seq<Op>)
    requires Counter(word) == 1 && HeldBefore(ops)
    ensures Level(ops) >= 0
    ensures Fits(ops) ==> Counter(Run(word, ops)) == Level(ops)
    ensures !Fits(ops) ==> Counter(Run(word, ops)) < Level(ops) || Level(ops) == 0
  {
    if ops == [] {
      assert Fits(ops);
    } else {
      var init := ops[..|ops| - 1];
      FitsPrefix(ops);
      CounterCounts(word, init);
      CounterStep(Run(word, init), ops[|ops| - 1]);
      hide After, Counter, Fits, HeldBefore;
    }
  }

  /** The release that balances the first hold and all others gives the buffer back exactly if there
      were never 2^16 holders at a time; and no other operation up to it gives it back then. */
  lemma ReturnedWhenBalanced(word: u32, ops: seq<Op>)
    requires Counter(word) == 1 && ops != [] && HeldBefore(ops)
    ensures Level(ops) == 0 ==> (GivesBack(word, ops) <==> Fits(ops))
    ensures Fits(ops) ==> (GivesBack(word, ops) <==> Level(ops) == 0)
    ensures Index(Run(word, ops)) == Index(word)
  {
    hide After, Counter, Fits, HeldBefore;
    var init := ops[..|ops| - 1];
    FitsPrefix(ops);
    CounterCounts(word, init);
    CounterStep(Run(word, init), ops[|ops| - 1]);
    IndexSurvives(word, ops);
  }

  /** With no hold left, releases are refused: they change nothing and give nothing back. */
  lemma {:induction false} RefusedWhenEmpty(word: u32, ops: seq<Op>, i: nat, j: nat)
    requires i <= j <= |ops| && Counter(Run(word, ops[..i])) == 0
    requires forall k :: i <= k < j ==> ops[k].ReleaseOp?
    ensures Run(word, ops[..j]) == Run(word, ops[..i])
    ensures j > i ==> !GivesBack(word, ops[..j])
    decreases j
  {
    if j > i {
      RefusedWhenEmpty(word, ops, i, j - 1);
      assert ops[..j][..j - 1] == ops[..j - 1];
      CounterStep(Run(word, ops[..j - 1]), ops[j - 1]);
      hide After, Counter;
    }
  }

  /** Exactly once, for every word and every history: after an operation gave the buffer back, no
      further release does, and the word stays as it is. */
  lemma ReturnedOnce(word: u32, ops: seq<Op>, i: nat, j: nat)
    requires i < j < |ops| && GivesBack(word, ops[..i + 1])
    requires forall k :: i < k < |ops| ==> ops[k].ReleaseOp?
    ensures !GivesBack(word, ops[..j + 1]) && Run(word, ops[..j + 1]) == Run(word, ops[..i + 1])
  {
    var upTo := ops[..i + 1];
    assert upTo[..i] == ops[..i];
    CounterStep(Run(word, ops[..i]), ops[i]);
    RefusedWhenEmpty(word, ops, i + 1, j + 1);
  }

  // ---- 2^16 holders ----

  function Holds(n: nat): (r: seq<Op>)
    ensures |r| == n
  {
    seq(n, _ => HoldOp)
  }

  lemma {:induction false} OnlyHolds(word: u32, n: nat)
    requires Counter(word) == 1 && n < UNIT
    ensures Level(Holds(n)) == n + 1
    ensures Counter(Run(word, Holds(n))) == if n == UNIT - 1 then 0 else n + 1
    decreases n
  {
    if n > 0 {
      OnlyHolds(word, n - 1);
      assert Holds(n)[..n - 1] == Holds(n - 1);
      CounterStep(Run(word, Holds(n - 1)), HoldOp);
      hide After, Counter;
    }
  }

  function Releases(n: nat): (r: seq<Op>)
    ensures |r| == n
  {
    seq(n, _ => ReleaseOp)
  }

  lemma {:induction false} LevelAfter(ops: seq<Op>, m: nat)
    ensures Level(ops + Releases(m)) == Level(ops) - m
    decreases m
  {
    var all := ops + Releases(m);
    if m == 0 {
      assert all == ops;
    } else {
      LevelAfter(ops, m - 1);
      assert all[..|all| - 1] == ops + Releases(m - 1);
    }
  }

  /** A history that loses the buffer: 2^16 - 1 holds beside the first, then one release for each of
      the 2^16 holders.  The last release balances, and none of them gives the buffer back. */
  lemma TooManyHolders(word: u32, j: nat)
    requires Counter(word) == 1 && UNIT - 1 < j <= UNIT - 1 + UNIT
    ensures var ops := Holds(UNIT - 1) + Releases(UNIT); Level(ops) == 0 && !GivesBack(word, ops[..j])
  {
    var ops := Holds(UNIT - 1) + Releases(UNIT);
    OnlyHolds(word, UNIT - 1);
    LevelAfter(Holds(UNIT - 1), UNIT);
    assert ops[..UNIT - 1] == Holds(UNIT - 1);
    RefusedWhenEmpty(word, ops, UNIT - 1, j);
  }

  /** A history that gives the buffer back too early: one hold more makes the counter 1 again, and the
      next release returns the buffer while 2^16 others still hold it. */
  lemma ReturnedWhileHeld(word: u32)
    requires Counter(word) == 1
    ensures var ops := Holds(UNIT - 1) + [HoldOp, ReleaseOp]; GivesBack(word, ops) && Level(ops) == UNIT
  {
    hide After, Counter;
    var held := Holds(UNIT - 1);
    var one, ops := held + [HoldOp], held + [HoldOp, ReleaseOp];
    OnlyHolds(word, UNIT - 1);
    assert one[..|one| - 1] == held && ops[..|ops| - 1] == one;
    CounterStep(Run(word, held), HoldOp);
    CounterStep(Run(word, one), ReleaseOp);
  }
}
