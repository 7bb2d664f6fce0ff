/** A history of rpmsg in driver role in which a send finds the ring full. */
module RpmsgWitness {
  import opened VirtqueueProtocol
  import opened VirtqueueInvariant
  import opened VirtqueueTheorems
  import opened VirtqueueWitness
  import opened RingOwnership
  import opened RpmsgBuffers
  import opened RpmsgVirtioCode

  /** Two rings of one descriptor and a pool with room for one receive and two transmit buffers. */
  function SmallDevice(rx: World, tx: World): State {
    State(Config(1, 1, false), rx, tx, Pool(0, 3, 3), Pool(0, 0, 0), 0, map[], {}, [], false, false, {}, {})
  }

  lemma Filled(rx: World, tx: World) returns (w: World, moves: seq<Move>)
    requires Initial(rx) && Initial(tx) && rx.q.n == 1
    ensures var s := SmallDevice(rx, tx);
            var s' := AfterFill(s, 0, Pool(0, 3, 2), w);
            Start(s) && Goes(s, moves, s') && Fine(s') && w.q.n == 1
  {
    hide Initial, Inv, Goes, Step, RingInv, Owned, StatePools, LensOk;
    var s := SmallDevice(rx, tx);
    StartKeeps(s);
    IdleAtFirst(rx);
    var w1, w2, w3;
    w1, w2, w3, w := SendRun(rx, RxRequest(0, 1));
    var s1 := AfterFill(s, 0, Pool(0, 3, 2), w1);
    assert Moves(s, InitialFill, s1);
    hide Moves, BufInv;
    OneMove(s, InitialFill, s1);
    RestGoes(s1, false, w2, w3, w);
    moves := [InitialFill] + Rest(false);
    GoesJoin(s, [InitialFill], s1, Rest(false), AfterFill(s, 0, Pool(0, 3, 2), w));
  }

  lemma IdleAtFirst(w: World)
    requires Initial(w)
    ensures Inv(w) && w.q.drv.pc.DriverIdle? && w.q.drv.freeCnt == w.q.n && w.q.drv.usedCons == w.q.sh.usedIdx
  {
    InitialKeeps(w);
    hide Inv;
  }

  /** Taking two transmit buffers before sending either carves two for a ring of one. */
  lemma TwoTaken(rx: World, tx: World) returns (s: State, moves: seq<Move>)
    requires Initial(rx) && Initial(tx) && rx.q.n == 1 && tx.q.n == 1
    ensures Start(SmallDevice(rx, tx)) && Goes(SmallDevice(rx, tx), moves, s)
    ensures Ready(s) && s.appTx == {1, 2} && |s.txCarved| == 2 && s.tx.q.n == 1
  {
    hide Initial, Inv, Goes, Step, BufInv, AfterCarve, Carved;
    var w;
    w, moves := Filled(rx, tx);
    var s0, s1 := SmallDevice(rx, tx), AfterFill(SmallDevice(rx, tx), 0, Pool(0, 3, 2), w);
    IdleAtFirst(tx);
    CarveGoes(s1);
    CarveResult(s1);
    var s2 := AfterCarve(s1);
    CarveGoes(s2);
    CarveResult(s2);
    s := AfterCarve(s2);
    GoesJoin(s0, moves, s1, [TakeTx], s2);
    GoesJoin(s0, moves + [TakeTx], s2, [TakeTx], s);
    moves := moves + [TakeTx] + [TakeTx];
  }

  /** So a caller that takes two buffers can run into a full ring. */
  lemma SendCanFindRingFull()
    ensures exists states: seq<State>, moves: seq<Move> :: IsHistory(states, moves) && states[|moves|].txFull
  {
    hide Initial, Moves, Start, Ready;
    var rx := SmallestWorld(false);
    var s, moves := TwoTaken(rx, rx);
    var states :| Path(states, moves) && states[0] == SmallDevice(rx, rx) && states[|moves|] == s;
    var states', moves' := TooManyRunInto(s);
    Join(states, moves, states', moves');
    var all := states + states'[1..];
    assert IsHistory(all, moves + moves');
    assert all[|moves| + |moves'|] == states'[|moves'|] by {
      if |moves'| > 0 { assert all[|moves| + |moves'|] == states'[1..][|moves'| - 1]; }
    }
  }
}
