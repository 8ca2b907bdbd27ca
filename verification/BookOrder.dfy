/** The order of results: exactly as good as the host's own order. */
module BookOrder {
  import opened Hosts
  import opened Values
  import opened BookStores
  import opened BookSafety

  predicate Mine(f: InFlight, k: Key, isAction: bool) {
    f.key == k && f.isAction == isAction
  }

  /** Serials of the flights of one key and kind. */
  ghost function Flying(fs: seq<InFlight>, k: Key, isAction: bool): seq<nat> {
    if fs == [] then []
    else
      var f := fs[|fs| - 1];
      Flying(fs[..|fs| - 1], k, isAction) + if Mine(f, k, isAction) then [f.serial] else []
  }

  /** Serials of the calls of one key and kind. */
  ghost function Issued(calls: seq<Call>, k: Key, isAction: bool): (r: seq<nat>)
    ensures forall i :: 0 <= i < |r| ==> r[i] < |calls|
    ensures forall i, j :: 0 <= i < j < |r| ==> r[i] < r[j]
  {
    if calls == [] then []
    else
      var c := calls[|calls| - 1];
      Issued(calls[..|calls| - 1], k, isAction) + if c.key == k && c.isAction == isAction then [|calls| - 1] else []
  }

  /** The calls of a key, in issue order, are the settled ones in settling order and then those in flight. */
  ghost predicate InOrder(s: State, k: Key, isAction: bool) {
    Issued(s.log.issued, k, isAction)
      == StoredSerials(Settled(s.log.asked, k, isAction)) + Flying(s.inFlight, k, isAction)
  }

  predicate Done(r: Reply) {
    OutcomeOf(r).Some?
  }

  /** In this poll round no request of the key is settled while an earlier one stays pending. */
  ghost predicate Fifo(fs: seq<InFlight>, replies: seq<Reply>, k: Key, isAction: bool)
    requires |fs| == |replies|
  {
    forall i, j :: 0 <= i < j < |fs| && Mine(fs[i], k, isAction) && Mine(fs[j], k, isAction) && Done(replies[j])
      ==> Done(replies[i])
  }

  // ------------------------------------------------------------------
  // Flush
  // ------------------------------------------------------------------

  lemma {:induction false} FlyingAppend(a: seq<InFlight>, b: seq<InFlight>, k: Key, isAction: bool)
    ensures Flying(a + b, k, isAction) == Flying(a, k, isAction) + Flying(b, k, isAction)
  {
    if b == [] {
      assert a + b == a;
    } else {
      assert (a + b)[..|a + b| - 1] == a + b[..|b| - 1];
      FlyingAppend(a, b[..|b| - 1], k, isAction);
    }
  }

  lemma {:induction false} IssuedAppend(a: seq<Call>, b: seq<Call>, k: Key, isAction: bool)
    ensures Issued(a + b, k, isAction) == Issued(a, k, isAction) + Flying(Flights(b, |a|), k, isAction)
  {
    if b == [] {
      assert a + b == a;
    } else {
      var n := |b| - 1;
      assert (a + b)[..|a + b| - 1] == a + b[..n];
      assert Flights(b, |a|)[..n] == Flights(b[..n], |a|);
      IssuedAppend(a, b[..n], k, isAction);
    }
  }

  lemma FlushKeepsOrder(s: State, ids: seq<I64>, k: Key, isAction: bool)
    requires Enabled(s, Flush(ids)) && InOrder(s, k, isAction)
    ensures InOrder(Step(s, Flush(ids)), k, isAction)
  {
    hide Issued, Flying, Settled, FlushCalls, Flights;
    var calls := FlushCalls(s, ids);
    IssuedAppend(s.log.issued, calls, k, isAction);
    FlyingAppend(s.inFlight, Flights(calls, |s.log.issued|), k, isAction);
  }

  // ------------------------------------------------------------------
  // Poll
  // ------------------------------------------------------------------

  /** Serials of the key among the first n flights, settled or kept in this round. */
  ghost function Part(fs: seq<InFlight>, replies: seq<Reply>, k: Key, isAction: bool, done: bool, n: nat): seq<nat>
    requires n <= |fs| == |replies|
  {
    if n == 0 then []
    else
      Part(fs, replies, k, isAction, done, n - 1) +
      if Mine(fs[n - 1], k, isAction) && Done(replies[n - 1]) == done then [fs[n - 1].serial] else []
  }

  lemma {:induction false} PollSplits(s: State, fs: seq<InFlight>, replies: seq<Reply>, k: Key, isAction: bool, n: nat)
    requires n <= |fs| == |replies| && s.inFlight == []
    ensures var t := PollSome(s, fs, replies, n);
            && StoredSerials(Settled(t.log.asked, k, isAction))
               == StoredSerials(Settled(s.log.asked, k, isAction)) + Part(fs, replies, k, isAction, true, n)
            && Flying(t.inFlight, k, isAction) == Part(fs, replies, k, isAction, false, n)
            && t.log.issued == s.log.issued
  {
    hide StoredSerials, Settled, Flying, PollOne, OutcomeOf;
    if n == 0 {
      NoneFlying(k, isAction);
    } else {
      PollSplits(s, fs, replies, k, isAction, n - 1);
      PollOneSplits(PollSome(s, fs, replies, n - 1), fs[n - 1], replies[n - 1], k, isAction);
    }
  }

  lemma NoneFlying(k: Key, isAction: bool)
    ensures Flying([], k, isAction) == []
  {}

  lemma PollOneSplits(s: State, f: InFlight, reply: Reply, k: Key, isAction: bool)
    ensures var t := PollOne(s, f, reply);
            && t.log.issued == s.log.issued
            && StoredSerials(Settled(t.log.asked, k, isAction))
               == StoredSerials(Settled(s.log.asked, k, isAction)) +
                  (if Mine(f, k, isAction) && Done(reply) then [f.serial] else [])
            && Flying(t.inFlight, k, isAction)
               == Flying(s.inFlight, k, isAction) + if Mine(f, k, isAction) && !Done(reply) then [f.serial] else []
  {
    hide Settled, OutcomeOf;
    var before := Settled(s.log.asked, k, isAction);
    SettledGrows(s.log.asked, AskOf(f, reply), k, isAction);
    if Done(reply) {
      var st := Stored(OutcomeOf(reply).value, f.serial);
      assert StoredSerials(before + [st]) == StoredSerials(before) + [f.serial];
      assert before + [] == before;
    } else {
      assert before + [] == before;
      assert (s.inFlight + [f])[..|s.inFlight|] == s.inFlight;
    }
  }

  ghost function FifoTo(fs: seq<InFlight>, replies: seq<Reply>, k: Key, isAction: bool, n: nat): bool
    requires n <= |fs| == |replies|
  {
    forall i, j :: 0 <= i < j < n && Mine(fs[i], k, isAction) && Mine(fs[j], k, isAction) && Done(replies[j])
      ==> Done(replies[i])
  }

  lemma {:induction false} KeptAre(fs: seq<InFlight>, replies: seq<Reply>, k: Key, isAction: bool, n: nat)
    requires n <= |fs| == |replies|
    ensures var kept := Part(fs, replies, k, isAction, false, n);
            && (kept == [] <==> forall i :: 0 <= i < n && Mine(fs[i], k, isAction) ==> Done(replies[i]))
            && forall x :: x in kept ==> exists i :: 0 <= i < n && fs[i].serial == x
  {
    if n > 0 {
      KeptAre(fs, replies, k, isAction, n - 1);
    }
  }

  lemma NothingSplits(fs: seq<InFlight>, replies: seq<Reply>, k: Key, isAction: bool)
    requires |fs| == |replies|
    ensures FifoTo(fs, replies, k, isAction, 0) && Flying(fs[..0], k, isAction) == []
    ensures forall done :: Part(fs, replies, k, isAction, done, 0) == []
  {}

  /** How the lists grow by the n-th flight. */
  lemma OneMore(fs: seq<InFlight>, replies: seq<Reply>, k: Key, isAction: bool, n: nat)
    requires 0 < n <= |fs| == |replies|
    ensures var f, r := fs[n - 1], replies[n - 1];
            && Flying(fs[..n], k, isAction)
               == Flying(fs[..n - 1], k, isAction) + (if Mine(f, k, isAction) then [f.serial] else [])
            && Part(fs, replies, k, isAction, true, n) == Part(fs, replies, k, isAction, true, n - 1) +
               (if Mine(f, k, isAction) && Done(r) then [f.serial] else [])
            && Part(fs, replies, k, isAction, false, n) == Part(fs, replies, k, isAction, false, n - 1) +
               (if Mine(f, k, isAction) && !Done(r) then [f.serial] else [])
  {
    hide Done;
    assert fs[..n][..n - 1] == fs[..n - 1];
  }

  lemma FifoMore(fs: seq<InFlight>, replies: seq<Reply>, k: Key, isAction: bool, n: nat)
    requires 0 < n <= |fs| == |replies|
    ensures FifoTo(fs, replies, k, isAction, n) <==>
            FifoTo(fs, replies, k, isAction, n - 1) &&
            (Mine(fs[n - 1], k, isAction) && Done(replies[n - 1]) ==>
               forall i :: 0 <= i < n - 1 && Mine(fs[i], k, isAction) ==> Done(replies[i]))
  {
    hide Done;
  }

  /** Settled ones first gives back the whole list exactly for a fifo round. */
  lemma {:induction false} SplitInOrder(fs: seq<InFlight>, replies: seq<Reply>, k: Key, isAction: bool, n: nat)
    requires n <= |fs| == |replies|
    requires forall i, j :: 0 <= i < j < |fs| ==> fs[i].serial < fs[j].serial
    ensures Flying(fs[..n], k, isAction)
              == Part(fs, replies, k, isAction, true, n) + Part(fs, replies, k, isAction, false, n)
            <==> FifoTo(fs, replies, k, isAction, n)
  {
    hide Flying, Part, FifoTo, Done;
    if n == 0 {
      NothingSplits(fs, replies, k, isAction);
    } else {
      SplitInOrder(fs, replies, k, isAction, n - 1);
      OneMore(fs, replies, k, isAction, n);
      FifoMore(fs, replies, k, isAction, n);
      KeptAre(fs, replies, k, isAction, n - 1);
      var all, x := Flying(fs[..n - 1], k, isAction), fs[n - 1].serial;
      var done, kept := Part(fs, replies, k, isAction, true, n - 1), Part(fs, replies, k, isAction, false, n - 1);
      assert all + [] == all && done + [] == done && kept + [] == kept;
      if Mine(fs[n - 1], k, isAction) {
        if Done(replies[n - 1]) {
          LastMoves(all, done, kept, x);
        } else {
          LastStays(all, done, kept, x);
        }
      }
    }
  }

  lemma LastStays(all: seq<nat>, done: seq<nat>, kept: seq<nat>, x: nat)
    ensures all + [x] == done + (kept + [x]) <==> all == done + kept
  {
    assert done + (kept + [x]) == (done + kept) + [x];
    assert (all + [x])[..|all|] == all && ((done + kept) + [x])[..|done + kept|] == done + kept;
  }

  lemma LastMoves(all: seq<nat>, done: seq<nat>, kept: seq<nat>, x: nat)
    requires x !in kept
    ensures all + [x] == (done + [x]) + kept <==> all == done + kept && kept == []
  {
    var l, r := all + [x], (done + [x]) + kept;
    assert l[|l| - 1] == x;
    if kept == [] {
      assert r == done + [x];
      assert l[..|all|] == all && r[..|done|] == done;
    } else {
      assert r[|r| - 1] == kept[|kept| - 1];
    }
  }

  /** A poll round keeps a key's results in issue order exactly when the host was fifo for it. */
  lemma PollKeepsOrderIff(s: State, replies: seq<Reply>, k: Key, isAction: bool)
    requires Enabled(s, PollAll(replies)) && FlightsMatch(s.inFlight, s.log.issued) && InOrder(s, k, isAction)
    ensures InOrder(Step(s, PollAll(replies)), k, isAction) <==> Fifo(s.inFlight, replies, k, isAction)
  {
    hide PollSome, Issued, Settled, StoredSerials, Part, Flying, Done;
    var n := |replies|;
    PollSplits(s.(inFlight := []), s.inFlight, replies, k, isAction, n);
    SplitInOrder(s.inFlight, replies, k, isAction, n);
    assert s.inFlight[..n] == s.inFlight;
    var settled := StoredSerials(Settled(s.log.asked, k, isAction));
    var all := Flying(s.inFlight, k, isAction);
    var done, kept := Part(s.inFlight, replies, k, isAction, true, n), Part(s.inFlight, replies, k, isAction, false, n);
    CancelPrefix(settled, all, done, kept);
  }

  lemma CancelPrefix(p: seq<nat>, all: seq<nat>, done: seq<nat>, kept: seq<nat>)
    ensures p + all == (p + done) + kept <==> all == done + kept
  {
    assert (p + done) + kept == p + (done + kept);
    assert (p + all)[|p|..] == all && (p + (done + kept))[|p|..] == done + kept;
  }

  // ------------------------------------------------------------------
  // Every run with a fifo host
  // ------------------------------------------------------------------

  /** Every poll round of the run is fifo for the key. */
  ghost predicate FifoRun(ops: seq<Op>, k: Key, isAction: bool) {
    ops == [] ||
    (FifoRun(ops[..|ops| - 1], k, isAction) &&
     var t, op := Run(INITIAL, ops[..|ops| - 1]), ops[|ops| - 1];
     op.PollAll? && Enabled(t, op) ==> Fifo(t.inFlight, op.replies, k, isAction))
  }

  lemma OtherStepsKeepOrder(s: State, op: Op, k: Key, isAction: bool)
    requires Enabled(s, op) && InOrder(s, k, isAction) && !op.Flush? && !op.PollAll?
    ensures InOrder(Step(s, op), k, isAction)
  {
    hide Issued, Settled, Flying;
  }

  /** A key's results are in issue order after the run and after every shorter one. */
  ghost predicate AlwaysInOrder(ops: seq<Op>, k: Key, isAction: bool) {
    InOrder(Run(INITIAL, ops), k, isAction) && (ops == [] || AlwaysInOrder(ops[..|ops| - 1], k, isAction))
  }

  /** One step keeps the order exactly if it is no poll round or a fifo one. */
  lemma StepKeepsOrderIff(s: State, op: Op, k: Key, isAction: bool)
    requires Enabled(s, op) && Inv(s) && InOrder(s, k, isAction)
    ensures InOrder(Step(s, op), k, isAction) <==> (op.PollAll? ==> Fifo(s.inFlight, op.replies, k, isAction))
  {
    hide InOrder, Step, Inv, Fifo;
    InvMatches(s);
    match op
    case Flush(ids) => FlushKeepsOrder(s, ids, k, isAction);
    case PollAll(replies) => PollKeepsOrderIff(s, replies, k, isAction);
    case _ => OtherStepsKeepOrder(s, op, k, isAction);
  }

  /** Throughout a run a key's results are in issue order exactly when every poll round of it was fifo. */
  lemma {:induction false} RunKeepsOrderIff(ops: seq<Op>, k: Key, isAction: bool)
    ensures AlwaysInOrder(ops, k, isAction) <==> FifoRun(ops, k, isAction)
  {
    hide InOrder, Step, Enabled, Inv, Fifo;
    if ops == [] {
      InitiallyInOrder(k, isAction);
    } else {
      var init, op := ops[..|ops| - 1], ops[|ops| - 1];
      var t := Run(INITIAL, init);
      RunKeepsOrderIff(init, k, isAction);
      RunKeepsInv(init);
      if AlwaysInOrder(init, k, isAction) {
        if Enabled(t, op) {
          StepKeepsOrderIff(t, op, k, isAction);
        }
      }
    }
  }

  lemma RunKeepsOrder(ops: seq<Op>, k: Key, isAction: bool)
    requires FifoRun(ops, k, isAction)
    ensures InOrder(Run(INITIAL, ops), k, isAction)
  {
    hide InOrder, Run, FifoRun;
    RunKeepsOrderIff(ops, k, isAction);
  }

  lemma InvMatches(s: State)
    requires Inv(s)
    ensures FlightsMatch(s.inFlight, s.log.issued)
  {}

  lemma InitiallyInOrder(k: Key, isAction: bool)
    ensures InOrder(INITIAL, k, isAction)
  {
    assert Settled([], k, isAction) == [] && Flying([], k, isAction) == [] && Issued([], k, isAction) == [];
  }

  /**
    With such a host the action results of a key, handed out and still stored, are those of
    its first actions in issue order (which is booking order), none left out or swapped.
   */
  lemma ActionResultsInOrder(ops: seq<Op>, k: Key)
    requires FifoRun(ops, k, true)
    ensures var s := Run(INITIAL, ops);
            StoredSerials(Get(s.log.readActions, k) + Get(s.actionResults, k)) <= Issued(s.log.issued, k, true)
  {
    hide Run, Issued, FifoRun, Settled, StoredSerials;
    RunKeepsOrder(ops, k, true);
    RunKeepsInv(ops);
    var s := Run(INITIAL, ops);
    assert ResultsKept(s, k);
  }

  /** And a stored info result comes from the latest-issued request that was settled. */
  lemma InfoResultIsLatest(ops: seq<Op>, k: Key)
    requires FifoRun(ops, k, false)
    ensures var s := Run(INITIAL, ops);
            k in s.results ==> forall i :: 0 <= i < |Settled(s.log.asked, k, false)| ==>
              Settled(s.log.asked, k, false)[i].serial <= s.results[k].serial
  {
    hide Run, FifoRun, Settled;
    RunKeepsOrder(ops, k, false);
    RunKeepsInv(ops);
    var s := Run(INITIAL, ops);
    assert ResultsKept(s, k);
    var infos := Settled(s.log.asked, k, false);
    if k in s.results {
      forall i | 0 <= i < |infos| ensures infos[i].serial <= s.results[k].serial {
        var serials := StoredSerials(infos);
        assert serials[i] == Issued(s.log.issued, k, false)[i];
        assert serials[|infos| - 1] == Issued(s.log.issued, k, false)[|infos| - 1];
      }
    }
  }
}
