/** What every run of the store keeps, whatever the host answers and however the operations interleave. */
module BookSafety {
  import opened Bytes
  import opened Values
  import opened Hosts
  import opened BookStores

  // ------------------------------------------------------------------
  // Runs
  // ------------------------------------------------------------------

  /** The state after the operations; one the host does not complete does not happen. */
  ghost function Run(s: State, ops: seq<Op>): State {
    if ops == [] then s
    else
      var t := Run(s, ops[..|ops| - 1]);
      if Enabled(t, ops[|ops| - 1]) then Step(t, ops[|ops| - 1]) else t
  }

  // ------------------------------------------------------------------
  // Invariants
  // ------------------------------------------------------------------

  ghost function ActionsOf(calls: seq<Call>): seq<Booking> {
    if calls == [] then []
    else
      var c := calls[|calls| - 1];
      ActionsOf(calls[..|calls| - 1]) + if c.isAction then [Booking(c.key, c.args)] else []
  }

  /** The last booking of every key. */
  ghost function LastArgs(bs: seq<Booking>): map<Key, Args> {
    if bs == [] then map[] else LastArgs(bs[..|bs| - 1])[bs[|bs| - 1].key := bs[|bs| - 1].args]
  }

  /** Actions are issued once each, in booking order; info requests overwrite. */
  ghost predicate BookingsKept(s: State) {
    && ActionsOf(s.log.issued) + s.pendingActions == s.log.booked
    && s.pendingRequests == LastArgs(s.log.sinceFlush)
  }

  ghost function FlightSerials(fs: seq<InFlight>): seq<nat> {
    seq(|fs|, i requires 0 <= i < |fs| => fs[i].serial)
  }

  /** The calls whose ask was answered for good, in the order of the answers. */
  ghost function SettledSerials(asks: seq<Ask>): seq<nat> {
    if asks == [] then []
    else
      var a := asks[|asks| - 1];
      SettledSerials(asks[..|asks| - 1]) + if OutcomeOf(a.reply).Some? then [a.serial] else []
  }

  ghost function StoredSerials(ss: seq<Stored>): seq<nat> {
    seq(|ss|, i requires 0 <= i < |ss| => ss[i].serial)
  }

  ghost function UpTo(n: nat): seq<nat> {
    seq(n, i => i)
  }

  ghost predicate FlightsMatch(fs: seq<InFlight>, issued: seq<Call>) {
    && (forall i :: 0 <= i < |fs| ==>
      && fs[i].serial < |issued|
      && issued[fs[i].serial].key == fs[i].key
      && issued[fs[i].serial].isAction == fs[i].isAction
      && issued[fs[i].serial].requestId == fs[i].requestId)
    && forall i, j :: 0 <= i < j < |fs| ==> fs[i].serial < fs[j].serial
  }

  /** Every ask is for an issued call, under the request id that call got. */
  ghost predicate AsksMatch(asks: seq<Ask>, issued: seq<Call>) {
    forall i :: 0 <= i < |asks| ==>
      && asks[i].serial < |issued|
      && issued[asks[i].serial].key == asks[i].key
      && issued[asks[i].serial].isAction == asks[i].isAction
      && issued[asks[i].serial].requestId == asks[i].requestId
  }

  /** A call is not asked for again once it is settled. */
  ghost predicate FinalIsLast(asks: seq<Ask>) {
    forall i, j :: 0 <= i < j < |asks| && asks[i].serial == asks[j].serial ==> OutcomeOf(asks[i].reply).None?
  }

  /** Every issued call is either in flight or settled, exactly once; flights keep issue order. */
  ghost predicate CallsAccounted(fs: seq<InFlight>, log: Log) {
    && FlightsMatch(fs, log.issued)
    && AsksMatch(log.asked, log.issued)
    && FinalIsLast(log.asked)
    && multiset(FlightSerials(fs)) + multiset(SettledSerials(log.asked)) == multiset(UpTo(|log.issued|))
  }

  ghost function SeenOf(log: Log, k: Key): nat {
    if k in log.seen then log.seen[k] else 0
  }

  /**
    Settled action results are either handed out or stored, in settling order. The info result
    of a key is the last one settled; it is there unless nothing was settled since it was read.
   */
  ghost predicate ResultsKept(s: State, k: Key) {
    var infos := Settled(s.log.asked, k, false);
    && Settled(s.log.asked, k, true) == Get(s.log.readActions, k) + Get(s.actionResults, k)
    && SeenOf(s.log, k) <= |infos|
    && (k in s.results <==> SeenOf(s.log, k) < |infos|)
    && (k in s.results ==> s.results[k] == infos[|infos| - 1])
  }

  ghost predicate Inv(s: State) {
    BookingsKept(s) && CallsAccounted(s.inFlight, s.log) && forall k :: ResultsKept(s, k)
  }

  // ------------------------------------------------------------------
  // Bookings
  // ------------------------------------------------------------------

  lemma {:induction false} ActionsAppend(a: seq<Call>, b: seq<Call>)
    ensures ActionsOf(a + b) == ActionsOf(a) + ActionsOf(b)
  {
    if b == [] {
      assert a + b == a;
    } else {
      assert (a + b)[..|a + b| - 1] == a + b[..|b| - 1];
      ActionsAppend(a, b[..|b| - 1]);
    }
  }

  lemma {:induction false} NoActions(calls: seq<Call>)
    requires forall i :: 0 <= i < |calls| ==> !calls[i].isAction
    ensures ActionsOf(calls) == []
  {
    if calls != [] {
      NoActions(calls[..|calls| - 1]);
    }
  }

  lemma {:induction false} AllActions(bs: seq<Booking>, ids: seq<I64>)
    requires |bs| == |ids|
    ensures ActionsOf(ActionCalls(bs, ids)) == bs
  {
    if bs != [] {
      var n := |bs| - 1;
      AllActions(bs[..n], ids[..n]);
      assert ActionCalls(bs, ids)[..n] == ActionCalls(bs[..n], ids[..n]);
      assert bs == bs[..n] + [bs[n]];
    }
  }

  /** The actions among the calls of a flush are the pending ones, in order. */
  lemma FlushActionsAre(s: State, ids: seq<I64>)
    requires Enabled(s, Flush(ids))
    ensures ActionsOf(FlushCalls(s, ids)) == s.pendingActions
  {
    hide SortedKeys, ActionsOf;
    var n := |s.pendingRequests|;
    var infos := InfoCalls(s.pendingRequests, SortedKeys(s.pendingRequests.Keys), ids[..n]);
    NoActions(infos);
    AllActions(s.pendingActions, ids[n..]);
    ActionsAppend(infos, ActionCalls(s.pendingActions, ids[n..]));
  }

  lemma FlushKeepsBookings(s: State, ids: seq<I64>)
    requires Enabled(s, Flush(ids)) && BookingsKept(s)
    ensures BookingsKept(Step(s, Flush(ids)))
  {
    hide FlushCalls, Flights, ActionsOf, Settled;
    FlushActionsAre(s, ids);
    ActionsAppend(s.log.issued, FlushCalls(s, ids));
  }

  lemma {:induction false} PollKeepsBookings(s: State, fs: seq<InFlight>, replies: seq<Reply>, n: nat)
    requires n <= |fs| == |replies|
    ensures var t := PollSome(s, fs, replies, n);
            && t.pendingRequests == s.pendingRequests && t.pendingActions == s.pendingActions
            && t.log == s.log.(asked := t.log.asked)
  {
    if n > 0 {
      PollKeepsBookings(s, fs, replies, n - 1);
    }
  }

  // ------------------------------------------------------------------
  // Calls
  // ------------------------------------------------------------------

  lemma FlightsAppend(fs: seq<InFlight>, issued: seq<Call>, calls: seq<Call>)
    requires FlightsMatch(fs, issued)
    ensures FlightsMatch(fs + Flights(calls, |issued|), issued + calls)
  {
    var gs, all := fs + Flights(calls, |issued|), issued + calls;
    forall i | 0 <= i < |gs|
      ensures gs[i].serial < |all| && all[gs[i].serial].key == gs[i].key
      ensures all[gs[i].serial].isAction == gs[i].isAction && all[gs[i].serial].requestId == gs[i].requestId
      ensures i < |fs| <==> gs[i].serial < |issued|
    {
      if i >= |fs| {
        assert gs[i] == Flights(calls, |issued|)[i - |fs|];
      }
    }
  }

  lemma SerialsAppend(fs: seq<InFlight>, calls: seq<Call>, base: nat, rest: multiset<nat>)
    requires multiset(FlightSerials(fs)) + rest == multiset(UpTo(base))
    ensures multiset(FlightSerials(fs + Flights(calls, base))) + rest == multiset(UpTo(base + |calls|))
  {
    var gs := Flights(calls, base);
    assert FlightSerials(fs + gs) == FlightSerials(fs) + FlightSerials(gs);
    assert UpTo(base + |calls|) == UpTo(base) + FlightSerials(gs);
  }

  lemma FlushKeepsCalls(s: State, ids: seq<I64>)
    requires Enabled(s, Flush(ids)) && CallsAccounted(s.inFlight, s.log)
    ensures CallsAccounted(Step(s, Flush(ids)).inFlight, Step(s, Flush(ids)).log)
  {
    hide FlushCalls, FlightsMatch, Flights, FlightSerials, SettledSerials, UpTo, OutcomeOf;
    var calls := FlushCalls(s, ids);
    FlightsAppend(s.inFlight, s.log.issued, calls);
    SerialsAppend(s.inFlight, calls, |s.log.issued|, multiset(SettledSerials(s.log.asked)));
  }

  lemma SettledAppend(asks: seq<Ask>, a: Ask)
    ensures SettledSerials(asks + [a]) ==
            SettledSerials(asks) + if OutcomeOf(a.reply).Some? then [a.serial] else []
  {
    assert (asks + [a])[..|asks|] == asks;
  }

  lemma SerialsMove(a: seq<InFlight>, f: InFlight, b: seq<InFlight>, asks: seq<Ask>, k: Ask)
    requires k.serial == f.serial && OutcomeOf(k.reply).Some?
    ensures multiset(FlightSerials(a + b)) + multiset(SettledSerials(asks + [k]))
         == multiset(FlightSerials(a + [f] + b)) + multiset(SettledSerials(asks))
  {
    hide OutcomeOf, SettledSerials;
    SettledAppend(asks, k);
    assert FlightSerials(a + [f] + b) == FlightSerials(a) + [f.serial] + FlightSerials(b);
    assert FlightSerials(a + b) == FlightSerials(a) + FlightSerials(b);
  }

  lemma FlightsDrop(a: seq<InFlight>, f: InFlight, b: seq<InFlight>, issued: seq<Call>)
    requires FlightsMatch(a + [f] + b, issued)
    ensures FlightsMatch(a + b, issued)
    ensures f.serial < |issued| && issued[f.serial].key == f.key && issued[f.serial].isAction == f.isAction
    ensures issued[f.serial].requestId == f.requestId
  {
    var fs, gs, n := a + [f] + b, a + b, |a|;
    assert fs[n] == f;
    assert forall i :: 0 <= i < |gs| ==> gs[i] == fs[if i < n then i else i + 1];
  }

  lemma {:induction false} FinalIsSettled(asks: seq<Ask>, i: nat)
    requires i < |asks| && OutcomeOf(asks[i].reply).Some?
    ensures asks[i].serial in SettledSerials(asks)
  {
    hide OutcomeOf;
    if i < |asks| - 1 {
      FinalIsSettled(asks[..|asks| - 1], i);
    }
  }

  lemma {:induction false} SettledIsFinal(asks: seq<Ask>, n: nat) returns (i: nat)
    requires n in SettledSerials(asks)
    ensures i < |asks| && asks[i].serial == n && OutcomeOf(asks[i].reply).Some?
  {
    hide OutcomeOf;
    var m := |asks| - 1;
    if n in SettledSerials(asks[..m]) {
      i := SettledIsFinal(asks[..m], n);
    } else {
      i := m;
    }
  }

  lemma {:induction false} CountInUpTo(n: nat, m: nat)
    ensures multiset(UpTo(m))[n] == if n < m then 1 else 0
  {
    if m > 0 {
      CountInUpTo(n, m - 1);
      assert UpTo(m) == UpTo(m - 1) + [m - 1];
    }
  }

  /** What is in flight has not been settled. */
  lemma FlightNotSettled(fs: seq<InFlight>, log: Log, i: nat)
    requires CallsAccounted(fs, log) && i < |fs|
    ensures fs[i].serial !in SettledSerials(log.asked)
  {
    hide FlightsMatch, AsksMatch, FinalIsLast, SettledSerials, UpTo;
    var n := fs[i].serial;
    CountInUpTo(n, |log.issued|);
    assert FlightSerials(fs)[i] == n;
    assert n in multiset(FlightSerials(fs));
    assert (multiset(FlightSerials(fs)) + multiset(SettledSerials(log.asked)))[n] <= 1;
  }

  lemma AskKeepsTurn(asks: seq<Ask>, a: Ask)
    requires FinalIsLast(asks) && a.serial !in SettledSerials(asks)
    ensures FinalIsLast(asks + [a])
  {
    hide OutcomeOf, SettledSerials;
    forall i | 0 <= i < |asks| && asks[i].serial == a.serial
      ensures OutcomeOf(asks[i].reply).None?
    {
      if OutcomeOf(asks[i].reply).Some? {
        FinalIsSettled(asks, i);
      }
    }
  }

  /** One poll moves one serial from the waiting requests to the kept or the settled ones. */
  lemma PollOneKeepsCalls(s: State, f: InFlight, rest: seq<InFlight>, reply: Reply)
    requires CallsAccounted(s.inFlight + [f] + rest, s.log)
    ensures CallsAccounted(PollOne(s, f, reply).inFlight + rest, PollOne(s, f, reply).log)
  {
    hide FlightsMatch, OutcomeOf, FlightSerials, SettledSerials, UpTo, FinalIsLast;
    var fs, a := s.inFlight + [f] + rest, AskOf(f, reply);
    assert fs[|s.inFlight|] == f;
    FlightNotSettled(fs, s.log, |s.inFlight|);
    AskKeepsTurn(s.log.asked, a);
    FlightsDrop(s.inFlight, f, rest, s.log.issued);
    if OutcomeOf(reply).Some? {
      SerialsMove(s.inFlight, f, rest, s.log.asked, a);
    } else {
      SettledAppend(s.log.asked, a);
    }
  }

  lemma {:induction false} PollKeepsCalls(s: State, fs: seq<InFlight>, replies: seq<Reply>, n: nat)
    requires n <= |fs| == |replies| && s.inFlight == []
    requires CallsAccounted(fs, s.log)
    ensures var t := PollSome(s, fs, replies, n); CallsAccounted(t.inFlight + fs[n..], t.log)
  {
    hide CallsAccounted, PollOne;
    if n == 0 {
      assert s.inFlight + fs[0..] == fs;
    } else {
      PollKeepsCalls(s, fs, replies, n - 1);
      var t := PollSome(s, fs, replies, n - 1);
      assert t.inFlight + fs[n - 1..] == t.inFlight + [fs[n - 1]] + fs[n..];
      PollOneKeepsCalls(t, fs[n - 1], fs[n..], replies[n - 1]);
    }
  }

  // ------------------------------------------------------------------
  // Results
  // ------------------------------------------------------------------

  lemma SettledGrows(rs: seq<Ask>, r: Ask, k: Key, isAction: bool)
    ensures Settled(rs + [r], k, isAction) == Settled(rs, k, isAction) +
      if r.key == k && r.isAction == isAction && OutcomeOf(r.reply).Some?
      then [Stored(OutcomeOf(r.reply).value, r.serial)] else []
  {
    assert (rs + [r])[..|rs|] == rs;
  }

  lemma PollOneKeepsResults(s: State, f: InFlight, reply: Reply, k: Key)
    requires ResultsKept(s, k)
    ensures ResultsKept(PollOne(s, f, reply), k)
  {
    hide OutcomeOf, Settled;
    var r := AskOf(f, reply);
    SettledGrows(s.log.asked, r, k, true);
    SettledGrows(s.log.asked, r, k, false);
  }

  lemma {:induction false} PollKeepsResults(s: State, fs: seq<InFlight>, replies: seq<Reply>, n: nat, k: Key)
    requires n <= |fs| == |replies| && ResultsKept(s, k)
    ensures ResultsKept(PollSome(s, fs, replies, n), k)
  {
    hide ResultsKept;
    if n > 0 {
      PollKeepsResults(s, fs, replies, n - 1, k);
      PollOneKeepsResults(PollSome(s, fs, replies, n - 1), fs[n - 1], replies[n - 1], k);
    }
  }

  lemma ReadResultKeepsResults(s: State, r: Key, k: Key)
    requires ResultsKept(s, k)
    ensures ResultsKept(Step(s, ReadResult(r)), k)
  {
    hide Settled;
  }

  lemma ReadActionsKeepsResults(s: State, r: Key, k: Key)
    requires ResultsKept(s, k)
    ensures ResultsKept(Step(s, ReadActions(r)), k)
  {
    hide Settled;
  }

  lemma StepKeepsResults(s: State, op: Op, k: Key)
    requires Enabled(s, op) && ResultsKept(s, k)
    ensures ResultsKept(Step(s, op), k)
  {
    hide Settled, FlushCalls, Flights, PollSome;
    match op
    case PollAll(replies) =>
      PollKeepsResults(s.(inFlight := []), s.inFlight, replies, |replies|, k);
    case ReadResult(r) => ReadResultKeepsResults(s, r, k);
    case ReadActions(r) => ReadActionsKeepsResults(s, r, k);
    case _ =>
  }

  // ------------------------------------------------------------------
  // Every run
  // ------------------------------------------------------------------

  lemma InitiallyKept()
    ensures Inv(INITIAL)
  {
    assert FlightSerials([]) == [] && SettledSerials([]) == [] && UpTo(0) == [];
  }

  /** A key has arguments there if it was booked, and they are those of its last booking. */
  lemma {:induction false} LastArgsAre(bs: seq<Booking>, k: Key)
    ensures k in LastArgs(bs) <==> exists i :: 0 <= i < |bs| && bs[i].key == k
    ensures forall i :: 0 <= i < |bs| && bs[i].key == k && (forall j :: i < j < |bs| ==> bs[j].key != k) ==>
      k in LastArgs(bs) && LastArgs(bs)[k] == bs[i].args
  {
    if bs != [] {
      var n := |bs| - 1;
      LastArgsAre(bs[..n], k);
      assert bs[n].key == k ==> k in LastArgs(bs);
      assert forall i :: 0 <= i < n ==> bs[..n][i] == bs[i];
    }
  }

  lemma LastArgsGrow(bs: seq<Booking>, b: Booking)
    ensures LastArgs(bs + [b]) == LastArgs(bs)[b.key := b.args]
  {
    assert (bs + [b])[..|bs|] == bs;
  }

  lemma StepKeepsBookings(s: State, op: Op)
    requires Enabled(s, op) && BookingsKept(s)
    ensures BookingsKept(Step(s, op))
  {
    hide FlushCalls, Flights, PollSome, Settled, ActionsOf, LastArgs;
    match op
    case BookRequest(k, args) => LastArgsGrow(s.log.sinceFlush, Booking(k, args));
    case Flush(ids) => FlushKeepsBookings(s, ids);
    case PollAll(replies) => PollKeepsBookings(s.(inFlight := []), s.inFlight, replies, |replies|);
    case _ =>
  }

  lemma StepKeepsCalls(s: State, op: Op)
    requires Enabled(s, op) && CallsAccounted(s.inFlight, s.log)
    ensures CallsAccounted(Step(s, op).inFlight, Step(s, op).log)
  {
    hide FlushCalls, Flights, PollSome, Settled;
    match op
    case Flush(ids) => FlushKeepsCalls(s, ids);
    case PollAll(replies) =>
      PollKeepsCalls(s.(inFlight := []), s.inFlight, replies, |replies|);
      var t := Step(s, op);
      assert t.inFlight + s.inFlight[|replies|..] == t.inFlight;
    case _ =>
  }

  lemma StepKeepsInv(s: State, op: Op)
    requires Enabled(s, op) && Inv(s)
    ensures Inv(Step(s, op))
  {
    hide Step, BookingsKept, CallsAccounted, ResultsKept;
    StepKeepsBookings(s, op);
    StepKeepsCalls(s, op);
    forall k ensures ResultsKept(Step(s, op), k) {
      StepKeepsResults(s, op, k);
    }
  }

  lemma {:induction false} RunFromKeepsInv(s: State, ops: seq<Op>)
    requires Inv(s)
    ensures Inv(Run(s, ops))
  {
    hide Inv, Step, Enabled;
    if ops != [] {
      var t, op := Run(s, ops[..|ops| - 1]), ops[|ops| - 1];
      RunFromKeepsInv(s, ops[..|ops| - 1]);
      if Enabled(t, op) {
        StepKeepsInv(t, op);
      }
    }
  }

  /** The invariant holds throughout every run from the empty store. */
  lemma RunKeepsInv(ops: seq<Op>)
    ensures Inv(Run(INITIAL, ops))
  {
    hide Inv, Run;
    InitiallyKept();
    RunFromKeepsInv(INITIAL, ops);
  }

  // ------------------------------------------------------------------
  // Conservation
  // ------------------------------------------------------------------

  lemma NoneSettled(k: Key, isAction: bool)
    ensures StoredSerials(Settled([], k, isAction)) == [] && SettledSerials([]) == []
  {}

  lemma CountAppend(xs: seq<nat>, x: nat, n: nat)
    ensures multiset(xs + [x])[n] == multiset(xs)[n] + if x == n then 1 else 0
  {}

  lemma SerialsGrow(ss: seq<Stored>, ts: seq<Stored>, asks: seq<Ask>, a: Ask, n: nat)
    requires ts == ss || (OutcomeOf(a.reply).Some? && exists o :: ts == ss + [Stored(o, a.serial)])
    ensures multiset(SettledSerials(asks + [a]))[n] ==
            multiset(SettledSerials(asks))[n] + if OutcomeOf(a.reply).Some? && a.serial == n then 1 else 0
    ensures ts != ss ==>
      multiset(StoredSerials(ts))[n] == multiset(StoredSerials(ss))[n] + if a.serial == n then 1 else 0
  {
    hide OutcomeOf, SettledSerials;
    SettledAppend(asks, a);
    CountAppend(SettledSerials(asks), a.serial, n);
    if ts != ss {
      assert StoredSerials(ts) == StoredSerials(ss) + [a.serial];
      CountAppend(StoredSerials(ss), a.serial, n);
    }
  }

  /** A settled call shows up under its own key and kind only, as often as it was settled. */
  lemma {:induction false} SettledCount(rs: seq<Ask>, issued: seq<Call>, k: Key, isAction: bool, n: nat)
    requires AsksMatch(rs, issued) && n < |issued|
    ensures multiset(StoredSerials(Settled(rs, k, isAction)))[n] ==
            if issued[n].key == k && issued[n].isAction == isAction then multiset(SettledSerials(rs))[n] else 0
  {
    hide Settled, OutcomeOf, StoredSerials, SettledSerials;
    if rs == [] {
      NoneSettled(k, isAction);
    } else {
      var m := |rs| - 1;
      var r := rs[m];
      SettledCount(rs[..m], issued, k, isAction, n);
      assert rs == rs[..m] + [r];
      SettledGrows(rs[..m], r, k, isAction);
      SerialsGrow(Settled(rs[..m], k, isAction), Settled(rs, k, isAction), rs[..m], r, n);
    }
  }

  /**
    Every issued action is, exactly once, in flight, stored under its key or handed out under
    its key, and under no other key. The bookings not issued yet are exactly the pending ones,
    and the issued ones went to the host once each, in booking order.
   */
  lemma EachActionInOnePlace(s: State, n: nat, k: Key)
    requires Inv(s) && n < |s.log.issued| && s.log.issued[n].isAction
    ensures ActionsOf(s.log.issued) + s.pendingActions == s.log.booked
    ensures k == s.log.issued[n].key ==>
      multiset(FlightSerials(s.inFlight))[n] + multiset(StoredSerials(Get(s.actionResults, k)))[n] +
      multiset(StoredSerials(Get(s.log.readActions, k)))[n] == 1
    ensures k != s.log.issued[n].key ==>
      multiset(StoredSerials(Get(s.actionResults, k)))[n] == multiset(StoredSerials(Get(s.log.readActions, k)))[n] == 0
  {
    hide FlightsMatch, AsksMatch, Settled;
    assert ResultsKept(s, k);
    CountInUpTo(n, |s.log.issued|);
    SettledCount(s.log.asked, s.log.issued, k, true, n);
    var read, stored := Get(s.log.readActions, k), Get(s.actionResults, k);
    assert StoredSerials(read + stored) == StoredSerials(read) + StoredSerials(stored);
    assert (multiset(FlightSerials(s.inFlight)) + multiset(SettledSerials(s.log.asked)))[n] == 1;
  }

  /** So it is in every run, however the operations interleave and whatever the host answers. */
  lemma EveryRunConserves(ops: seq<Op>, n: nat)
    ensures var s := Run(INITIAL, ops);
            && ActionsOf(s.log.issued) + s.pendingActions == s.log.booked
            && (n < |s.log.issued| && s.log.issued[n].isAction ==>
                  var k := s.log.issued[n].key;
                  multiset(FlightSerials(s.inFlight))[n] + multiset(StoredSerials(Get(s.actionResults, k)))[n] +
                  multiset(StoredSerials(Get(s.log.readActions, k)))[n] == 1)
  {
    hide Run, FlightSerials, StoredSerials, CallsAccounted, ResultsKept;
    RunKeepsInv(ops);
    var s := Run(INITIAL, ops);
    if n < |s.log.issued| && s.log.issued[n].isAction {
      EachActionInOnePlace(s, n, s.log.issued[n].key);
    }
  }

  /** When nothing is in flight, every call ever issued has been settled, exactly once. */
  lemma ReadyMeansAllSettled(s: State, n: nat)
    requires Inv(s) && s.inFlight == [] && n < |s.log.issued|
    ensures exists i :: 0 <= i < |s.log.asked| && s.log.asked[i].serial == n && OutcomeOf(s.log.asked[i].reply).Some?
    ensures multiset(SettledSerials(s.log.asked))[n] == 1
  {
    hide OutcomeOf, SettledSerials, ResultsKept, BookingsKept;
    assert FlightSerials([]) == [];
    CountInUpTo(n, |s.log.issued|);
    assert multiset(SettledSerials(s.log.asked))[n] == 1;
    assert n in SettledSerials(s.log.asked);
    var i := SettledIsFinal(s.log.asked, n);
  }

  // ------------------------------------------------------------------
  // Request ids
  // ------------------------------------------------------------------

  /** The host never gave two calls the same id. */
  ghost predicate UniqueIds(calls: seq<Call>) {
    forall i, j :: 0 <= i < j < |calls| ==> calls[i].requestId != calls[j].requestId
  }

  /** With unique ids an ask under the id of a call is an ask for that call. */
  lemma IdTells(s: State, i: nat, n: nat)
    requires Inv(s) && UniqueIds(s.log.issued) && i < |s.log.asked| && n < |s.log.issued|
    requires s.log.asked[i].requestId == s.log.issued[n].requestId
    ensures s.log.asked[i].serial == n
  {
    hide ResultsKept, BookingsKept, FinalIsLast, FlightsMatch;
    var m := s.log.asked[i].serial;
    assert m < |s.log.issued| && s.log.issued[m].requestId == s.log.issued[n].requestId;
  }

  /**
    With unique ids, the host is asked under an id until it gives a final answer and never
    after it: at most one answer under an id is final, and at most one fetch is made.
   */
  lemma FinalAnswerIsLast(s: State, i: nat, j: nat)
    requires Inv(s) && UniqueIds(s.log.issued) && i < j < |s.log.asked|
    requires s.log.asked[i].requestId == s.log.asked[j].requestId
    ensures OutcomeOf(s.log.asked[i].reply).None? && s.log.asked[i].reply.status == 0
  {
    var m := s.log.asked[j].serial;
    assert m < |s.log.issued|;
    IdTells(s, i, m);
  }

  // ------------------------------------------------------------------
  // What a flush issues
  // ------------------------------------------------------------------

  /** One info call for each entry of the map, keys ascending. */
  ghost predicate OneCallPerKey(calls: seq<Call>, m: map<Key, Args>) {
    && |calls| == |m|
    && (forall i :: 0 <= i < |calls| ==>
          !calls[i].isAction && calls[i].key in m && m[calls[i].key] == calls[i].args)
    && (forall i, j :: 0 <= i < j < |calls| ==> KeyNumber(calls[i].key) < KeyNumber(calls[j].key))
    && (forall k :: k in m ==> exists i :: 0 <= i < |calls| && calls[i].key == k)
  }

  lemma InfoCallsAre(m: map<Key, Args>, ids: seq<I64>)
    requires |ids| == |m|
    ensures OneCallPerKey(InfoCalls(m, SortedKeys(m.Keys), ids), m)
  {
    hide SortedKeys, KeyNumber;
    var ks := SortedKeys(m.Keys);
    SortedKeysAre(m.Keys);
    var calls := InfoCalls(m, ks, ids);
    forall i | 0 <= i < |ks|
      ensures !calls[i].isAction && calls[i].key == ks[i] && ks[i] in m && m[ks[i]] == calls[i].args
    {
      assert ks[i] in ks;
    }
    forall k | k in m ensures exists i :: 0 <= i < |calls| && calls[i].key == k {
      assert k in ks;
      var i :| 0 <= i < |ks| && ks[i] == k;
      assert calls[i].key == k;
    }
  }

  /**
    A flush issues one info call per key booked since the last flush, keys ascending, each with
    the arguments of its last booking, and after them all pending actions in booking order.
   */
  lemma FlushIssues(s: State, ids: seq<I64>)
    requires Inv(s) && Enabled(s, Flush(ids))
    ensures var calls := FlushCalls(s, ids);
            var n := |LastArgs(s.log.sinceFlush)|;
            && n <= |calls| && Step(s, Flush(ids)).log.issued == s.log.issued + calls
            && OneCallPerKey(calls[..n], LastArgs(s.log.sinceFlush))
            && (forall i :: n <= i < |calls| ==> calls[i].isAction)
            && ActionsOf(calls) == s.pendingActions
  {
    hide SortedKeys, LastArgs, CallsAccounted, ResultsKept, Settled, ActionsOf, Flights, OneCallPerKey;
    var n := |s.pendingRequests|;
    InfoCallsAre(s.pendingRequests, ids[..n]);
    FlushActionsAre(s, ids);
    assert FlushCalls(s, ids)[..n] == InfoCalls(s.pendingRequests, SortedKeys(s.pendingRequests.Keys), ids[..n]);
  }
}
