/** A task that books a request, waits and reads it. */
module BookWaitRead {
  import opened Bytes
  import opened Values
  import opened Hosts
  import opened BookStores
  import opened BookSafety

  /** What reading an info result gives a peripheral: data, the host's error, or that nothing was requested. */
  datatype Reading = Data(data: seq<Byte>) | Bridge(error: BridgeError) | NotRequested

  function ReadingOf(r: Option<Outcome>): (reading: Reading)
    ensures reading == NotRequested <==> r == None
    ensures forall data :: reading == Data(data) <==> r == Some(Ok(data))
    ensures forall e :: reading == Bridge(e) <==> r == Some(Err(e))
  {
    match r
    case None => NotRequested
    case Some(Ok(data)) => Data(data)
    case Some(Err(e)) => Bridge(e)
  }

  function ResultOf(s: State, k: Key): Option<Outcome> {
    if k in s.results then Some(s.results[k].outcome) else None
  }

  /** No other task touches the info request of the key. */
  predicate Untouched(op: Op, k: Key) {
    match op
    case BookRequest(j, _) => j != k
    case ReadResult(j) => j != k
    case _ => true
  }

  /** The info requests of the key in flight. */
  ghost function InfoFlights(fs: seq<InFlight>, k: Key): seq<InFlight> {
    if fs == [] then []
    else
      var f := fs[|fs| - 1];
      InfoFlights(fs[..|fs| - 1], k) + if f.key == k && !f.isAction then [f] else []
  }

  // ------------------------------------------------------------------
  // The three phases of a booking
  // ------------------------------------------------------------------

  ghost predicate Booked(s: State, k: Key, args: Args) {
    k in s.pendingRequests && s.pendingRequests[k] == args && InfoFlights(s.inFlight, k) == []
  }

  /** Call n is the request the booking became. */
  ghost predicate IsCall(s: State, n: nat, k: Key, args: Args) {
    n < |s.log.issued| &&
    var c := s.log.issued[n];
    c.key == k && c.args == args && !c.isAction
  }

  ghost predicate InAir(s: State, k: Key, args: Args, base: nat) {
    k !in s.pendingRequests &&
    exists f :: InfoFlights(s.inFlight, k) == [f] && base <= f.serial && IsFlightOf(s, f, k, args)
  }

  /** The flight is of a call for the key with these arguments, under the id that call got. */
  ghost predicate IsFlightOf(s: State, f: InFlight, k: Key, args: Args) {
    IsCall(s, f.serial, k, args) && f.requestId == s.log.issued[f.serial].requestId
  }

  ghost predicate Landed(s: State, k: Key, args: Args, base: nat) {
    k !in s.pendingRequests && InfoFlights(s.inFlight, k) == [] && k in s.results &&
    exists i :: 0 <= i < |s.log.asked| && IsAskFor(s, s.log.asked[i], k, args, base) &&
      OutcomeOf(s.log.asked[i].reply) == Some(s.results[k].outcome)
  }

  /**
    The host was asked under the id it had given to a call for the key with these arguments,
    issued at base or later.
   */
  ghost predicate IsAskFor(s: State, a: Ask, k: Key, args: Args, base: nat) {
    && a.key == k && !a.isAction && base <= a.serial && IsCall(s, a.serial, k, args)
    && a.requestId == s.log.issued[a.serial].requestId
  }

  /** In the air or landed: what holds from the first flush on. */
  ghost predicate Sent(s: State, k: Key, args: Args, base: nat) {
    InAir(s, k, args, base) || Landed(s, k, args, base)
  }

  lemma {:induction false} InfoFlightsAppend(a: seq<InFlight>, b: seq<InFlight>, k: Key)
    ensures InfoFlights(a + b, k) == InfoFlights(a, k) + InfoFlights(b, k)
  {
    if b == [] {
      assert a + b == a;
    } else {
      assert (a + b)[..|a + b| - 1] == a + b[..|b| - 1];
      InfoFlightsAppend(a, b[..|b| - 1], k);
    }
  }

  lemma {:induction false} NoInfoFlights(fs: seq<InFlight>, k: Key)
    requires forall i :: 0 <= i < |fs| ==> fs[i].key != k || fs[i].isAction
    ensures InfoFlights(fs, k) == []
  {
    if fs != [] {
      NoInfoFlights(fs[..|fs| - 1], k);
    }
  }

  /** The flights of a flush, one by one. */
  lemma FlushFlights(s: State, ids: seq<I64>, i: nat)
    requires Enabled(s, Flush(ids)) && i < |ids|
    ensures var f, c := Flights(FlushCalls(s, ids), |s.log.issued|)[i], FlushCalls(s, ids)[i];
            var ks, n := SortedKeys(s.pendingRequests.Keys), |s.pendingRequests|;
            && f == InFlight(c.key, c.requestId, c.isAction, |s.log.issued| + i)
            && c.isAction == (i >= n)
            && (i < n ==> ks[i] in s.pendingRequests && c == Call(ks[i], s.pendingRequests[ks[i]], false, ids[i]))
  {
    hide SortedKeys;
    var ks := SortedKeys(s.pendingRequests.Keys);
    SortedKeysAre(s.pendingRequests.Keys);
    if i < |ks| { assert ks[i] in ks; }
  }

  /** A flush issues the key's request if it is pending, and none otherwise. */
  lemma FlushSends(s: State, ids: seq<I64>, k: Key)
    requires Enabled(s, Flush(ids))
    ensures var calls, base := FlushCalls(s, ids), |s.log.issued|;
            var fs := InfoFlights(Flights(calls, base), k);
            if k in s.pendingRequests
            then |fs| == 1 && base <= fs[0].serial < base + |calls| &&
                 var c := calls[fs[0].serial - base];
                 c == Call(k, s.pendingRequests[k], false, fs[0].requestId)
            else fs == []
  {
    hide SortedKeys, InfoFlights, FlushCalls, Flights, AscendingKeys, KeyNumber;
    var m, n, base := s.pendingRequests, |s.pendingRequests|, |s.log.issued|;
    var ks := SortedKeys(m.Keys);
    SortedKeysAre(m.Keys);
    var calls := FlushCalls(s, ids);
    var fs := Flights(calls, base);
    forall i | 0 <= i < |fs|
      ensures fs[i].isAction == (i >= n) && (i < n ==> fs[i].key == ks[i] && ks[i] in m)
    {
      FlushFlights(s, ids, i);
    }
    if k in m {
      assert k in ks;
      var p :| 0 <= p < n && ks[p] == k;
      FlushFlights(s, ids, p);
      OneInfoFlight(fs, k, p, n, ks);
    } else {
      NoInfoFlights(fs, k);
    }
  }

  lemma SingleFlight(f: InFlight, k: Key)
    ensures InfoFlights([f], k) == if f.key == k && !f.isAction then [f] else []
  {
    assert [f][..0] == [] && InfoFlights([], k) == [];
  }

  lemma OneInfoFlight(fs: seq<InFlight>, k: Key, p: nat, n: nat, ks: seq<Key>)
    requires p < n == |ks| <= |fs| && AscendingKeys(ks) && ks[p] == k
    requires forall i :: 0 <= i < |fs| ==> fs[i].isAction == (i >= n)
    requires forall i :: 0 <= i < n ==> fs[i].key == ks[i]
    ensures InfoFlights(fs, k) == [fs[p]]
  {
    hide InfoFlights;
    forall i | 0 <= i < n && i != p ensures ks[i] != k {
      assert if i < p then KeyNumber(ks[i]) < KeyNumber(ks[p]) else KeyNumber(ks[p]) < KeyNumber(ks[i]);
    }
    hide KeyNumber, AscendingKeys;
    var a, b := fs[..p], fs[p + 1..];
    NoInfoFlights(a, k);
    NoInfoFlights(b, k);
    SingleFlight(fs[p], k);
    InfoFlightsAppend(a, [fs[p]], k);
    InfoFlightsAppend(a + [fs[p]], b, k);
    assert a + [fs[p]] + b == fs;
  }

  lemma FlushFromBooked(s: State, ids: seq<I64>, k: Key, args: Args, base: nat)
    requires Enabled(s, Flush(ids)) && Booked(s, k, args) && base <= |s.log.issued|
    ensures InAir(Step(s, Flush(ids)), k, args, base)
  {
    hide InfoFlights, FlushCalls, Flights;
    var calls, b := FlushCalls(s, ids), |s.log.issued|;
    var fs := Flights(calls, b);
    FlushSends(s, ids, k);
    InfoFlightsAppend(s.inFlight, fs, k);
    var t := Step(s, Flush(ids));
    var f := InfoFlights(fs, k)[0];
    assert InfoFlights(t.inFlight, k) == [f];
    assert t.log.issued[f.serial] == calls[f.serial - b];
  }

  lemma FlushKeepsSent(s: State, ids: seq<I64>, k: Key, args: Args, base: nat)
    requires Enabled(s, Flush(ids)) && Sent(s, k, args, base)
    ensures Sent(Step(s, Flush(ids)), k, args, base)
  {
    hide InfoFlights, FlushCalls, Flights, OutcomeOf;
    var fs := Flights(FlushCalls(s, ids), |s.log.issued|);
    FlushSends(s, ids, k);
    InfoFlightsAppend(s.inFlight, fs, k);
    var t := Step(s, Flush(ids));
    if InAir(s, k, args, base) {
      var f :| InfoFlights(s.inFlight, k) == [f] && base <= f.serial && IsFlightOf(s, f, k, args);
      assert InfoFlights(t.inFlight, k) == [f] && IsFlightOf(t, f, k, args);
    } else {
      var i :| 0 <= i < |s.log.asked| && IsAskFor(s, s.log.asked[i], k, args, base) &&
        OutcomeOf(s.log.asked[i].reply) == Some(s.results[k].outcome);
      assert IsAskFor(t, t.log.asked[i], k, args, base);
    }
  }

  // ------------------------------------------------------------------
  // Poll rounds
  // ------------------------------------------------------------------

  /** In the middle of a round: `rest` is still to be polled. */
  ghost predicate SentWith(s: State, rest: seq<InFlight>, k: Key, args: Args, base: nat) {
    Sent(s.(inFlight := s.inFlight + rest), k, args, base)
  }

  /** One more ask in the log makes no difference. */
  lemma AskKeepsSent(s: State, a: Ask, k: Key, args: Args, base: nat)
    requires Sent(s, k, args, base)
    ensures Sent(s.(log := s.log.(asked := s.log.asked + [a])), k, args, base)
  {
    hide InfoFlights, OutcomeOf;
    var t := s.(log := s.log.(asked := s.log.asked + [a]));
    if InAir(s, k, args, base) {
      var f :| InfoFlights(s.inFlight, k) == [f] && base <= f.serial && IsFlightOf(s, f, k, args);
      assert IsFlightOf(t, f, k, args);
    } else {
      var i :| 0 <= i < |s.log.asked| && IsAskFor(s, s.log.asked[i], k, args, base) &&
        OutcomeOf(s.log.asked[i].reply) == Some(s.results[k].outcome);
      assert IsAskFor(t, t.log.asked[i], k, args, base);
    }
  }

  lemma PollOneKeepsSent(s: State, f: InFlight, rest: seq<InFlight>, reply: Reply, k: Key, args: Args, base: nat)
    requires SentWith(s, [f] + rest, k, args, base)
    ensures SentWith(PollOne(s, f, reply), rest, k, args, base)
  {
    hide InfoFlights, OutcomeOf;
    var t := PollOne(s, f, reply);
    var s', t' := s.(inFlight := s.inFlight + ([f] + rest)), t.(inFlight := t.inFlight + rest);
    if OutcomeOf(reply).None? {
      assert s.inFlight + ([f] + rest) == s.inFlight + [f] + rest;
      assert t' == s'.(log := t.log);
      AskKeepsSent(s', AskOf(f, reply), k, args, base);
    } else {
      FlightGone(s.inFlight, f, rest, k);
      if InAir(s', k, args, base) {
        var g :| InfoFlights(s'.inFlight, k) == [g] && base <= g.serial && IsFlightOf(s', g, k, args);
        if f.key == k && !f.isAction {
          var i := |s.log.asked|;
          assert IsAskFor(t', t'.log.asked[i], k, args, base);
        } else {
          assert InfoFlights(t'.inFlight, k) == [g] && IsFlightOf(t', g, k, args);
        }
      } else {
        var i :| 0 <= i < |s'.log.asked| && IsAskFor(s', s'.log.asked[i], k, args, base) &&
          OutcomeOf(s'.log.asked[i].reply) == Some(s'.results[k].outcome);
        assert IsAskFor(t', t'.log.asked[i], k, args, base);
      }
    }
  }

  /** Taking a flight out of the list removes it from the key's flights, if it is one. */
  lemma FlightGone(a: seq<InFlight>, f: InFlight, b: seq<InFlight>, k: Key)
    ensures var all := InfoFlights(a + ([f] + b), k);
            if f.key == k && !f.isAction
            then f in all && (|all| == 1 ==> all == [f] && InfoFlights(a + b, k) == [])
            else InfoFlights(a + b, k) == all
  {
    InfoFlightsAppend(a, [f] + b, k);
    InfoFlightsAppend([f], b, k);
    InfoFlightsAppend(a, b, k);
    SingleFlight(f, k);
  }

  lemma {:induction false} PollSomeKeepsSent(s: State, fs: seq<InFlight>, replies: seq<Reply>, n: nat,
                                             k: Key, args: Args, base: nat)
    requires n <= |fs| == |replies| && SentWith(s, fs, k, args, base)
    ensures SentWith(PollSome(s, fs, replies, n), fs[n..], k, args, base)
  {
    hide SentWith;
    if n == 0 {
      assert fs[0..] == fs;
    } else {
      PollSomeKeepsSent(s, fs, replies, n - 1, k, args, base);
      assert fs[n - 1..] == [fs[n - 1]] + fs[n..];
      PollOneKeepsSent(PollSome(s, fs, replies, n - 1), fs[n - 1], fs[n..], replies[n - 1], k, args, base);
    }
  }

  lemma PollKeepsSent(s: State, replies: seq<Reply>, k: Key, args: Args, base: nat)
    requires Enabled(s, PollAll(replies)) && Sent(s, k, args, base)
    ensures Sent(Step(s, PollAll(replies)), k, args, base)
  {
    hide Sent, PollSome;
    var s0, n := s.(inFlight := []), |replies|;
    assert s0.inFlight + s.inFlight == s.inFlight;
    PollSomeKeepsSent(s0, s.inFlight, replies, n, k, args, base);
    var t := PollSome(s0, s.inFlight, replies, n);
    assert t.inFlight + s.inFlight[n..] == t.inFlight;
  }

  /** Requests of other keys or kinds stay so through a round. */
  lemma {:induction false} PollKeepsBooked(s: State, fs: seq<InFlight>, replies: seq<Reply>, n: nat, k: Key)
    requires n <= |fs| == |replies| && s.inFlight == []
    requires InfoFlights(fs, k) == []
    ensures InfoFlights(PollSome(s, fs, replies, n).inFlight, k) == []
  {
    hide OutcomeOf, InfoFlights;
    if n == 0 {
      NoInfoFlights([], k);
    } else {
      PollKeepsBooked(s, fs, replies, n - 1, k);
      var t, f := PollSome(s, fs, replies, n - 1), fs[n - 1];
      FlightGone(fs[..n - 1], f, fs[n..], k);
      assert fs[..n - 1] + ([f] + fs[n..]) == fs;
      SingleFlight(f, k);
      InfoFlightsAppend(t.inFlight, [f], k);
    }
  }

  // ------------------------------------------------------------------
  // Runs
  // ------------------------------------------------------------------

  lemma StepKeepsSent(s: State, op: Op, k: Key, args: Args, base: nat)
    requires Enabled(s, op) && Untouched(op, k) && Sent(s, k, args, base)
    ensures Sent(Step(s, op), k, args, base)
  {
    match op
    case Flush(ids) => FlushKeepsSent(s, ids, k, args, base);
    case PollAll(replies) => PollKeepsSent(s, replies, k, args, base);
    case _ => OtherStepsKeepSent(s, op, k, args, base);
  }

  lemma OtherStepsKeepSent(s: State, op: Op, k: Key, args: Args, base: nat)
    requires Enabled(s, op) && Untouched(op, k) && Sent(s, k, args, base) && !op.Flush? && !op.PollAll?
    ensures Sent(Step(s, op), k, args, base)
  {
    hide InfoFlights, OutcomeOf, Settled;
    var t := Step(s, op);
    if InAir(s, k, args, base) {
      var f :| InfoFlights(s.inFlight, k) == [f] && base <= f.serial && IsFlightOf(s, f, k, args);
      assert InfoFlights(t.inFlight, k) == [f] && IsFlightOf(t, f, k, args);
    } else {
      var i :| 0 <= i < |s.log.asked| && IsAskFor(s, s.log.asked[i], k, args, base) &&
        OutcomeOf(s.log.asked[i].reply) == Some(s.results[k].outcome);
      assert IsAskFor(t, t.log.asked[i], k, args, base);
    }
  }

  lemma StepKeepsBooked(s: State, op: Op, k: Key, args: Args, base: nat)
    requires Enabled(s, op) && Untouched(op, k) && Booked(s, k, args) && base <= |s.log.issued|
    ensures if op.Flush? then Sent(Step(s, op), k, args, base) else Booked(Step(s, op), k, args)
    ensures base <= |Step(s, op).log.issued|
  {
    hide InfoFlights, InAir, Landed, PollSome, Settled, FlushCalls;
    match op
    case Flush(ids) => FlushFromBooked(s, ids, k, args, base);
    case PollAll(replies) =>
      var s0 := s.(inFlight := []);
      NoInfoFlights([], k);
      PollKeepsBooked(s0, s.inFlight, replies, |replies|, k);
      PollKeepsBookings(s0, s.inFlight, replies, |replies|);
    case _ =>
  }

  /** Before the first flush the booking is pending, from then on it is sent. */
  lemma {:induction false} RunKeepsPhase(s: State, ops: seq<Op>, k: Key, args: Args, base: nat)
    requires forall op :: op in ops ==> Untouched(op, k)
    requires (Booked(s, k, args) || Sent(s, k, args, base)) && base <= |s.log.issued|
    ensures var t := Run(s, ops);
            (Booked(t, k, args) || Sent(t, k, args, base)) && base <= |t.log.issued|
    ensures Sent(s, k, args, base) ==> Sent(Run(s, ops), k, args, base)
  {
    hide Booked, Sent, Step, Enabled, Untouched;
    if ops != [] {
      var init, op := ops[..|ops| - 1], ops[|ops| - 1];
      RunKeepsPhase(s, init, k, args, base);
      var t := Run(s, init);
      if Enabled(t, op) {
        if Sent(t, k, args, base) {
          StepKeepsSent(t, op, k, args, base);
          IssuedGrows(t, op);
        } else {
          StepKeepsBooked(t, op, k, args, base);
        }
      }
    }
  }

  lemma IssuedGrows(s: State, op: Op)
    requires Enabled(s, op)
    ensures |s.log.issued| <= |Step(s, op).log.issued|
  {
    if op.PollAll? {
      PollKeepsBookings(s.(inFlight := []), s.inFlight, op.replies, |op.replies|);
    }
  }

  // ------------------------------------------------------------------
  // A booking is called once
  // ------------------------------------------------------------------

  ghost predicate IsInfoCall(c: Call, k: Key) {
    c.key == k && !c.isAction
  }

  /** From base on there is at most one info call for the key. */
  ghost predicate OnceSince(calls: seq<Call>, k: Key, base: nat) {
    forall m, n :: base <= m < n < |calls| && IsInfoCall(calls[m], k) ==> !IsInfoCall(calls[n], k)
  }

  /** And none while its request is pending. */
  ghost predicate CalledOnce(s: State, k: Key, base: nat) {
    && base <= |s.log.issued| && OnceSince(s.log.issued, k, base)
    && (k in s.pendingRequests ==> forall m :: base <= m < |s.log.issued| ==> !IsInfoCall(s.log.issued[m], k))
  }

  lemma FlushCallsOnce(s: State, ids: seq<I64>, k: Key)
    requires Enabled(s, Flush(ids))
    ensures OnceSince(FlushCalls(s, ids), k, 0)
    ensures k !in s.pendingRequests ==>
      forall i :: 0 <= i < |ids| ==> !IsInfoCall(FlushCalls(s, ids)[i], k)
  {
    hide SortedKeys, KeyNumber;
    var n := |s.pendingRequests|;
    var infos := InfoCalls(s.pendingRequests, SortedKeys(s.pendingRequests.Keys), ids[..n]);
    InfoCallsAre(s.pendingRequests, ids[..n]);
    var calls := FlushCalls(s, ids);
    forall i | 0 <= i < |calls| ensures if i < n then calls[i] == infos[i] else calls[i].isAction {}
    forall i, j | 0 <= i < j < n ensures infos[i].key != infos[j].key {
      assert KeyNumber(infos[i].key) < KeyNumber(infos[j].key);
    }
  }

  lemma StepCallsOnce(s: State, op: Op, k: Key, base: nat)
    requires Enabled(s, op) && Untouched(op, k) && CalledOnce(s, k, base)
    ensures CalledOnce(Step(s, op), k, base)
  {
    hide FlushCalls, PollSome, Settled, Flights;
    match op
    case Flush(ids) =>
      FlushCallsOnce(s, ids, k);
      JoinOnce(s.log.issued, FlushCalls(s, ids), k, base);
    case PollAll(replies) => PollKeepsBookings(s.(inFlight := []), s.inFlight, replies, |replies|);
    case _ =>
  }

  lemma JoinOnce(a: seq<Call>, b: seq<Call>, k: Key, base: nat)
    requires base <= |a| && OnceSince(a, k, base) && OnceSince(b, k, 0)
    requires || (forall m :: base <= m < |a| ==> !IsInfoCall(a[m], k))
             || (forall i :: 0 <= i < |b| ==> !IsInfoCall(b[i], k))
    ensures OnceSince(a + b, k, base)
  {
    hide IsInfoCall;
  }

  lemma {:induction false} RunCallsOnce(s: State, ops: seq<Op>, k: Key, base: nat)
    requires forall op :: op in ops ==> Untouched(op, k)
    requires CalledOnce(s, k, base)
    ensures CalledOnce(Run(s, ops), k, base)
  {
    hide CalledOnce, Step, Enabled, Untouched;
    if ops != [] {
      var t, op := Run(s, ops[..|ops| - 1]), ops[|ops| - 1];
      RunCallsOnce(s, ops[..|ops| - 1], k, base);
      if Enabled(t, op) {
        StepCallsOnce(t, op, k, base);
      }
    }
  }

  lemma WaitRunCallsOnce(s: State, k: Key, args: Args, before: seq<Op>, ids: seq<I64>,
                         during: seq<Op>, replies: seq<Reply>, after: seq<Op>, t: State)
    requires WaitRun(s, k, args, before, ids, during, replies, after, t)
    ensures OnceSince(t.log.issued, k, |s.log.issued|)
  {
    var base, s0 := |s.log.issued|, Step(s, BookRequest(k, args));
    assert CalledOnce(s0, k, base);
    assert Untouched(Flush(ids), k) && Untouched(PollAll(replies), k);
    hide Run, Step, Enabled, Untouched, OnceSince;
    var s1 := Run(s0, before);
    RunCallsOnce(s0, before, k, base);
    StepCallsOnce(s1, Flush(ids), k, base);
    var s2 := Run(Step(s1, Flush(ids)), during);
    RunCallsOnce(Step(s1, Flush(ids)), during, k, base);
    StepCallsOnce(s2, PollAll(replies), k, base);
    RunCallsOnce(Step(s2, PollAll(replies)), after, k, base);
  }

  // ------------------------------------------------------------------
  // Book, wait, read
  // ------------------------------------------------------------------

  /**
    The key's stored result is a final answer the host gave when asked under the id it had given to
    the one info call for the key issued at base or later, which had these arguments.
   */
  ghost predicate GotReply(s: State, k: Key, args: Args, base: nat) {
    && ReadingOf(ResultOf(s, k)) != NotRequested && OnceSince(s.log.issued, k, base)
    && exists a :: a in s.log.asked && IsAskFor(s, a, k, args, base) && OutcomeOf(a.reply) == ResultOf(s, k)
  }

  /**
    Book, wait, read: k is booked in s; at some later flush and some later poll round leaving nothing
    in flight the wait is over; t is when the result is read. Anything not touching the key may happen
    before the flush, between the two, and before the read.
   */
  ghost predicate WaitRun(s: State, k: Key, args: Args, before: seq<Op>, ids: seq<I64>,
                          during: seq<Op>, replies: seq<Reply>, after: seq<Op>, t: State)
  {
    (forall op :: op in before + during + after ==> Untouched(op, k)) &&
    var s1 := Run(Step(s, BookRequest(k, args)), before);
    Enabled(s1, Flush(ids)) &&
    var s2 := Run(Step(s1, Flush(ids)), during);
    Enabled(s2, PollAll(replies)) &&
    var s3 := Step(s2, PollAll(replies));
    s3.inFlight == [] && t == Run(s3, after)
  }

  /** Without an older info request of the key in flight, reading gives such an answer, never `NotRequested`. */
  lemma BookWaitReadGetsReply(s: State, k: Key, args: Args, before: seq<Op>, ids: seq<I64>,
                              during: seq<Op>, replies: seq<Reply>, after: seq<Op>, t: State)
    requires InfoFlights(s.inFlight, k) == []
    requires WaitRun(s, k, args, before, ids, during, replies, after, t)
    ensures GotReply(t, k, args, |s.log.issued|)
  {
    WaitRunCallsOnce(s, k, args, before, ids, during, replies, after, t);
    hide Run, InfoFlights, Untouched, Step, Booked, Sent, InAir, Landed, GotReply, OnceSince;
    var base := |s.log.issued|;
    var s1 := Run(Step(s, BookRequest(k, args)), before);
    var s2 := Run(Step(s1, Flush(ids)), during);
    BookingStarts(s, k, args);
    RunKeepsPhase(Step(s, BookRequest(k, args)), before, k, args, base);
    AfterFlush(s1, ids, k, args, base);
    RunKeepsPhase(Step(s1, Flush(ids)), during, k, args, base);
    PollKeepsSent(s2, replies, k, args, base);
    NothingInAir(Step(s2, PollAll(replies)), k, args, base);
    LandedStays(Step(s2, PollAll(replies)), after, k, args, base);
    LandedReads(t, k, args, base);
  }

  lemma BookingStarts(s: State, k: Key, args: Args)
    requires InfoFlights(s.inFlight, k) == []
    ensures Booked(Step(s, BookRequest(k, args)), k, args)
    ensures Step(s, BookRequest(k, args)).log.issued == s.log.issued
  {}

  lemma NothingInAir(s: State, k: Key, args: Args, base: nat)
    requires Sent(s, k, args, base) && s.inFlight == []
    ensures Landed(s, k, args, base)
  {
    NoInfoFlights([], k);
  }

  lemma LandedReads(s: State, k: Key, args: Args, base: nat)
    requires Landed(s, k, args, base) && OnceSince(s.log.issued, k, base)
    ensures GotReply(s, k, args, base)
  {}

  lemma AfterFlush(s: State, ids: seq<I64>, k: Key, args: Args, base: nat)
    requires Enabled(s, Flush(ids)) && base <= |s.log.issued|
    requires Booked(s, k, args) || Sent(s, k, args, base)
    ensures Sent(Step(s, Flush(ids)), k, args, base) && base <= |Step(s, Flush(ids)).log.issued|
  {
    hide InfoFlights, OutcomeOf;
    IssuedGrows(s, Flush(ids));
    if Booked(s, k, args) {
      FlushFromBooked(s, ids, k, args, base);
    } else {
      FlushKeepsSent(s, ids, k, args, base);
    }
  }

  lemma {:induction false} LandedStays(s: State, ops: seq<Op>, k: Key, args: Args, base: nat)
    requires forall op :: op in ops ==> Untouched(op, k)
    requires Landed(s, k, args, base)
    ensures Landed(Run(s, ops), k, args, base)
  {
    hide Landed, Step, Enabled, Untouched;
    if ops != [] {
      var t, op := Run(s, ops[..|ops| - 1]), ops[|ops| - 1];
      LandedStays(s, ops[..|ops| - 1], k, args, base);
      if Enabled(t, op) {
        StepKeepsLanded(t, op, k, args, base);
      }
    }
  }

  lemma StepKeepsLanded(s: State, op: Op, k: Key, args: Args, base: nat)
    requires Enabled(s, op) && Untouched(op, k) && Landed(s, k, args, base)
    ensures Landed(Step(s, op), k, args, base)
  {
    hide InfoFlights, OutcomeOf, Step;
    StepKeepsSent(s, op, k, args, base);
    NoNewFlight(s, op, k);
  }

  /** With nothing pending and nothing in flight for the key, nothing of it takes off. */
  lemma NoNewFlight(s: State, op: Op, k: Key)
    requires Enabled(s, op) && Untouched(op, k) && k !in s.pendingRequests && InfoFlights(s.inFlight, k) == []
    ensures InfoFlights(Step(s, op).inFlight, k) == []
  {
    hide InfoFlights, PollSome, FlushCalls, Flights, Settled;
    match op
    case Flush(ids) =>
      FlushSends(s, ids, k);
      InfoFlightsAppend(s.inFlight, Flights(FlushCalls(s, ids), |s.log.issued|), k);
    case PollAll(replies) =>
      NoInfoFlights([], k);
      PollKeepsBooked(s.(inFlight := []), s.inFlight, replies, |replies|, k);
    case _ =>
  }

  // ------------------------------------------------------------------
  // An older request of the same key can win
  // ------------------------------------------------------------------

  predicate Plain(r: Reply) {
    r == Reply(0, 0, []) || r == Reply(1, 0, [])
  }

  /** Answers to n requests: request j is not finished, all others get an empty payload. */
  ghost function AllBut(n: nat, j: nat): (replies: seq<Reply>)
    ensures |replies| == n
    ensures forall i :: 0 <= i < n ==> Plain(replies[i]) && (replies[i].status == 0 <==> i == j)
  {
    seq(n, i => if i == j then Reply(0, 0, []) else Reply(1, 0, []))
  }

  lemma PollOnePlain(s: State, f: InFlight, r: Reply)
    requires Plain(r)
    ensures var t := PollOne(s, f, r);
            && t.inFlight == s.inFlight + (if r.status == 0 then [f] else [])
            && t.log.issued == s.log.issued && t.log.asked == s.log.asked + [AskOf(f, r)]
  {}

  lemma {:induction false} PollAllBut(s: State, fs: seq<InFlight>, j: nat, n: nat)
    requires n <= |fs| && s.inFlight == []
    ensures var t := PollSome(s, fs, AllBut(|fs|, j), n);
            && t.inFlight == (if j < n then [fs[j]] else [])
            && t.log.issued == s.log.issued
            && forall a :: a in t.log.asked ==> a in s.log.asked || Plain(a.reply)
  {
    hide PollOne;
    if n > 0 {
      PollAllBut(s, fs, j, n - 1);
      PollOnePlain(PollSome(s, fs, AllBut(|fs|, j), n - 1), fs[n - 1], AllBut(|fs|, j)[n - 1]);
    }
  }

  lemma {:induction false} InfoFlightAt(fs: seq<InFlight>, k: Key) returns (j: nat)
    requires InfoFlights(fs, k) != []
    ensures j < |fs| && fs[j].key == k && !fs[j].isAction
  {
    var n := |fs| - 1;
    if fs[n].key == k && !fs[n].isAction {
      j := n;
    } else {
      j := InfoFlightAt(fs[..n], k);
    }
  }

  lemma LastTimesOut(s: State, f: InFlight)
    requires s.inFlight == [f] && !f.isAction
    ensures var q := PollAll([Reply(-5, 0, [])]);
            && Enabled(s, q)
            && var t := Step(s, q);
               && t.inFlight == [] && f.key in t.results && t.results[f.key] == Stored(Err(Timeout), f.serial)
               && t.log.issued == s.log.issued
               && t.log.asked == s.log.asked + [Ask(f.key, false, f.serial, f.requestId, Reply(-5, 0, []))]
  {
    var q := [Reply(-5, 0, [])];
    assert ToI32(-5) == -5;
    var s0 := s.(inFlight := []);
    assert PollSome(s0, [f], q, 1) == PollOne(PollSome(s0, [f], q, 0), f, q[0]);
  }

  lemma RunOne(s: State, op: Op)
    ensures Run(s, []) == s
    ensures Enabled(s, op) ==> Run(s, [op]) == Step(s, op)
  {
    assert [op][..0] == [];
  }

  lemma NotTheReply(s: State, k: Key, args: Args, base: nat)
    requires k in s.results && s.results[k].outcome == Err(Timeout)
    requires forall a :: a in s.log.asked ==> a.serial < base || Plain(a.reply)
    ensures !GotReply(s, k, args, base)
  {
    assert OutcomeOf(Reply(1, 0, [])) == Some(Ok([])) && OutcomeOf(Reply(0, 0, [])) == None;
    hide OutcomeOf;
  }

  /**
    Whatever ids the host assigns, there is a run in which the read gives the outcome of the older
    request, which is the host's answer to no call of the booking.
   */
  lemma OlderRequestWins(s: State, k: Key, args: Args, ids: seq<I64>)
    returns (during: seq<Op>, replies: seq<Reply>, t: State)
    requires Inv(s) && InfoFlights(s.inFlight, k) != []
    requires Enabled(Step(s, BookRequest(k, args)), Flush(ids))
    ensures WaitRun(s, k, args, [], ids, during, replies, [], t)
    ensures k in t.results && t.results[k].serial < |s.log.issued|
    ensures !GotReply(t, k, args, |s.log.issued|)
    ensures t.log.issued == s.log.issued + FlushCalls(Step(s, BookRequest(k, args)), ids)
  {
    hide InfoFlights, Run, Settled, FlushCalls, PollSome, ResultsKept, OutcomeOf, GotReply, FinalIsLast, SettledSerials;
    var j := InfoFlightAt(s.inFlight, k);
    var s1 := Step(s, BookRequest(k, args));
    var u1 := Step(s1, Flush(ids));
    var op := PollAll(AllBut(|u1.inFlight|, j));
    PollAllBut(u1.(inFlight := []), u1.inFlight, j, |u1.inFlight|);
    assert Enabled(u1, op);
    var s2 := Step(u1, op);
    assert s2.inFlight == [s.inFlight[j]];
    LastTimesOut(s2, s.inFlight[j]);
    replies := [Reply(-5, 0, [])];
    during := [op];
    t := Step(s2, PollAll(replies));
    assert forall a :: a in s.log.asked ==> a.serial < |s.log.issued|;
    assert s.inFlight[j].serial < |s.log.issued|;
    NotTheReply(t, k, args, |s.log.issued|);
    RunOne(s1, op);
    RunOne(u1, op);
    RunOne(t, op);
  }

  /**
    Exactly when no info request of the key is in flight at the booking, every such run ends with a
    final answer the host gave under the id of the one call made for this booking.
   */
  lemma ReplyIsCertainIff(s: State, k: Key, args: Args)
    requires Inv(s)
    ensures (forall before, ids, during, replies, after, t ::
              WaitRun(s, k, args, before, ids, during, replies, after, t) ==> GotReply(t, k, args, |s.log.issued|))
        <==> InfoFlights(s.inFlight, k) == []
  {
    hide WaitRun, GotReply, InfoFlights, Inv;
    if InfoFlights(s.inFlight, k) == [] {
      forall before, ids, during, replies, after, t | WaitRun(s, k, args, before, ids, during, replies, after, t)
        ensures GotReply(t, k, args, |s.log.issued|)
      {
        BookWaitReadGetsReply(s, k, args, before, ids, during, replies, after, t);
      }
    } else {
      var s1 := Step(s, BookRequest(k, args));
      var ids := seq(|s1.pendingRequests| + |s1.pendingActions|, i => 0);
      var during, replies, t := OlderRequestWins(s, k, args, ids);
    }
  }

  // ------------------------------------------------------------------
  // With unique ids
  // ------------------------------------------------------------------

  /**
    The stored result is the one final answer the host ever gave under the id of the one info call
    for the key issued at base or later, and that id is no other call's.
   */
  ghost predicate OwnReply(s: State, k: Key, args: Args, base: nat) {
    OnceSince(s.log.issued, k, base) &&
    exists n :: base <= n && IsCall(s, n, k, args) && IsOnlyAnswer(s, s.log.issued[n].requestId, ResultOf(s, k)) &&
      forall m :: 0 <= m < |s.log.issued| && m != n ==> s.log.issued[m].requestId != s.log.issued[n].requestId
  }

  /** The host gave exactly one final answer under the id, with this outcome. */
  ghost predicate IsOnlyAnswer(s: State, id: I64, r: Option<Outcome>) {
    r.Some? &&
    exists i :: 0 <= i < |s.log.asked| && s.log.asked[i].requestId == id && OutcomeOf(s.log.asked[i].reply) == r &&
      forall j :: 0 <= j < |s.log.asked| && j != i && s.log.asked[j].requestId == id ==>
        s.log.asked[j].reply.status == 0
  }

  /** With unique ids the two are the same. */
  lemma OwnReplyIff(s: State, k: Key, args: Args, base: nat)
    requires Inv(s) && UniqueIds(s.log.issued)
    ensures OwnReply(s, k, args, base) <==> GotReply(s, k, args, base)
  {
    hide ResultsKept, BookingsKept, FinalIsLast, FlightsMatch, SettledSerials, OutcomeOf, OnceSince;
    if GotReply(s, k, args, base) {
      var a :| a in s.log.asked && IsAskFor(s, a, k, args, base) && OutcomeOf(a.reply) == ResultOf(s, k);
      var i :| 0 <= i < |s.log.asked| && s.log.asked[i] == a;
      forall j | 0 <= j < |s.log.asked| && j != i && s.log.asked[j].requestId == a.requestId
        ensures s.log.asked[j].reply.status == 0
      {
        if j < i {
          FinalAnswerIsLast(s, j, i);
        } else {
          FinalAnswerIsLast(s, i, j);
        }
      }
      assert IsOnlyAnswer(s, a.requestId, ResultOf(s, k));
    }
    if OwnReply(s, k, args, base) {
      var n :| base <= n && IsCall(s, n, k, args) &&
        IsOnlyAnswer(s, s.log.issued[n].requestId, ResultOf(s, k));
      var i :| 0 <= i < |s.log.asked| && s.log.asked[i].requestId == s.log.issued[n].requestId &&
        OutcomeOf(s.log.asked[i].reply) == ResultOf(s, k);
      IdTells(s, i, n);
      assert IsAskFor(s, s.log.asked[i], k, args, base);
    }
  }

  lemma WaitRunKeepsInv(s: State, k: Key, args: Args, before: seq<Op>, ids: seq<I64>,
                        during: seq<Op>, replies: seq<Reply>, after: seq<Op>, t: State)
    requires Inv(s) && WaitRun(s, k, args, before, ids, during, replies, after, t)
    ensures Inv(t)
  {
    assert Enabled(s, BookRequest(k, args));
    hide Inv, Step, Run, Enabled, Untouched;
    StepKeepsInv(s, BookRequest(k, args));
    var s1 := Run(Step(s, BookRequest(k, args)), before);
    RunFromKeepsInv(Step(s, BookRequest(k, args)), before);
    StepKeepsInv(s1, Flush(ids));
    var s2 := Run(Step(s1, Flush(ids)), during);
    RunFromKeepsInv(Step(s1, Flush(ids)), during);
    StepKeepsInv(s2, PollAll(replies));
    RunFromKeepsInv(Step(s2, PollAll(replies)), after);
  }

  /**
    The same where the host never gives two calls the same id (and has ids left for the next
    flush): exactly when no info request of the key is in flight at the booking, every such run
    ends with the one final answer the host ever gave under the id of the booking's own call.
   */
  lemma OwnReplyIsCertainIff(s: State, k: Key, args: Args, fresh': seq<I64>)
    requires Inv(s) && Enabled(Step(s, BookRequest(k, args)), Flush(fresh'))
    requires UniqueIds(s.log.issued + FlushCalls(Step(s, BookRequest(k, args)), fresh'))
    ensures (forall before, ids, during, replies, after, t ::
              WaitRun(s, k, args, before, ids, during, replies, after, t) && UniqueIds(t.log.issued)
              ==> OwnReply(t, k, args, |s.log.issued|))
        <==> InfoFlights(s.inFlight, k) == []
  {
    hide WaitRun, GotReply, OwnReply, InfoFlights, Inv, UniqueIds, Step, Enabled, FlushCalls;
    if InfoFlights(s.inFlight, k) == [] {
      forall before, ids, during, replies, after, t
        | WaitRun(s, k, args, before, ids, during, replies, after, t) && UniqueIds(t.log.issued)
        ensures OwnReply(t, k, args, |s.log.issued|)
      {
        BookWaitReadGetsReply(s, k, args, before, ids, during, replies, after, t);
        WaitRunKeepsInv(s, k, args, before, ids, during, replies, after, t);
        OwnReplyIff(t, k, args, |s.log.issued|);
      }
    } else {
      var during, replies, t := OlderRequestWins(s, k, args, fresh');
      WaitRunKeepsInv(s, k, args, [], fresh', during, replies, [], t);
      OwnReplyIff(t, k, args, |s.log.issued|);
    }
  }
}
