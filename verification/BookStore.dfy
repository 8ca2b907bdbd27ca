/** The store behind book, flush, poll and read. */
module BookStores {
  import opened Bytes
  import opened Values
  import opened Hosts

  type Args = seq<Byte>

  datatype Booking = Booking(key: Key, args: Args)

  /** A request waiting for its result; `serial` is its position among the host calls. */
  datatype InFlight = InFlight(key: Key, requestId: I64, isAction: bool, ghost serial: nat)

  datatype Stored = Stored(outcome: Outcome, ghost serial: nat)

  /** Host call `serial` was asked for by its request id and got `reply`, which may settle it. */
  datatype Ask = Ask(key: Key, isAction: bool, serial: nat, requestId: I64, reply: Reply)

  /** What happened so far. */
  datatype Log = Log(
    booked: seq<Booking>,                 // action bookings, in order
    sinceFlush: seq<Booking>,             // info bookings since the last flush, in order
    issued: seq<Call>,                    // host calls, in order
    asked: seq<Ask>,                      // calls asked for, in order
    readActions: map<Key, seq<Stored>>,   // action results handed out so far
    seen: map<Key, nat>)                  // info results settled when the key was last read

  datatype State = State(
    pendingRequests: map<Key, Args>,
    pendingActions: seq<Booking>,
    inFlight: seq<InFlight>,
    results: map<Key, Stored>,
    actionResults: map<Key, seq<Stored>>,
    log: Log)

  ghost const INITIAL: State := State(map[], [], [], map[], map[], Log([], [], [], [], map[], map[]))

  ghost function Get<V>(m: map<Key, seq<V>>, k: Key): seq<V> {
    if k in m then m[k] else []
  }

  // ------------------------------------------------------------------
  // Key order
  // ------------------------------------------------------------------

  predicate Before(a: Key, b: Key) {
    a.periph < b.periph || (a.periph == b.periph && a.mid < b.mid)
  }

  /** The number whose high half is the peripheral and whose low half is the method. */
  function KeyNumber(k: Key): nat {
    k.periph * 0x1_0000_0000 + k.mid
  }

  lemma BeforeIsLess(a: Key, b: Key)
    ensures Before(a, b) <==> KeyNumber(a) < KeyNumber(b)
  {}

  predicate IsFirst(k: Key, keys: set<Key>) {
    k in keys && forall j :: j in keys ==> j == k || Before(k, j)
  }

  lemma {:induction false} FirstExists(keys: set<Key>)
    requires keys != {}
    ensures exists k :: IsFirst(k, keys)
    decreases |keys|
  {
    var k :| k in keys;
    if keys - {k} == {} {
      assert keys == {k};
      assert IsFirst(k, keys);
    } else {
      FirstExists(keys - {k});
      var j :| IsFirst(j, keys - {k});
      if Before(k, j) {
        forall m | m in keys ensures m == k || Before(k, m) {
          assert m == k || m in keys - {k};
        }
        assert IsFirst(k, keys);
      } else {
        forall m | m in keys ensures m == j || Before(j, m) {
          assert m == k || m in keys - {k};
        }
        assert IsFirst(j, keys);
      }
    }
  }

  /** The keys of an ordered map, in the order it is walked. */
  ghost function SortedKeys(keys: set<Key>): (ks: seq<Key>)
    ensures |ks| == |keys|
    decreases |keys|
  {
    if keys == {} then []
    else
      FirstExists(keys);
      var k :| IsFirst(k, keys);
      [k] + SortedKeys(keys - {k})
  }

  ghost predicate AscendingKeys(ks: seq<Key>) {
    forall i, j :: 0 <= i < j < |ks| ==> KeyNumber(ks[i]) < KeyNumber(ks[j])
  }

  lemma {:induction false} SortedKeysAre(keys: set<Key>)
    ensures AscendingKeys(SortedKeys(keys))
    ensures forall k :: k in SortedKeys(keys) <==> k in keys
    decreases |keys|
  {
    if keys != {} {
      FirstExists(keys);
      var ks := SortedKeys(keys);
      SortedKeysAre(keys - {ks[0]});
      assert ks[1..] == SortedKeys(keys - {ks[0]});
      forall i | 0 < i < |ks| ensures KeyNumber(ks[0]) < KeyNumber(ks[i]) {
        assert ks[i] in ks[1..];
        BeforeIsLess(ks[0], ks[i]);
      }
    }
  }

  // ------------------------------------------------------------------
  // Steps
  // ------------------------------------------------------------------

  /** What a step needs from the host is part of the operation. */
  datatype Op =
    | BookRequest(key: Key, args: Args)
    | BookAction(key: Key, args: Args)
    | Flush(ids: seq<I64>)
    | PollAll(replies: seq<Reply>)
    | ReadResult(key: Key)
    | ReadActions(key: Key)

  /** The host answers every call and every poll. */
  ghost predicate Enabled(s: State, op: Op) {
    match op
    case Flush(ids) => |ids| == |s.pendingRequests| + |s.pendingActions|
    case PollAll(replies) => |replies| == |s.inFlight| && forall i :: 0 <= i < |replies| ==> replies[i].Fits()
    case _ => true
  }

  ghost function InfoCalls(m: map<Key, Args>, ks: seq<Key>, ids: seq<I64>): (calls: seq<Call>)
    requires |ks| == |ids|
    ensures |calls| == |ks|
  {
    seq(|ks|, i requires 0 <= i < |ks| => Call(ks[i], if ks[i] in m then m[ks[i]] else [], false, ids[i]))
  }

  ghost function ActionCalls(bs: seq<Booking>, ids: seq<I64>): (calls: seq<Call>)
    requires |bs| == |ids|
    ensures |calls| == |bs|
  {
    seq(|bs|, i requires 0 <= i < |bs| => Call(bs[i].key, bs[i].args, true, ids[i]))
  }

  /** Everything a flush issues: info requests in key order, then actions in booking order. */
  ghost function FlushCalls(s: State, ids: seq<I64>): (calls: seq<Call>)
    requires Enabled(s, Flush(ids))
    ensures |calls| == |ids|
  {
    var n := |s.pendingRequests|;
    InfoCalls(s.pendingRequests, SortedKeys(s.pendingRequests.Keys), ids[..n]) + ActionCalls(s.pendingActions, ids[n..])
  }

  ghost function Flights(calls: seq<Call>, base: nat): (fs: seq<InFlight>)
    ensures |fs| == |calls|
  {
    seq(|calls|, i requires 0 <= i < |calls| =>
      InFlight(calls[i].key, calls[i].requestId, calls[i].isAction, base + i))
  }

  ghost function AskOf(f: InFlight, reply: Reply): Ask {
    Ask(f.key, f.isAction, f.serial, f.requestId, reply)
  }

  /** One request polled: kept, or settled into its result map. */
  ghost function PollOne(s: State, f: InFlight, reply: Reply): State {
    var s' := s.(log := s.log.(asked := s.log.asked + [AskOf(f, reply)]));
    match OutcomeOf(reply)
    case None => s'.(inFlight := s.inFlight + [f])
    case Some(o) =>
      var st := Stored(o, f.serial);
      if f.isAction then s'.(actionResults := s.actionResults[f.key := Get(s.actionResults, f.key) + [st]])
      else s'.(results := s.results[f.key := st])
  }

  /** The first n requests of a round polled. */
  ghost function PollSome(s: State, fs: seq<InFlight>, replies: seq<Reply>, n: nat): State
    requires n <= |fs| == |replies|
  {
    if n == 0 then s else PollOne(PollSome(s, fs, replies, n - 1), fs[n - 1], replies[n - 1])
  }

  ghost function Step(s: State, op: Op): State
    requires Enabled(s, op)
  {
    match op
    case BookRequest(k, args) =>
      s.(pendingRequests := s.pendingRequests[k := args],
         log := s.log.(sinceFlush := s.log.sinceFlush + [Booking(k, args)]))
    case BookAction(k, args) =>
      s.(pendingActions := s.pendingActions + [Booking(k, args)],
         log := s.log.(booked := s.log.booked + [Booking(k, args)]))
    case Flush(ids) =>
      var calls := FlushCalls(s, ids);
      s.(pendingRequests := map[], pendingActions := [],
         inFlight := s.inFlight + Flights(calls, |s.log.issued|),
         log := s.log.(sinceFlush := [], issued := s.log.issued + calls))
    case PollAll(replies) => PollSome(s.(inFlight := []), s.inFlight, replies, |replies|)
    case ReadResult(k) =>
      s.(results := s.results - {k},
         log := s.log.(seen := s.log.seen[k := |Settled(s.log.asked, k, false)|]))
    case ReadActions(k) =>
      s.(actionResults := s.actionResults - {k},
         log := s.log.(readActions := s.log.readActions[k := Get(s.log.readActions, k) + Get(s.actionResults, k)]))
  }

  /** The host calls a step makes. */
  ghost function CallsIn(s: State, op: Op): seq<Call>
    requires Enabled(s, op)
  {
    if op.Flush? then FlushCalls(s, op.ids) else []
  }

  /** What a step asks the host, and what it hears: every request in flight once, in order. */
  ghost function AsksIn(s: State, op: Op): seq<Ask>
    requires Enabled(s, op)
  {
    if op.PollAll? then Asks(s.inFlight, op.replies) else []
  }

  ghost function Asks(fs: seq<InFlight>, replies: seq<Reply>): (asks: seq<Ask>)
    requires |fs| == |replies|
    ensures |asks| == |fs|
  {
    seq(|fs|, i requires 0 <= i < |fs| => AskOf(fs[i], replies[i]))
  }

  /** The polls the host sees: one for each ask, under its request id. */
  ghost function PollsOf(asks: seq<Ask>): (polls: seq<Polled>)
    ensures |polls| == |asks|
  {
    seq(|asks|, i requires 0 <= i < |asks| => Polled(asks[i].requestId, asks[i].reply.status))
  }

  /** The fetches the host sees: one for each ask it answered with a payload, under its request id. */
  ghost function FetchesOf(asks: seq<Ask>): seq<Fetched> {
    if asks == [] then []
    else
      var a := asks[|asks| - 1];
      FetchesOf(asks[..|asks| - 1]) +
      if HasPayload(a.reply.status) then [Fetched(a.requestId, a.reply.written, a.reply.buf)] else []
  }

  /** The settled calls of one key and kind, in the order they were settled. */
  ghost function Settled(rs: seq<Ask>, k: Key, isAction: bool): seq<Stored> {
    if rs == [] then []
    else
      var r := rs[|rs| - 1];
      Settled(rs[..|rs| - 1], k, isAction) +
      if r.key == k && r.isAction == isAction && OutcomeOf(r.reply).Some?
      then [Stored(OutcomeOf(r.reply).value, r.serial)] else []
  }

  // ------------------------------------------------------------------
  // The store itself
  // ------------------------------------------------------------------

  class BookStore {
    var pendingRequests: map<Key, Args>
    var pendingActions: seq<Booking>
    var inFlight: seq<InFlight>
    var results: map<Key, Stored>
    var actionResults: map<Key, seq<Stored>>
    ghost var log: Log

    ghost function Now(): State
      reads this
    {
      State(pendingRequests, pendingActions, inFlight, results, actionResults, log)
    }

    constructor ()
      ensures Now() == INITIAL
    {
      pendingRequests, pendingActions, inFlight, results, actionResults := map[], [], [], map[], map[];
      log := INITIAL.log;
    }

    method BookRequest(key: Key, args: Args)
      modifies this
      ensures Now() == Step(old(Now()), Op.BookRequest(key, args))
    {
      pendingRequests := pendingRequests[key := args];
      log := log.(sinceFlush := log.sinceFlush + [Booking(key, args)]);
    }

    method BookAction(key: Key, args: Args)
      modifies this
      ensures Now() == Step(old(Now()), Op.BookAction(key, args))
    {
      pendingActions := pendingActions + [Booking(key, args)];
      log := log.(booked := log.booked + [Booking(key, args)]);
    }

    method ReadResult(key: Key) returns (r: Option<Outcome>)
      modifies this
      ensures Now() == Step(old(Now()), Op.ReadResult(key))
      ensures r == if key in old(results) then Some(old(results)[key].outcome) else None
    {
      r := if key in results then Some(results[key].outcome) else None;
      results := results - {key};
      log := log.(seen := log.seen[key := |Settled(log.asked, key, false)|]);
    }

    method ReadActionResults(key: Key) returns (r: seq<Outcome>)
      modifies this
      ensures Now() == Step(old(Now()), Op.ReadActions(key))
      ensures |r| == |Get(old(actionResults), key)|
      ensures forall i :: 0 <= i < |r| ==> r[i] == Get(old(actionResults), key)[i].outcome
    {
      var stored := if key in actionResults then actionResults[key] else [];
      r := seq(|stored|, i requires 0 <= i < |stored| => stored[i].outcome);
      log := log.(readActions := log.readActions[key := Get(log.readActions, key) + Get(actionResults, key)]);
      actionResults := actionResults - {key};
    }

    /** First loop of a flush: the info requests, in key order. */
    method FlushRequests(host: Host) returns (ghost ids: seq<I64>, ghost calls: seq<Call>)
      modifies this`inFlight, host`calls
      ensures |ids| == |pendingRequests|
      ensures calls == InfoCalls(pendingRequests, SortedKeys(pendingRequests.Keys), ids)
      ensures host.calls == old(host.calls) + calls
      ensures inFlight == old(inFlight) + Flights(calls, |log.issued|)
    {
      hide SortedKeys, InfoCalls, Flights;
      ghost var ks := SortedKeys(pendingRequests.Keys);
      ghost var base := |log.issued|;
      ids, calls := [], [];
      var rest := pendingRequests.Keys;
      NoCalls(pendingRequests, ks, base);
      while rest != {}
        invariant |ids| <= |ks| && rest <= pendingRequests.Keys
        invariant ks[|ids|..] == SortedKeys(rest)
        invariant calls == InfoCalls(pendingRequests, ks[..|ids|], ids)
        invariant host.calls == old(host.calls) + calls
        invariant inFlight == old(inFlight) + Flights(calls, base)
        decreases |rest|
      {
        FirstExists(rest);
        var k :| k in rest && forall j :: j in rest ==> j == k || Before(k, j);
        FirstIsNext(k, rest, ks, |ids|);
        var id := host.RequestInfo(k, pendingRequests[k]);
        ghost var c := Call(k, pendingRequests[k], false, id);
        CallsGrow(pendingRequests, ks, ids, id);
        FlightsGrow(calls, c, base);
        inFlight := inFlight + [InFlight(k, id, false, base + |ids|)];
        calls := calls + [c];
        ids := ids + [id];
        rest := rest - {k};
      }
      assert ks[..|ids|] == ks;
    }

    /** Second loop of a flush: the actions, in booking order. */
    method FlushActions(host: Host, ghost infos: seq<Call>) returns (ghost ids: seq<I64>, ghost calls: seq<Call>)
      modifies this`inFlight, host`calls
      ensures |ids| == |pendingActions|
      ensures calls == ActionCalls(pendingActions, ids)
      ensures host.calls == old(host.calls) + calls
      ensures inFlight == old(inFlight) + Flights(calls, |log.issued| + |infos|)
    {
      hide Flights;
      ghost var base := |log.issued| + |infos|;
      ids, calls := [], [];
      NoFlights(base);
      for i := 0 to |pendingActions|
        invariant |ids| == i
        invariant calls == ActionCalls(pendingActions[..i], ids)
        invariant host.calls == old(host.calls) + calls
        invariant inFlight == old(inFlight) + Flights(calls, base)
      {
        var b := pendingActions[i];
        var id := host.DoAction(b.key, b.args);
        ghost var c := Call(b.key, b.args, true, id);
        assert ActionCalls(pendingActions[..i + 1], ids + [id]) == calls + [c];
        FlightsGrow(calls, c, base);
        inFlight := inFlight + [InFlight(b.key, id, true, base + i)];
        calls := calls + [c];
        ids := ids + [id];
      }
      assert pendingActions[..|pendingActions|] == pendingActions;
    }

    /** Everything pending is issued; the host's log grows by exactly these calls. */
    method Flush(host: Host) returns (ghost ids: seq<I64>)
      modifies this, host`calls
      ensures Enabled(old(Now()), Op.Flush(ids))
      ensures Now() == Step(old(Now()), Op.Flush(ids))
      ensures host.calls == old(host.calls) + FlushCalls(old(Now()), ids)
    {
      hide SortedKeys, InfoCalls, ActionCalls, Flights;
      ghost var before := Now();
      ghost var infoIds, infos := FlushRequests(host);
      ghost var actionIds, actions := FlushActions(host, infos);
      ids := infoIds + actionIds;
      assert ids[..|infoIds|] == infoIds && ids[|infoIds|..] == actionIds;
      assert FlushCalls(before, ids) == infos + actions;
      FlightsJoin(infos, actions, |log.issued|);
      pendingRequests, pendingActions := map[], [];
      log := log.(sinceFlush := [], issued := log.issued + (infos + actions));
    }

    /** One request of a poll round: its status and, if it has a payload, one fetch. */
    method PollRequest(host: Host, id: I64) returns (entry: Option<Outcome>, ghost reply: Reply)
      modifies host`polled, host`fetched
      ensures reply.Fits() && entry == OutcomeOf(reply)
      ensures host.polled == old(host.polled) + [Polled(id, reply.status)]
      ensures host.fetched ==
              old(host.fetched) + if HasPayload(reply.status) then [Fetched(id, reply.written, reply.buf)] else []
    {
      var status := host.PollResult(id);
      reply := Reply(status, 0, []);
      if status == 0 {
        entry := None;
      } else if status > 0 {
        var actualSize := SizeOf(status);
        if actualSize == 0 {
          entry := Some(Ok([]));
        } else {
          var buf := new Byte[actualSize](_ => 0);
          var written := host.FetchResult(id, buf);
          reply := Reply(status, written, buf[..]);
          if written < 0 {
            entry := Some(Err(FromCode(written)));
          } else {
            entry := Some(Ok(Truncate(buf[..], written)));
          }
        }
      } else {
        entry := Some(Err(FromCode(ToI32(status))));
      }
    }

    /** One poll round; true when nothing is left in flight. */
    method PollAll(host: Host) returns (done: bool, ghost replies: seq<Reply>)
      modifies this, host`polled, host`fetched
      ensures Enabled(old(Now()), Op.PollAll(replies))
      ensures Now() == Step(old(Now()), Op.PollAll(replies))
      ensures host.polled == old(host.polled) + PollsOf(Asks(old(inFlight), replies))
      ensures host.fetched == old(host.fetched) + FetchesOf(Asks(old(inFlight), replies))
      ensures done == (inFlight == [])
    {
      hide PollSome, OutcomeOf, Settled, SortedKeys, FlushCalls, Flights, Asks, PollsOf, FetchesOf;
      replies := [];
      NothingAsked();
      if inFlight == [] {
        PollNone(Now());
        return true, replies;
      }
      ghost var start := Now().(inFlight := []);
      var waiting := inFlight;
      var remaining: seq<InFlight> := [];
      PollNone(start);
      for i := 0 to |waiting|
        invariant |replies| == i && forall j :: 0 <= j < i ==> replies[j].Fits()
        invariant Now().(inFlight := remaining) == PollSome(start, waiting[..i], replies, i)
        invariant host.polled == old(host.polled) + PollsOf(Asks(waiting[..i], replies))
        invariant host.fetched == old(host.fetched) + FetchesOf(Asks(waiting[..i], replies))
      {
        var req := waiting[i];
        var outcome;
        ghost var reply;
        outcome, reply := PollRequest(host, req.requestId);
        PollSomeGrows(start, waiting[..i], replies, req, reply);
        AsksGrow(waiting[..i], replies, req, reply);
        assert waiting[..i + 1] == waiting[..i] + [req];
        log := log.(asked := log.asked + [AskOf(req, reply)]);
        match outcome {
          case None => remaining := remaining + [req];
          case Some(o) =>
            if req.isAction {
              var sofar := if req.key in actionResults then actionResults[req.key] else [];
              actionResults := actionResults[req.key := sofar + [Stored(o, req.serial)]];
            } else {
              results := results[req.key := Stored(o, req.serial)];
            }
        }
        replies := replies + [reply];
      }
      assert waiting[..|waiting|] == waiting;
      inFlight := remaining;
      done := inFlight == [];
    }
  }

  lemma FirstIsNext(k: Key, rest: set<Key>, ks: seq<Key>, n: nat)
    requires n <= |ks| && ks[n..] == SortedKeys(rest) && IsFirst(k, rest)
    ensures n < |ks| && ks[n] == k && ks[n + 1..] == SortedKeys(rest - {k})
  {
    assert forall j :: IsFirst(j, rest) ==> j == k;
    assert ks[n + 1..] == ks[n..][1..];
  }

  lemma NoFlights(base: nat)
    ensures Flights([], base) == []
  {}

  lemma NoCalls(m: map<Key, Args>, ks: seq<Key>, base: nat)
    ensures InfoCalls(m, ks[..0], []) == [] && Flights([], base) == []
    ensures SortedKeys({}) == []
  {}

  lemma FlightsJoin(a: seq<Call>, b: seq<Call>, base: nat)
    ensures Flights(a + b, base) == Flights(a, base) + Flights(b, base + |a|)
  {}

  lemma CallsGrow(m: map<Key, Args>, ks: seq<Key>, ids: seq<I64>, id: I64)
    requires |ids| < |ks| && ks[|ids|] in m
    ensures InfoCalls(m, ks[..|ids| + 1], ids + [id])
         == InfoCalls(m, ks[..|ids|], ids) + [Call(ks[|ids|], m[ks[|ids|]], false, id)]
  {}

  lemma FlightsGrow(calls: seq<Call>, c: Call, base: nat)
    ensures Flights(calls + [c], base)
         == Flights(calls, base) + [InFlight(c.key, c.requestId, c.isAction, base + |calls|)]
  {}

  lemma {:induction false} PollSomeLocal(s: State, fs: seq<InFlight>, gs: seq<InFlight>,
                                         rs: seq<Reply>, qs: seq<Reply>, n: nat)
    requires n <= |fs| == |rs| && n <= |gs| == |qs|
    requires fs[..n] == gs[..n] && rs[..n] == qs[..n]
    ensures PollSome(s, fs, rs, n) == PollSome(s, gs, qs, n)
  {
    if n > 0 {
      assert fs[n - 1] == fs[..n][n - 1] == gs[n - 1] && rs[n - 1] == rs[..n][n - 1] == qs[n - 1];
      assert fs[..n - 1] == fs[..n][..n - 1] == gs[..n - 1] && rs[..n - 1] == rs[..n][..n - 1] == qs[..n - 1];
      PollSomeLocal(s, fs, gs, rs, qs, n - 1);
    }
  }

  lemma NothingAsked()
    ensures Asks([], []) == [] && PollsOf([]) == [] && FetchesOf([]) == []
  {}

  lemma AsksGrow(fs: seq<InFlight>, rs: seq<Reply>, f: InFlight, r: Reply)
    requires |fs| == |rs|
    ensures var asks := Asks(fs, rs);
            && Asks(fs + [f], rs + [r]) == asks + [AskOf(f, r)]
            && PollsOf(Asks(fs + [f], rs + [r])) == PollsOf(asks) + [Polled(f.requestId, r.status)]
            && FetchesOf(Asks(fs + [f], rs + [r])) ==
               FetchesOf(asks) + if HasPayload(r.status) then [Fetched(f.requestId, r.written, r.buf)] else []
  {
    var asks := Asks(fs, rs);
    assert Asks(fs + [f], rs + [r]) == asks + [AskOf(f, r)];
    assert (asks + [AskOf(f, r)])[..|asks|] == asks;
  }

  lemma PollOneAsks(s: State, f: InFlight, r: Reply)
    ensures PollOne(s, f, r).log == s.log.(asked := s.log.asked + [AskOf(f, r)])
  {
    hide OutcomeOf;
  }

  lemma {:induction false} PollAsks(s: State, fs: seq<InFlight>, replies: seq<Reply>, n: nat)
    requires n <= |fs| == |replies|
    ensures PollSome(s, fs, replies, n).log.asked == s.log.asked + Asks(fs, replies)[..n]
    ensures PollSome(s, fs, replies, n).log.issued == s.log.issued
  {
    hide PollOne;
    if n > 0 {
      PollAsks(s, fs, replies, n - 1);
      PollOneAsks(PollSome(s, fs, replies, n - 1), fs[n - 1], replies[n - 1]);
      assert Asks(fs, replies)[..n] == Asks(fs, replies)[..n - 1] + [AskOf(fs[n - 1], replies[n - 1])];
    }
  }

  /** The logs grow by exactly what a step says to the host and hears from it. */
  lemma StepLogs(s: State, op: Op)
    requires Enabled(s, op)
    ensures Step(s, op).log.issued == s.log.issued + CallsIn(s, op)
    ensures Step(s, op).log.asked == s.log.asked + AsksIn(s, op)
  {
    hide FlushCalls, PollSome, Settled, Flights, Asks;
    if op.PollAll? {
      var s0, n := s.(inFlight := []), |op.replies|;
      PollAsks(s0, s.inFlight, op.replies, n);
      assert Asks(s.inFlight, op.replies)[..n] == Asks(s.inFlight, op.replies);
    }
  }

  lemma PollNone(s: State)
    ensures PollSome(s, [], [], 0) == s
  {}

  lemma PollSomeGrows(s: State, fs: seq<InFlight>, rs: seq<Reply>, f: InFlight, r: Reply)
    requires |fs| == |rs|
    ensures PollSome(s, fs + [f], rs + [r], |fs| + 1) == PollOne(PollSome(s, fs, rs, |fs|), f, r)
  {
    PollSomeLocal(s, fs + [f], fs, rs + [r], rs, |fs|);
  }
}
