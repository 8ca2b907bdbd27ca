/** The futures as objects: their polls update flags, child slots and the store. */
module FutureObjects {
  import opened Bytes
  import opened Values
  import opened Hosts
  import opened BookStores
  import opened BookSafety
  import opened Futures

  /**
    The tick boundary: the first poll flushes, later polls ask for everything in flight.
    The host sees exactly the calls, polls and fetches of that step.
   */
  class WaitForNextTickFuture {
    var firstPoll: bool

    constructor ()
      ensures firstPoll
    {
      firstPoll := true;
    }

    method Poll(store: BookStore, host: Host) returns (ready: bool, ghost op: Op)
      requires Inv(store.Now())
      modifies this, store, host
      ensures !firstPoll
      ensures Enabled(old(store.Now()), op) && store.Now() == Step(old(store.Now()), op)
      ensures if old(firstPoll) then op.Flush? && !ready else op.PollAll?
      ensures host.calls == old(host.calls) + CallsIn(old(store.Now()), op)
      ensures host.polled == old(host.polled) + PollsOf(AsksIn(old(store.Now()), op))
      ensures host.fetched == old(host.fetched) + FetchesOf(AsksIn(old(store.Now()), op))
      ensures Inv(store.Now())
      ensures ready <==> op.PollAll? && store.inFlight == []
      ensures ready ==>
        forall n :: 0 <= n < |store.log.issued| ==> multiset(SettledSerials(store.log.asked))[n] == 1
    {
      hide Inv, Step, Enabled, FlushCalls, Asks, FetchesOf;
      ghost var before := store.Now();
      NothingAsked();
      if firstPoll {
        firstPoll := false;
        ghost var ids := store.Flush(host);
        op := Op.Flush(ids);
        StepKeepsInv(before, op);
        return false, op;
      }
      ghost var replies;
      ready, replies := store.PollAll(host);
      op := Op.PollAll(replies);
      StepKeepsInv(before, op);
      if ready {
        forall n | 0 <= n < |store.log.issued|
          ensures multiset(SettledSerials(store.log.asked))[n] == 1
        {
          ReadyMeansAllSettled(store.Now(), n);
        }
      }
    }
  }

  /** One request awaited directly: pending at its first poll, then the same reply path as the store's. */
  class RequestFuture {
    const requestId: I64
    var firstPoll: bool

    constructor (id: I64)
      ensures requestId == id && firstPoll
    {
      requestId, firstPoll := id, true;
    }

    method Poll(host: Host) returns (r: Option<Outcome>, ghost reply: Reply)
      modifies this`firstPoll, host`polled, host`fetched
      ensures !firstPoll
      ensures old(firstPoll) ==> r == None && unchanged(host)
      ensures !old(firstPoll) ==>
        && reply.Fits() && r == OutcomeOf(reply)
        && host.polled == old(host.polled) + [Polled(requestId, reply.status)]
        && host.fetched ==
           old(host.fetched) + if HasPayload(reply.status) then [Fetched(requestId, reply.written, reply.buf)] else []
    {
      if firstPoll {
        firstPoll := false;
        return None, Reply(0, 0, []);
      }
      var status := host.PollResult(requestId);
      reply := Reply(status, 0, []);
      if status == 0 {
        r := None;
      } else if status > 0 {
        var actualSize := SizeOf(status);
        if actualSize == 0 {
          r := Some(Ok([]));
        } else {
          var buf := new Byte[actualSize](_ => 0);
          var written := host.FetchResult(requestId, buf);
          reply := Reply(status, written, buf[..]);
          if written < 0 {
            r := Some(Err(FromCode(written)));
          } else {
            r := Some(Ok(Truncate(buf[..], written)));
          }
        }
      } else {
        r := Some(Err(FromCode(ToI32(status))));
      }
    }
  }

  /** A join: every child is in its slot until it finishes, then its output is. */
  class JoinFuture {
    var children: seq<Option<Fut>>
    var results: seq<Option<Out>>

    /** Each child is either running or has its output kept. */
    ghost predicate Live()
      reads this
    {
      |children| == |results| > 0 && forall i :: 0 <= i < |children| ==> children[i].Some? != results[i].Some?
    }

    /** After completion outputs and children are gone. */
    ghost predicate Spent()
      reads this
    {
      |children| == |results| > 0 && forall i :: 0 <= i < |children| ==> children[i].None? && results[i].None?
    }

    ghost function Slots(): (r: seq<Slot>)
      requires Live()
      reads this
      ensures |r| == |children|
    {
      seq(|children|, i requires 0 <= i < |children| reads this requires Live() =>
        if children[i].Some? then Running(children[i].value) else Finished(results[i].value))
    }

    constructor (fs: seq<Fut>)
      requires fs != []
      ensures Live() && Slots() == JoinOf(fs).slots
    {
      var running: seq<Option<Fut>> := seq(|fs|, i requires 0 <= i < |fs| => Some(fs[i]));
      var nothing: seq<Option<Out>> := seq(|fs|, _ => None);
      children, results := running, nothing;
      new;
      assert children == running && results == nothing;
      forall i | 0 <= i < |children| ensures children[i].Some? != results[i].Some? {
        assert running[i] == Some(fs[i]) && nothing[i] == None;
      }
    }

    /** Polls the unfinished children in slot order; ready hands out all outputs and keeps nothing. */
    method Poll(t: nat, answers: Answers) returns (r: Option<seq<Out>>)
      requires Live() || Spent()
      modifies this
      ensures old(Spent()) ==> Spent() && r == None
      ensures old(Live()) ==>
        var after := PollSlots(old(Slots()), t, answers);
        if AllFinished(after) then Spent() && r == Some(Outs(after)) else Live() && Slots() == after && r == None
    {
      ghost var live := Live();
      ghost var before := if live then Slots() else [];
      for i := 0 to |children|
        invariant |children| == |results| == old(|children|)
        invariant live ==> Live() && |before| == |children| && forall j :: 0 <= j < |children| ==>
          Slots()[j] == if j < i then PollSlot(before[j], t, answers) else before[j]
        invariant !live ==> Spent()
      {
        if results[i].None? && children[i].Some? {
          var p := PollFut(children[i].value, t, answers);
          match p {
            case Pending(g) => children := children[i := Some(g)];
            case Ready(o) =>
              results := results[i := Some(o)];
              children := children[i := None];
          }
        }
      }
      ghost var after := if live then Slots() else [];
      assert live ==> after == PollSlots(before, t, answers);
      assert live ==> forall i :: 0 <= i < |after| ==> (after[i].Finished? <==> results[i].Some?);
      assert live ==> forall i :: 0 <= i < |after| && results[i].Some? ==> after[i].out == results[i].value;
      assert live ==> forall i :: 0 <= i < |after| && results[i].Some? ==> children[i].None?;
      assert !live ==> results[0].None?;
      var outs := results;
      if forall i :: 0 <= i < |outs| ==> outs[i].Some? {
        r := Some(seq(|outs|, i requires 0 <= i < |outs| && outs[i].Some? => outs[i].value));
        results := seq(|outs|, _ => None);
        assert live ==> r.value == Outs(after);
      } else {
        r := None;
      }
    }
  }
}
