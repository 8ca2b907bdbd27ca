/** A main future whose leaves are wait and request objects over one store and one host. */
module Drivers {
  import opened Bytes
  import opened Values
  import opened Hosts
  import opened BookStores
  import opened BookSafety
  import opened Futures
  import opened FutureObjects
  import opened Traces

  /** A future with objects for leaves; `id` names the leaf. `started` says whether the first stage was polled. */
  datatype Node =
    | Wait(id: nat, wait: WaitForNextTickFuture)
    | Request(id: nat, request: RequestFuture)
    | All(slots: seq<Part>)
    | InTurn(started: bool, done: seq<Out>, stages: seq<Node>)

  datatype Part = Active(node: Node) | Done(out: Out)

  datatype Polling = Unfinished(node: Node) | Completed(out: Out)

  // ------------------------------------------------------------------
  // The future a node stands for
  // ------------------------------------------------------------------

  ghost function Objects(n: Node): set<object> {
    match n
    case Wait(_, w) => {w}
    case Request(_, r) => {r}
    case All(slots) => PartObjects(slots)
    case InTurn(_, _, stages) => StageObjects(stages)
  }

  ghost function ObjectsOf(p: Part): set<object> {
    match p case Active(n) => Objects(n) case Done(_) => {}
  }

  ghost function PartObjects(slots: seq<Part>): set<object> {
    if slots == [] then {} else ObjectsOf(slots[0]) + PartObjects(slots[1..])
  }

  ghost function StageObjects(stages: seq<Node>): set<object> {
    if stages == [] then {} else Objects(stages[0]) + StageObjects(stages[1..])
  }

  /** Store and host are no leaves. */
  lemma {:induction false} LeavesOnly(n: Node, store: BookStore, host: Host)
    ensures {store, host} !! Objects(n)
  {
    match n
    case Wait(_, _) =>
    case Request(_, _) =>
    case All(slots) => LeavesOnlyInParts(slots, store, host);
    case InTurn(_, _, stages) => LeavesOnlyInStages(stages, store, host);
  }

  lemma {:induction false} LeavesOnlyIn(p: Part, store: BookStore, host: Host)
    ensures {store, host} !! ObjectsOf(p)
  {
    match p
    case Active(n) => LeavesOnly(n, store, host);
    case Done(_) =>
  }

  lemma {:induction false} LeavesOnlyInParts(slots: seq<Part>, store: BookStore, host: Host)
    ensures {store, host} !! PartObjects(slots)
  {
    if slots != [] {
      LeavesOnlyIn(slots[0], store, host);
      LeavesOnlyInParts(slots[1..], store, host);
    }
  }

  lemma {:induction false} LeavesOnlyInStages(stages: seq<Node>, store: BookStore, host: Host)
    ensures {store, host} !! StageObjects(stages)
  {
    if stages != [] {
      LeavesOnly(stages[0], store, host);
      LeavesOnlyInStages(stages[1..], store, host);
    }
  }

  /** The leaves by their ids, and what they are. */
  ghost function Kinds(n: Node): map<nat, Kind> {
    match n
    case Wait(id, _) => map[id := Waits]
    case Request(id, r) => map[id := Requests(r.requestId)]
    case All(slots) => PartKinds(slots)
    case InTurn(_, _, stages) => StageKinds(stages)
  }

  ghost function KindsOf(p: Part): map<nat, Kind> {
    match p case Active(n) => Kinds(n) case Done(_) => map[]
  }

  ghost function PartKinds(slots: seq<Part>): map<nat, Kind> {
    if slots == [] then map[] else KindsOf(slots[0]) + PartKinds(slots[1..])
  }

  ghost function StageKinds(stages: seq<Node>): map<nat, Kind> {
    if stages == [] then map[] else Kinds(stages[0]) + StageKinds(stages[1..])
  }

  /** No object and no leaf id occurs twice. */
  ghost predicate Apart(n: Node)
    decreases n
  {
    match n
    case Wait(_, _) => true
    case Request(_, _) => true
    case All(slots) => PartsApart(slots)
    case InTurn(_, _, stages) => StagesApart(stages)
  }

  ghost predicate PartsApart(slots: seq<Part>)
    decreases slots
  {
    slots == [] ||
    (ApartIn(slots[0]) && PartsApart(slots[1..]) &&
     ObjectsOf(slots[0]) !! PartObjects(slots[1..]) && KindsOf(slots[0]).Keys !! PartKinds(slots[1..]).Keys)
  }

  ghost predicate ApartIn(p: Part)
    decreases p
  {
    match p case Active(n) => Apart(n) case Done(_) => true
  }

  ghost predicate StagesApart(stages: seq<Node>)
    decreases stages
  {
    stages == [] ||
    (Apart(stages[0]) && StagesApart(stages[1..]) &&
     Objects(stages[0]) !! StageObjects(stages[1..]) && Kinds(stages[0]).Keys !! StageKinds(stages[1..]).Keys)
  }

  ghost function Abs(n: Node): (f: Fut)
    reads Objects(n)
    ensures Unpolled(f) <= Kinds(n).Keys
    decreases n
  {
    match n
    case Wait(id, w) => Leaf(id, w.firstPoll)
    case Request(id, r) => Leaf(id, r.firstPoll)
    case All(slots) => Join(AbsParts(slots))
    case InTurn(_, done, stages) => Chain(done, AbsStages(stages))
  }

  ghost function AbsPart(p: Part): (s: Slot)
    reads ObjectsOf(p)
    ensures UnpolledIn(s) <= KindsOf(p).Keys
    decreases p
  {
    match p case Active(n) => Running(Abs(n)) case Done(o) => Finished(o)
  }

  ghost function AbsParts(slots: seq<Part>): (r: seq<Slot>)
    reads PartObjects(slots)
    ensures UnpolledSlots(r) <= PartKinds(slots).Keys
    ensures |r| == |slots|
    ensures forall i :: 0 <= i < |slots| ==>
      (r[i].Finished? <==> slots[i].Done?) && (slots[i].Done? ==> r[i] == Finished(slots[i].out))
    decreases slots
  {
    if slots == [] then [] else [AbsPart(slots[0])] + AbsParts(slots[1..])
  }

  ghost function AbsStages(stages: seq<Node>): (fs: seq<Fut>)
    reads StageObjects(stages)
    ensures UnpolledStages(fs) <= StageKinds(stages).Keys
    decreases stages
  {
    if stages == [] then [] else [Abs(stages[0])] + AbsStages(stages[1..])
  }

  ghost function AbsPolling(p: Polling): Poll
    reads if p.Unfinished? then Objects(p.node) else {}
  {
    match p case Unfinished(n) => Pending(Abs(n)) case Completed(o) => Ready(o)
  }

  /** What polling leaves of a node is a part of it. */
  ghost predicate Within(p: Polling, n: Node) {
    p.Unfinished? ==> Apart(p.node) && Objects(p.node) <= Objects(n) && PartOf(Kinds(p.node), Kinds(n))
  }

  ghost predicate PartsWithin(after: seq<Part>, slots: seq<Part>) {
    PartsApart(after) && PartObjects(after) <= PartObjects(slots) && PartOf(PartKinds(after), PartKinds(slots))
  }

  ghost predicate StagesWithin(p: Polling, stages: seq<Node>) {
    p.Unfinished? ==>
      Apart(p.node) && Objects(p.node) <= StageObjects(stages) && PartOf(Kinds(p.node), StageKinds(stages))
  }

  lemma NoParts()
    ensures PartsWithin([], [])
  {}

  lemma PartsStay(slots: seq<Part>, part: Part, others: seq<Part>)
    requires slots != [] && PartsApart(slots)
    requires ApartIn(part) && ObjectsOf(part) <= ObjectsOf(slots[0]) && PartOf(KindsOf(part), KindsOf(slots[0]))
    requires PartsWithin(others, slots[1..])
    ensures PartsWithin([part] + others, slots)
  {
    assert ([part] + others)[1..] == others;
    assert KindsOf(part).Keys <= KindsOf(slots[0]).Keys && PartKinds(others).Keys <= PartKinds(slots[1..]).Keys;
  }

  lemma StageStays(stages: seq<Node>, p: Polling, done: seq<Out>)
    requires stages != [] && StagesApart(stages) && p.Unfinished? && Within(p, stages[0])
    ensures StagesWithin(Unfinished(InTurn(true, done, [p.node] + stages[1..])), stages)
    ensures PartOf(Kinds(stages[0]), StageKinds(stages))
  {
    assert ([p.node] + stages[1..])[1..] == stages[1..];
    assert Kinds(p.node).Keys <= Kinds(stages[0]).Keys;
  }

  ghost function Observe(store: BookStore, host: Host): World
    reads store, host
  {
    World(store.Now(), host.calls, host.polled, host.fetched)
  }

  // ------------------------------------------------------------------
  // One tick
  // ------------------------------------------------------------------

  /** The code between two awaits books and reads as it likes. */
  method RunCode(store: BookStore, ghost host: Host) returns (ghost events: seq<Event>)
    requires Inv(store.Now())
    modifies store
    ensures Inv(store.Now())
    ensures forall i :: 0 <= i < |events| ==> events[i].Coded?
    ensures Leads(old(Observe(store, host)), events, Observe(store, host))
  {
    hide Inv, Step, Leads;
    events := [];
    Nothing(Observe(store, host));
    var steps: int := *;
    while steps > 0
      invariant Inv(store.Now())
      invariant forall i :: 0 <= i < |events| ==> events[i].Coded?
      invariant Leads(old(Observe(store, host)), events, Observe(store, host))
    {
      steps := steps - 1;
      ghost var before := Observe(store, host);
      ghost var op := RunOneStep(store);
      Single(before, Coded(op));
      CodeCallsNothing(before, op);
      StepKeepsInv(before.state, op);
      JoinEvents(old(Observe(store, host)), events, before, [Coded(op)], Observe(store, host));
      events := events + [Coded(op)];
    }
  }

  method RunOneStep(store: BookStore) returns (ghost op: Op)
    modifies store
    ensures op.BookRequest? || op.BookAction? || op.ReadResult? || op.ReadActions?
    ensures store.Now() == Step(old(store.Now()), op)
  {
    var key: Key := *;
    var args: Args := *;
    var choice: int := *;
    if choice == 0 {
      store.BookRequest(key, args);
      op := Op.BookRequest(key, args);
    } else if choice == 1 {
      store.BookAction(key, args);
      op := Op.BookAction(key, args);
    } else if choice == 2 {
      var r := store.ReadResult(key);
      op := Op.ReadResult(key);
    } else {
      var r := store.ReadActionResults(key);
      op := Op.ReadActions(key);
    }
  }

  lemma CodeCallsNothing(w: World, op: Op)
    requires CanHappen(w, Coded(op))
    ensures Next(w, Coded(op)) == w.(state := Step(w.state, op))
  {
    hide Step;
    NothingAsked();
  }

  /** Polls a node; the events are everything that store and host go through meanwhile. */
  method PollNode(n: Node, t: nat, store: BookStore, host: Host) returns (r: Polling, ghost events: seq<Event>)
    requires Apart(n) && Inv(store.Now())
    modifies Objects(n), store, host
    ensures Inv(store.Now()) && Within(r, n)
    ensures FutPolled(old(Observe(store, host)), events, Observe(store, host), Kinds(n), old(Abs(n)), AbsPolling(r), t)
    decreases n, 1
  {
    hide Inv, Step, FutPolled, SlotsPolled, StagesPolled, Observe;
    ghost var u := Observe(store, host);
    match n
    case Wait(id, w) =>
      r, events := PollWait(id, w, t, store, host);
    case Request(id, q) =>
      r, events := PollRequest(id, q, t, store, host);
    case All(slots) =>
      ghost var before := AbsParts(slots);
      var after;
      after, events := PollParts(slots, t, store, host);
      ghost var abs := AbsParts(after);
      JoinBySlots(u, events, Observe(store, host), PartKinds(slots), before, abs, t);
      if forall i :: 0 <= i < |after| ==> after[i].Done? {
        var outs := seq(|after|, i requires 0 <= i < |after| && after[i].Done? => after[i].out);
        assert AllFinished(abs) && Outs(abs) == outs;
        r := Completed(JoinOut(outs));
      } else {
        assert !AllFinished(abs);
        r := Unfinished(All(after));
      }
    case InTurn(started, done, stages) =>
      ghost var before := AbsStages(stages);
      r, events := PollInTurn(started, done, stages, t, store, host);
      ChainByStages(u, events, Observe(store, host), StageKinds(stages), done, before, AbsPolling(r), t);
  }

  method PollWait(id: nat, w: WaitForNextTickFuture, t: nat, store: BookStore, host: Host)
    returns (r: Polling, ghost events: seq<Event>)
    requires Inv(store.Now())
    modifies w, store, host
    ensures Inv(store.Now()) && Within(r, Wait(id, w))
    ensures FutPolled(old(Observe(store, host)), events, Observe(store, host), map[id := Waits],
                      old(Leaf(id, w.firstPoll)), AbsPolling(r), t)
  {
    hide Inv, Step, FutPolled;
    ghost var before, first := Observe(store, host), w.firstPoll;
    var ready;
    ghost var op;
    ready, op := w.Poll(store, host);
    ghost var e := WaitPolled(id, first, op);
    events := [e];
    LeafPolled(before, e, id, Waits, first, ready, t);
    r := if ready then Completed(LeafOut(id, t)) else Unfinished(Wait(id, w));
  }

  method PollRequest(id: nat, q: RequestFuture, t: nat, store: BookStore, host: Host)
    returns (r: Polling, ghost events: seq<Event>)
    modifies q, host
    ensures Within(r, Request(id, q))
    ensures FutPolled(old(Observe(store, host)), events, Observe(store, host), map[id := Requests(q.requestId)],
                      old(Leaf(id, q.firstPoll)), AbsPolling(r), t)
  {
    hide FutPolled;
    ghost var before, first := Observe(store, host), q.firstPoll;
    var outcome;
    ghost var reply;
    outcome, reply := q.Poll(host);
    ghost var e := RequestPolled(id, first, q.requestId, reply);
    events := [e];
    LeafPolled(before, e, id, Requests(q.requestId), first, outcome.Some?, t);
    r := if outcome.Some? then Completed(LeafOut(id, t)) else Unfinished(Request(id, q));
  }

  method PollParts(slots: seq<Part>, t: nat, store: BookStore, host: Host)
    returns (after: seq<Part>, ghost events: seq<Event>)
    requires PartsApart(slots) && Inv(store.Now())
    modifies PartObjects(slots), store, host
    ensures Inv(store.Now()) && PartsWithin(after, slots)
    ensures SlotsPolled(old(Observe(store, host)), events, Observe(store, host), PartKinds(slots),
                        old(AbsParts(slots)), AbsParts(after), t)
    decreases slots, 0
  {
    hide Inv, SlotPolled, SlotsPolled, Observe, PartsWithin;
    ghost var u := Observe(store, host);
    if slots == [] {
      NoSlots(u, t);
      NoParts();
      return [], [];
    }
    LeavesOnlyInParts(slots, store, host);
    assert allocated(PartObjects(slots[1..]));
    ghost var f, fs := AbsPart(slots[0]), AbsParts(slots[1..]);
    var part;
    ghost var first;
    part, first := PollPart(slots[0], t, store, host);
    assert allocated(ObjectsOf(part));
    ghost var g, v := AbsPart(part), Observe(store, host);
    var others;
    ghost var rest;
    others, rest := PollParts(slots[1..], t, store, host);
    after := [part] + others;
    events := first + rest;
    PartsStay(slots, part, others);
    assert AbsPart(part) == g;
    SlotThenSlots(u, first, v, rest, Observe(store, host), KindsOf(slots[0]), PartKinds(slots[1..]),
                  f, g, fs, AbsParts(others), t);
    assert AbsParts(after) == [g] + AbsParts(others);
  }

  method PollPart(p: Part, t: nat, store: BookStore, host: Host) returns (q: Part, ghost events: seq<Event>)
    requires ApartIn(p) && Inv(store.Now())
    modifies ObjectsOf(p), store, host
    ensures Inv(store.Now())
    ensures ApartIn(q) && ObjectsOf(q) <= ObjectsOf(p) && PartOf(KindsOf(q), KindsOf(p))
    ensures SlotPolled(old(Observe(store, host)), events, Observe(store, host), KindsOf(p),
                       old(AbsPart(p)), AbsPart(q), t)
    decreases p, 0
  {
    hide Inv, SlotPolled, FutPolled, Observe;
    ghost var u := Observe(store, host);
    match p
    case Active(n) =>
      ghost var f := Abs(n);
      var r;
      r, events := PollNode(n, t, store, host);
      SlotByFut(u, events, Observe(store, host), Kinds(n), f, AbsPolling(r), t);
      q := match r case Unfinished(m) => Active(m) case Completed(o) => Done(o);
    case Done(o) =>
      IdleSlot(u, o, t);
      q, events := p, [];
  }

  /** The code of a stage runs when the stage before it hands over, and that of the first one at once. */
  method PollInTurn(started: bool, done: seq<Out>, stages: seq<Node>, t: nat, store: BookStore, host: Host)
    returns (r: Polling, ghost events: seq<Event>)
    requires StagesApart(stages) && Inv(store.Now())
    modifies StageObjects(stages), store, host
    ensures Inv(store.Now()) && StagesWithin(r, stages)
    ensures StagesPolled(old(Observe(store, host)), events, Observe(store, host), StageKinds(stages),
                         done, old(AbsStages(stages)), AbsPolling(r), t)
    decreases stages, 1
  {
    hide Inv, Leads, StagesPolled, Observe, StagesWithin;
    ghost var u := Observe(store, host);
    LeavesOnlyInStages(stages, store, host);
    assert allocated(StageObjects(stages));
    ghost var fs := AbsStages(stages);
    ghost var code: seq<Event> := [];
    Nothing(u);
    if !started {
      code := RunCode(store, host);
    }
    ghost var v := Observe(store, host);
    assert AbsStages(stages) == fs;
    ghost var polls;
    r, polls := PollStarted(done, stages, t, store, host);
    events := code + polls;
    CodeFirst(u, code, v, polls, Observe(store, host), StageKinds(stages), done, fs, AbsPolling(r), t);
  }

  method PollStarted(done: seq<Out>, stages: seq<Node>, t: nat, store: BookStore, host: Host)
    returns (r: Polling, ghost events: seq<Event>)
    requires StagesApart(stages) && Inv(store.Now())
    modifies StageObjects(stages), store, host
    ensures Inv(store.Now()) && StagesWithin(r, stages)
    ensures StagesPolled(old(Observe(store, host)), events, Observe(store, host), StageKinds(stages),
                         done, old(AbsStages(stages)), AbsPolling(r), t)
    decreases stages, 0
  {
    hide Inv, FutPolled, StagesPolled, Observe;
    ghost var u := Observe(store, host);
    if stages == [] {
      NoStages(u, done, t);
      return Completed(ChainOut(done)), [];
    }
    LeavesOnlyInStages(stages, store, host);
    assert allocated(StageObjects(stages[1..]));
    ghost var f, fs := Abs(stages[0]), AbsStages(stages[1..]);
    ghost var k, l := Kinds(stages[0]), StageKinds(stages[1..]);
    var p;
    ghost var first;
    p, first := PollNode(stages[0], t, store, host);
    ghost var v := Observe(store, host);
    match p {
      case Unfinished(m) =>
        r := Unfinished(InTurn(true, done, [m] + stages[1..]));
        events := first;
        StageStays(stages, p, done);
        StageIsPending(u, first, v, k, l, done, f, fs, Abs(m), t);
        assert ([m] + stages[1..])[1..] == stages[1..];
        assert AbsStages([m] + stages[1..]) == [Abs(m)] + fs;
      case Completed(o) =>
        ghost var rest;
        r, rest := PollInTurn(false, done + [o], stages[1..], t, store, host);
        events := first + rest;
        StageHandsOver(u, first, v, rest, Observe(store, host), k, l, done, f, fs, o, AbsPolling(r), t);
    }
  }

  // ------------------------------------------------------------------
  // Many ticks
  // ------------------------------------------------------------------

  /**
    The main future polled once per tick, `ticks` times or until it is ready. What happens to the
    objects is what happens to the future they stand for under the answers the host and the store
    gave its leaves, and the log is everything that store and host go through.
   */
  method Drive(n: Node, t: nat, ticks: nat, store: BookStore, host: Host) returns (r: Polling, ghost log: seq<Tick>)
    requires Apart(n) && Inv(store.Now())
    modifies Objects(n), store, host
    ensures Inv(store.Now()) && Within(r, n) && |log| == ticks
    ensures RunPolled(old(Observe(store, host)), log, Observe(store, host), Kinds(n), old(Abs(n)), AbsPolling(r), t)
    ensures AllLeaves(log) == SoloReached(old(Abs(n)), t, ticks, AnswersOf(log, t))
    ensures ticks <= old(Delay(Abs(n))) ==> r.Unfinished?
  {
    hide Inv, RunPolled, FutPolled, Delay, Observe, AllLeaves;
    ghost var f, u, kinds := Abs(n), Observe(store, host), Kinds(n);
    r, log := Unfinished(n), [];
    NoTicks(u, kinds, f, t);
    for i := 0 to ticks
      invariant Inv(store.Now()) && Within(r, n) && |log| == i
      invariant RunPolled(u, log, Observe(store, host), kinds, f, AbsPolling(r), t)
    {
      ghost var v, p := Observe(store, host), AbsPolling(r);
      ghost var events: seq<Event> := [];
      match r {
        case Unfinished(m) =>
          ghost var g := Abs(m);
          r, events := PollNode(m, t + i, store, host);
          PolledAmongMore(v, events, Observe(store, host), Kinds(m), kinds, g, AbsPolling(r), t + i);
        case Completed(_) =>
      }
      RunGrows(u, log, v, kinds, f, p, t, events, Observe(store, host), AbsPolling(r));
      log := log + [Tick(v, events, Observe(store, host))];
    }
    RunEnds(u, log, Observe(store, host), kinds, f, AbsPolling(r), t);
  }

  lemma RunEnds(u: World, log: seq<Tick>, w: World, kinds: map<nat, Kind>, f: Fut, p: Poll, t: nat)
    requires RunPolled(u, log, w, kinds, f, p, t)
    ensures AllLeaves(log) == SoloReached(f, t, |log|, AnswersOf(log, t))
    ensures |log| <= Delay(f) ==> p.Pending?
  {
    hide TickPolled, AnswersOf, Delay;
    RunReaches(log, |log|, kinds, f, t, AnswersOf(log, t));
    assert log[..|log|] == log;
    if |log| <= Delay(f) {
      NeverEarly(f, t, |log|, AnswersOf(log, t));
    }
  }
}
