/** What a run of futures says to store and host, event by event, and what its leaves are told. */
module Traces {
  import opened Bytes
  import opened Values
  import opened Hosts
  import opened BookStores
  import opened Futures

  /** A poll of a wait, a poll of a request, or a step of the code between two awaits. */
  datatype Event =
    | WaitPolled(id: nat, first: bool, op: Op)
    | RequestPolled(id: nat, first: bool, requestId: I64, reply: Reply)
    | Coded(op: Op)

  /** The store's state and the host's logs. */
  datatype World = World(state: State, calls: seq<Call>, polled: seq<Polled>, fetched: seq<Fetched>)

  /**
    The first poll of a wait flushes, later ones are poll rounds; the host answers later polls of a
    request with a buffer of the size announced; code books and reads.
   */
  ghost predicate CanHappen(w: World, e: Event) {
    match e
    case WaitPolled(_, first, op) => Enabled(w.state, op) && if first then op.Flush? else op.PollAll?
    case RequestPolled(_, first, _, reply) => first || reply.Fits()
    case Coded(op) => op.BookRequest? || op.BookAction? || op.ReadResult? || op.ReadActions?
  }

  /** The store steps, and the host sees the calls, polls and fetches of that step. */
  ghost function Stepped(w: World, op: Op): World
    requires Enabled(w.state, op)
  {
    World(Step(w.state, op), w.calls + CallsIn(w.state, op),
          w.polled + PollsOf(AsksIn(w.state, op)), w.fetched + FetchesOf(AsksIn(w.state, op)))
  }

  /** The world after an event. */
  ghost function Next(w: World, e: Event): World
    requires CanHappen(w, e)
  {
    match e
    case WaitPolled(_, _, op) => Stepped(w, op)
    case RequestPolled(_, first, requestId, reply) =>
      if first then w
      else w.(polled := w.polled + [Polled(requestId, reply.status)],
              fetched := w.fetched +
                if HasPayload(reply.status) then [Fetched(requestId, reply.written, reply.buf)] else [])
    case Coded(op) => Stepped(w, op)
  }

  /** The events can happen one after the other, and lead from v to w. */
  ghost predicate Leads(v: World, es: seq<Event>, w: World)
    decreases |es|
  {
    if es == [] then v == w else CanHappen(v, es[0]) && Leads(Next(v, es[0]), es[1..], w)
  }

  /**
    What the leaf polled is told, if it is not its first poll: a wait whether nothing is left in
    flight after its poll round, a request whether its answer is final.
   */
  ghost function Told(w: World, e: Event): map<nat, bool>
    requires CanHappen(w, e)
  {
    match e
    case WaitPolled(id, first, _) => if first then map[] else map[id := Next(w, e).state.inFlight == []]
    case RequestPolled(id, first, _, reply) => if first then map[] else map[id := OutcomeOf(reply).Some?]
    case Coded(_) => map[]
  }

  /** What all leaves polled are told. */
  ghost function Heard(v: World, es: seq<Event>): map<nat, bool>
    decreases |es|
  {
    if es == [] || !CanHappen(v, es[0]) then map[]
    else Told(v, es[0]) + Heard(Next(v, es[0]), es[1..])
  }

  /** The leaves polled. */
  ghost function LeavesIn(es: seq<Event>): multiset<nat>
    decreases |es|
  {
    if es == [] then multiset{}
    else (if es[0].Coded? then multiset{} else multiset{es[0].id}) + LeavesIn(es[1..])
  }

  /** What a leaf is: a wait, or the request with an id. */
  datatype Kind = Waits | Requests(requestId: I64)

  /** The event is the poll of a leaf of that kind, and is its first one exactly if it was fresh. */
  ghost predicate IsOwn(e: Event, kinds: map<nat, Kind>, unpolled: set<nat>) {
    match e
    case WaitPolled(id, first, _) => id in kinds && kinds[id] == Waits && (first <==> id in unpolled)
    case RequestPolled(id, first, requestId, _) =>
      id in kinds && kinds[id] == Requests(requestId) && (first <==> id in unpolled)
    case Coded(_) => true
  }

  ghost predicate AllOwn(es: seq<Event>, kinds: map<nat, Kind>, unpolled: set<nat>) {
    forall i :: 0 <= i < |es| ==> IsOwn(es[i], kinds, unpolled)
  }

  /** Some of the leaves of a larger future. */
  ghost predicate PartOf(small: map<nat, Kind>, large: map<nat, Kind>) {
    forall id :: id in small ==> id in large && small[id] == large[id]
  }

  // ------------------------------------------------------------------
  // Putting events together
  // ------------------------------------------------------------------

  lemma Nothing(w: World)
    ensures Leads(w, [], w) && Heard(w, []) == map[] && LeavesIn([]) == multiset{}
  {}

  lemma Single(w: World, e: Event)
    requires CanHappen(w, e)
    ensures Leads(w, [e], Next(w, e)) && Heard(w, [e]) == Told(w, e)
    ensures LeavesIn([e]) == if e.Coded? then multiset{} else multiset{e.id}
  {
    hide Next, CanHappen, Told;
    Nothing(Next(w, e));
    assert [e][1..] == [];
    assert Told(w, e) + map[] == Told(w, e);
  }

  lemma {:induction false} JoinEvents(u: World, a: seq<Event>, v: World, b: seq<Event>, w: World)
    requires Leads(u, a, v) && Leads(v, b, w)
    ensures Leads(u, a + b, w)
    decreases |a|
  {
    hide Next, CanHappen;
    if a == [] {
      assert a + b == b;
    } else {
      assert (a + b)[1..] == a[1..] + b;
      JoinEvents(Next(u, a[0]), a[1..], v, b, w);
    }
  }

  lemma {:induction false} JoinHeard(u: World, a: seq<Event>, v: World, b: seq<Event>)
    requires Leads(u, a, v)
    ensures Heard(u, a + b) == Heard(u, a) + Heard(v, b)
    decreases |a|
  {
    hide Next, CanHappen, Told;
    if a == [] {
      assert a + b == b;
      assert map[] + Heard(v, b) == Heard(v, b);
    } else {
      assert (a + b)[1..] == a[1..] + b;
      JoinHeard(Next(u, a[0]), a[1..], v, b);
      MapsJoin(Told(u, a[0]), Heard(Next(u, a[0]), a[1..]), Heard(v, b));
    }
  }

  lemma MapsJoin<K, V>(a: map<K, V>, b: map<K, V>, c: map<K, V>)
    ensures a + b + c == a + (b + c)
  {}

  lemma {:induction false} JoinLeaves(a: seq<Event>, b: seq<Event>)
    ensures LeavesIn(a + b) == LeavesIn(a) + LeavesIn(b)
    decreases |a|
  {
    if a == [] {
      assert a + b == b;
    } else {
      assert (a + b)[1..] == a[1..] + b;
      JoinLeaves(a[1..], b);
    }
  }

  /** Whoever was told something was polled. */
  lemma {:induction false} HeardWerePolled(v: World, es: seq<Event>)
    ensures forall id :: id in Heard(v, es) ==> id in LeavesIn(es)
    decreases |es|
  {
    if es != [] && CanHappen(v, es[0]) {
      HeardWerePolled(Next(v, es[0]), es[1..]);
    }
  }

  lemma {:induction false} PolledAreOwn(es: seq<Event>, kinds: map<nat, Kind>, unpolled: set<nat>)
    requires AllOwn(es, kinds, unpolled)
    ensures forall id :: id in LeavesIn(es) ==> id in kinds
    decreases |es|
  {
    if es != [] {
      assert IsOwn(es[0], kinds, unpolled);
      PolledAreOwn(es[1..], kinds, unpolled);
    }
  }

  /** Events of some of the leaves are events of all of them. */
  lemma OwnAmongMore(es: seq<Event>, small: map<nat, Kind>, few: set<nat>, large: map<nat, Kind>, many: set<nat>)
    requires AllOwn(es, small, few) && PartOf(small, large)
    requires forall id :: id in small ==> (id in few <==> id in many)
    ensures AllOwn(es, large, many)
  {
    forall i | 0 <= i < |es| ensures IsOwn(es[i], large, many) {
      assert IsOwn(es[i], small, few);
    }
  }

  // ------------------------------------------------------------------
  // Events of a poll
  // ------------------------------------------------------------------

  /** The answers say about tick t what the leaves heard in it. */
  ghost predicate Agrees(answers: Answers, t: nat, heard: map<nat, bool>) {
    forall id :: id in heard ==> answers(id, t) == heard[id]
  }

  /**
    Polling f comes out as p by these events. They lead from u to w and are polls of leaves of f, of
    their kinds; exactly the leaves f reaches are polled, each as often as it is reached; and f goes
    on by what they were told.
   */
  ghost predicate FutPolled(u: World, es: seq<Event>, w: World, kinds: map<nat, Kind>, f: Fut, p: Poll, t: nat) {
    && Leads(u, es, w) && AllOwn(es, kinds, Unpolled(f)) && Unpolled(f) <= kinds.Keys
    && forall answers: Answers :: Agrees(answers, t, Heard(u, es)) ==>
         PollFut(f, t, answers) == p && LeavesIn(es) == Reached(f, t, answers)
  }

  ghost predicate SlotPolled(u: World, es: seq<Event>, w: World, kinds: map<nat, Kind>, s: Slot, r: Slot, t: nat) {
    && Leads(u, es, w) && AllOwn(es, kinds, UnpolledIn(s)) && UnpolledIn(s) <= kinds.Keys
    && forall answers: Answers :: Agrees(answers, t, Heard(u, es)) ==>
         PollSlot(s, t, answers) == r && LeavesIn(es) == ReachedSlot(s, t, answers)
  }

  ghost predicate SlotsPolled(u: World, es: seq<Event>, w: World, kinds: map<nat, Kind>,
                              slots: seq<Slot>, rs: seq<Slot>, t: nat)
  {
    && Leads(u, es, w) && AllOwn(es, kinds, UnpolledSlots(slots)) && UnpolledSlots(slots) <= kinds.Keys
    && forall answers: Answers :: Agrees(answers, t, Heard(u, es)) ==>
         PollSlots(slots, t, answers) == rs && LeavesIn(es) == ReachedSlots(slots, t, answers)
  }

  ghost predicate StagesPolled(u: World, es: seq<Event>, w: World, kinds: map<nat, Kind>,
                               done: seq<Out>, fs: seq<Fut>, p: Poll, t: nat)
  {
    && Leads(u, es, w) && AllOwn(es, kinds, UnpolledStages(fs)) && UnpolledStages(fs) <= kinds.Keys
    && forall answers: Answers :: Agrees(answers, t, Heard(u, es)) ==>
         PollStages(done, fs, t, answers) == p && LeavesIn(es) == ReachedStages(fs, t, answers)
  }

  /** A leaf: pending the first time, then ready or not as it is told. */
  lemma LeafPolled(u: World, e: Event, id: nat, kind: Kind, first: bool, ready: bool, t: nat)
    requires CanHappen(u, e) && !e.Coded? && e.id == id && IsOwn(e, map[id := kind], if first then {id} else {})
    requires Told(u, e) == if first then map[] else map[id := ready]
    requires first ==> !ready
    ensures FutPolled(u, [e], Next(u, e), map[id := kind], Leaf(id, first),
                      if ready then Ready(LeafOut(id, t)) else Pending(Leaf(id, false)), t)
  {
    hide Next, CanHappen, IsOwn, Told;
    Single(u, e);
    forall answers: Answers | Agrees(answers, t, Heard(u, [e]))
      ensures PollFut(Leaf(id, first), t, answers) ==
              if ready then Ready(LeafOut(id, t)) else Pending(Leaf(id, false))
    {
      if !first {
        assert id in Heard(u, [e]);
      }
    }
  }

  /** The events of two futures without common leaves, one after the other. */
  lemma Both(u: World, a: seq<Event>, v: World, b: seq<Event>, w: World,
             k: map<nat, Kind>, f: set<nat>, l: map<nat, Kind>, g: set<nat>)
    requires Leads(u, a, v) && Leads(v, b, w) && AllOwn(a, k, f) && AllOwn(b, l, g)
    requires k.Keys !! l.Keys && f <= k.Keys && g <= l.Keys
    ensures Leads(u, a + b, w) && AllOwn(a + b, k + l, f + g)
    ensures LeavesIn(a + b) == LeavesIn(a) + LeavesIn(b)
    ensures forall answers, t :: Agrees(answers, t, Heard(u, a + b)) ==>
      Agrees(answers, t, Heard(u, a)) && Agrees(answers, t, Heard(v, b))
  {
    JoinEvents(u, a, v, b, w);
    JoinHeard(u, a, v, b);
    JoinLeaves(a, b);
    HeardWerePolled(u, a);
    HeardWerePolled(v, b);
    PolledAreOwn(a, k, f);
    PolledAreOwn(b, l, g);
    OwnAmongMore(a, k, f, k + l, f + g);
    OwnAmongMore(b, l, g, k + l, f + g);
    hide IsOwn, Leads, Heard, LeavesIn;
    forall answers, t | Agrees(answers, t, Heard(u, a + b))
      ensures Agrees(answers, t, Heard(u, a)) && Agrees(answers, t, Heard(v, b))
    {
      BothAgree(answers, t, Heard(u, a), Heard(v, b));
    }
  }

  lemma BothAgree(answers: Answers, t: nat, a: map<nat, bool>, b: map<nat, bool>)
    requires Agrees(answers, t, a + b) && a.Keys !! b.Keys
    ensures Agrees(answers, t, a) && Agrees(answers, t, b)
  {
    forall id | id in a ensures answers(id, t) == a[id] {
      assert id in a + b && id !in b.Keys;
    }
    forall id | id in b ensures answers(id, t) == b[id] {
      assert id in a + b;
    }
  }

  lemma SlotByFut(u: World, es: seq<Event>, w: World, kinds: map<nat, Kind>, f: Fut, p: Poll, t: nat)
    requires FutPolled(u, es, w, kinds, f, p, t)
    ensures SlotPolled(u, es, w, kinds, Running(f), SlotOf(p), t)
  {
    hide PollFut, Reached, Leads, AllOwn, Heard, LeavesIn, Agrees, Unpolled;
  }

  lemma IdleSlot(w: World, o: Out, t: nat)
    ensures SlotPolled(w, [], w, map[], Finished(o), Finished(o), t)
  {
    Nothing(w);
  }

  lemma NoSlots(w: World, t: nat)
    ensures SlotsPolled(w, [], w, map[], [], [], t)
  {
    Nothing(w);
  }

  lemma SlotsOf(s: Slot, slots: seq<Slot>)
    ensures UnpolledSlots([s] + slots) == UnpolledIn(s) + UnpolledSlots(slots)
    ensures forall t, answers ::
      PollSlots([s] + slots, t, answers) == [PollSlot(s, t, answers)] + PollSlots(slots, t, answers)
    ensures forall t, answers ::
      ReachedSlots([s] + slots, t, answers) == ReachedSlot(s, t, answers) + ReachedSlots(slots, t, answers)
  {
    hide PollSlot, ReachedSlot, UnpolledIn;
    assert ([s] + slots)[1..] == slots;
  }

  lemma SlotThenSlots(u: World, a: seq<Event>, v: World, b: seq<Event>, w: World, k: map<nat, Kind>, l: map<nat, Kind>,
                      s: Slot, r: Slot, slots: seq<Slot>, rs: seq<Slot>, t: nat)
    requires SlotPolled(u, a, v, k, s, r, t) && SlotsPolled(v, b, w, l, slots, rs, t) && k.Keys !! l.Keys
    ensures SlotsPolled(u, a + b, w, k + l, [s] + slots, [r] + rs, t)
  {
    hide PollSlot, ReachedSlot, PollSlots, ReachedSlots, UnpolledIn, UnpolledSlots;
    hide Leads, AllOwn, Heard, LeavesIn, Agrees;
    Both(u, a, v, b, w, k, UnpolledIn(s), l, UnpolledSlots(slots));
    SlotsOf(s, slots);
  }

  lemma JoinBySlots(u: World, es: seq<Event>, w: World, kinds: map<nat, Kind>, slots: seq<Slot>, rs: seq<Slot>, t: nat)
    requires SlotsPolled(u, es, w, kinds, slots, rs, t)
    ensures FutPolled(u, es, w, kinds, Fut.Join(slots),
                      if AllFinished(rs) then Ready(JoinOut(Outs(rs))) else Pending(Fut.Join(rs)), t)
  {
    hide PollSlots, ReachedSlots, Leads, AllOwn, Heard, LeavesIn, Agrees, UnpolledSlots;
  }

  lemma ChainByStages(u: World, es: seq<Event>, w: World, kinds: map<nat, Kind>, done: seq<Out>, fs: seq<Fut>,
                      p: Poll, t: nat)
    requires StagesPolled(u, es, w, kinds, done, fs, p, t)
    ensures FutPolled(u, es, w, kinds, Chain(done, fs), p, t)
  {
    hide PollStages, ReachedStages, Leads, AllOwn, Heard, LeavesIn, Agrees, UnpolledStages;
  }

  lemma NoStages(w: World, done: seq<Out>, t: nat)
    ensures StagesPolled(w, [], w, map[], done, [], Ready(ChainOut(done)), t)
  {
    Nothing(w);
  }

  lemma StageIsPending(u: World, es: seq<Event>, w: World, k: map<nat, Kind>, l: map<nat, Kind>,
                       done: seq<Out>, f: Fut, fs: seq<Fut>, g: Fut, t: nat)
    requires FutPolled(u, es, w, k, f, Pending(g), t) && k.Keys !! l.Keys && UnpolledStages(fs) <= l.Keys
    ensures StagesPolled(u, es, w, k + l, done, [f] + fs, Pending(Chain(done, [g] + fs)), t)
  {
    OwnAmongMore(es, k, Unpolled(f), k + l, Unpolled(f) + UnpolledStages(fs));
    assert ([f] + fs)[1..] == fs;
    hide PollFut, Reached, Leads, AllOwn, Heard, LeavesIn, Agrees, Unpolled;
  }

  lemma StageHandsOver(u: World, a: seq<Event>, v: World, b: seq<Event>, w: World, k: map<nat, Kind>, l: map<nat, Kind>,
                       done: seq<Out>, f: Fut, fs: seq<Fut>, o: Out, p: Poll, t: nat)
    requires FutPolled(u, a, v, k, f, Ready(o), t) && StagesPolled(v, b, w, l, done + [o], fs, p, t)
    requires k.Keys !! l.Keys
    ensures StagesPolled(u, a + b, w, k + l, done, [f] + fs, p, t)
  {
    Both(u, a, v, b, w, k, Unpolled(f), l, UnpolledStages(fs));
    assert ([f] + fs)[1..] == fs;
    hide PollFut, Reached, Leads, AllOwn, Heard, LeavesIn, Agrees, Unpolled;
  }

  lemma {:induction false} CodeIsSilent(v: World, es: seq<Event>, w: World)
    requires Leads(v, es, w) && forall i :: 0 <= i < |es| ==> es[i].Coded?
    ensures LeavesIn(es) == multiset{} && Heard(v, es) == map[] && AllOwn(es, map[], {})
    decreases |es|
  {
    hide Next, CanHappen;
    if es != [] {
      CodeIsSilent(Next(v, es[0]), es[1..], w);
    }
  }

  /** Code that runs before makes no difference. */
  lemma CodeFirst(u: World, code: seq<Event>, v: World, es: seq<Event>, w: World, kinds: map<nat, Kind>,
                  done: seq<Out>, fs: seq<Fut>, p: Poll, t: nat)
    requires Leads(u, code, v) && forall i :: 0 <= i < |code| ==> code[i].Coded?
    requires StagesPolled(v, es, w, kinds, done, fs, p, t)
    ensures StagesPolled(u, code + es, w, kinds, done, fs, p, t)
  {
    hide PollStages, ReachedStages, Leads, AllOwn, Heard, LeavesIn, Agrees, UnpolledStages;
    CodeIsSilent(u, code, v);
    Both(u, code, v, es, w, map[], {}, kinds, UnpolledStages(fs));
    assert map[] + kinds == kinds && {} + UnpolledStages(fs) == UnpolledStages(fs);
    assert multiset{} + LeavesIn(es) == LeavesIn(es);
  }

  // ------------------------------------------------------------------
  // Events of a run
  // ------------------------------------------------------------------

  /** One tick: the events that lead from one world to another. */
  datatype Tick = Tick(before: World, events: seq<Event>, after: World)

  /** The answers a run gave: leaf `id` was told in tick u that it is ready. */
  ghost function AnswersOf(log: seq<Tick>, t: nat): Answers {
    (id: nat, u: nat) =>
      t <= u < t + |log| &&
      var heard := Heard(log[u - t].before, log[u - t].events);
      id in heard && heard[id]
  }

  /** Every tick starts where the one before it ended. */
  ghost predicate Linked(u: World, log: seq<Tick>, w: World) {
    if log == [] then u == w
    else
      && log[0].before == u && log[|log| - 1].after == w
      && forall i, j :: 0 <= i && j == i + 1 < |log| ==> log[j].before == log[i].after
  }

  /** Tick i is one poll of what f has become by then, under the answers; after f is ready it is nothing. */
  ghost predicate TickPolled(k: Tick, i: nat, kinds: map<nat, Kind>, f: Fut, t: nat, answers: Answers) {
    match Solo(f, t, i, answers)
    case Ready(_) => k.events == [] && k.before == k.after
    case Pending(g) =>
      && FutPolled(k.before, k.events, k.after, kinds, g, PollFut(g, t + i, answers), t + i)
      && Agrees(answers, t + i, Heard(k.before, k.events))
  }

  /** Polling f once per tick comes out as p by these ticks, under the answers they gave. */
  ghost predicate RunPolled(u: World, log: seq<Tick>, w: World, kinds: map<nat, Kind>, f: Fut, p: Poll, t: nat) {
    && Linked(u, log, w)
    && (forall i :: 0 <= i < |log| ==> TickPolled(log[i], i, kinds, f, t, AnswersOf(log, t)))
    && Solo(f, t, |log|, AnswersOf(log, t)) == p
  }

  lemma NoTicks(w: World, kinds: map<nat, Kind>, f: Fut, t: nat)
    ensures RunPolled(w, [], w, kinds, f, Pending(f), t)
  {}

  /** Events of some of the leaves are events of all of them. */
  lemma PolledAmongMore(u: World, es: seq<Event>, w: World, small: map<nat, Kind>, large: map<nat, Kind>,
                        f: Fut, p: Poll, t: nat)
    requires FutPolled(u, es, w, small, f, p, t) && PartOf(small, large)
    ensures FutPolled(u, es, w, large, f, p, t)
  {
    OwnAmongMore(es, small, Unpolled(f), large, Unpolled(f));
    hide PollFut, Reached, Leads, AllOwn, Heard, LeavesIn, Agrees, Unpolled;
  }

  /** Later ticks do not change what was answered in earlier ones. */
  lemma AnswersStay(log: seq<Tick>, k: Tick, t: nat)
    ensures forall id, u: nat :: u < t + |log| ==> AnswersOf(log, t)(id, u) == AnswersOf(log + [k], t)(id, u)
    ensures Agrees(AnswersOf(log + [k], t), t + |log|, Heard(k.before, k.events))
  {
    hide Heard;
  }

  lemma TickStays(k: Tick, i: nat, kinds: map<nat, Kind>, f: Fut, t: nat, a: Answers, b: Answers)
    requires TickPolled(k, i, kinds, f, t, a)
    requires forall id, u: nat :: u <= t + i ==> a(id, u) == b(id, u)
    ensures TickPolled(k, i, kinds, f, t, b)
  {
    hide FutPolled, Heard;
    SoloLocal(f, t, i, a, b);
    var p := Solo(f, t, i, a);
    if p.Pending? {
      PollLocal(p.fut, t + i, a, b);
    }
  }

  /** What a poll comes out as under answers that agree with what was heard. */
  lemma PollIs(u: World, es: seq<Event>, w: World, kinds: map<nat, Kind>, f: Fut, p: Poll, t: nat, answers: Answers)
    requires FutPolled(u, es, w, kinds, f, p, t) && Agrees(answers, t, Heard(u, es))
    ensures PollFut(f, t, answers) == p && LeavesIn(es) == Reached(f, t, answers)
  {
    hide PollFut, Reached, Leads, AllOwn, Heard, LeavesIn, Agrees, Unpolled;
  }

  lemma LinkedGrows(u: World, log: seq<Tick>, v: World, k: Tick)
    requires Linked(u, log, v) && k.before == v
    ensures Linked(u, log + [k], k.after)
  {}

  lemma LastTick(k: Tick, n: nat, kinds: map<nat, Kind>, f: Fut, p: Poll, t: nat, q: Poll, b: Answers)
    requires Solo(f, t, n, b) == p && Agrees(b, t + n, Heard(k.before, k.events))
    requires match p
             case Ready(_) => q == p && k.events == [] && k.after == k.before
             case Pending(g) => FutPolled(k.before, k.events, k.after, kinds, g, q, t + n)
    ensures TickPolled(k, n, kinds, f, t, b) && Solo(f, t, n + 1, b) == q
  {
    hide FutPolled, Agrees, Heard, Solo, PollFut;
    if p.Pending? {
      PollIs(k.before, k.events, k.after, kinds, p.fut, q, t + n, b);
    }
    OneMorePoll(f, t, n, b);
  }

  /** One more tick. */
  lemma RunGrows(u: World, log: seq<Tick>, v: World, kinds: map<nat, Kind>, f: Fut, p: Poll, t: nat,
                 es: seq<Event>, w: World, q: Poll)
    requires RunPolled(u, log, v, kinds, f, p, t)
    requires match p
             case Ready(_) => q == p && es == [] && v == w
             case Pending(g) => FutPolled(v, es, w, kinds, g, q, t + |log|)
    ensures RunPolled(u, log + [Tick(v, es, w)], w, kinds, f, q, t)
  {
    hide AnswersOf, FutPolled, Heard, Solo, TickPolled, Linked, Agrees;
    var k, n := Tick(v, es, w), |log|;
    var a, b := AnswersOf(log, t), AnswersOf(log + [k], t);
    AnswersStay(log, k, t);
    SoloLocal(f, t, n, a, b);
    LinkedGrows(u, log, v, k);
    LastTick(k, n, kinds, f, p, t, q, b);
    forall i | 0 <= i < n + 1 ensures TickPolled((log + [k])[i], i, kinds, f, t, b) {
      if i < n {
        TickStays(log[i], i, kinds, f, t, a, b);
      }
    }
  }

  /** All the leaves polled in a run. */
  ghost function AllLeaves(log: seq<Tick>): multiset<nat> {
    if log == [] then multiset{} else AllLeaves(log[..|log| - 1]) + LeavesIn(log[|log| - 1].events)
  }

  /** In a run exactly the leaves that the future reaches are polled, each as often as it is reached. */
  lemma {:induction false} RunReaches(log: seq<Tick>, n: nat, kinds: map<nat, Kind>, f: Fut, t: nat, answers: Answers)
    requires n <= |log|
    requires forall i :: 0 <= i < n ==> TickPolled(log[i], i, kinds, f, t, answers)
    ensures AllLeaves(log[..n]) == SoloReached(f, t, n, answers)
  {
    hide TickPolled, Reached, LeavesIn, Solo;
    if n > 0 {
      RunReaches(log, n - 1, kinds, f, t, answers);
      assert log[..n][..n - 1] == log[..n - 1];
      TickReaches(log[n - 1], n - 1, kinds, f, t, answers);
    }
  }

  lemma TickReaches(k: Tick, i: nat, kinds: map<nat, Kind>, f: Fut, t: nat, answers: Answers)
    requires TickPolled(k, i, kinds, f, t, answers)
    ensures LeavesIn(k.events) ==
            match Solo(f, t, i, answers) case Ready(_) => multiset{} case Pending(g) => Reached(g, t + i, answers)
  {
    hide FutPolled, Reached, Solo, Agrees, Heard;
    var p := Solo(f, t, i, answers);
    if p.Pending? {
      PollIs(k.before, k.events, k.after, kinds, p.fut, PollFut(p.fut, t + i, answers), t + i, answers);
    }
  }
}
