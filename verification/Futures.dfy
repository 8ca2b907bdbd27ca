/** Futures polled once per tick: leaves, joins and sequences of awaits. */
module Futures {
  /** Output of a future; a leaf is stamped with the tick it became ready in. */
  datatype Out = LeafOut(id: nat, tick: nat) | JoinOut(outs: seq<Out>) | ChainOut(outs: seq<Out>)

  /**
    A leaf waits or requests: it is pending at its first poll, then ready as soon as the host says so.
    A join polls its unfinished children; a chain awaits its stages one after the other.
   */
  datatype Fut =
    | Leaf(id: nat, first: bool)
    | Join(slots: seq<Slot>)
    | Chain(done: seq<Out>, stages: seq<Fut>)

  datatype Slot = Running(fut: Fut) | Finished(out: Out)

  datatype Poll = Pending(fut: Fut) | Ready(out: Out)

  /** Whether the host has what leaf `id` needs in a tick; any run of store and host gives one. */
  type Answers = (nat, nat) -> bool

  // ------------------------------------------------------------------
  // One poll
  // ------------------------------------------------------------------

  function PollFut(f: Fut, t: nat, answers: Answers): Poll {
    match f
    case Leaf(id, first) =>
      if first then Pending(Leaf(id, false))
      else if answers(id, t) then Ready(LeafOut(id, t))
      else Pending(f)
    case Join(slots) =>
      var after := PollSlots(slots, t, answers);
      if AllFinished(after) then Ready(JoinOut(Outs(after))) else Pending(Join(after))
    case Chain(done, stages) => PollStages(done, stages, t, answers)
  }

  function PollSlot(s: Slot, t: nat, answers: Answers): Slot {
    match s
    case Finished(_) => s
    case Running(f) => (match PollFut(f, t, answers) case Pending(g) => Running(g) case Ready(o) => Finished(o))
  }

  function PollSlots(slots: seq<Slot>, t: nat, answers: Answers): (r: seq<Slot>)
    ensures |r| == |slots|
    ensures forall i :: 0 <= i < |slots| ==> r[i] == PollSlot(slots[i], t, answers)
  {
    if slots == [] then [] else [PollSlot(slots[0], t, answers)] + PollSlots(slots[1..], t, answers)
  }

  /** A stage that completes hands over to the next one within the same poll. */
  function PollStages(done: seq<Out>, stages: seq<Fut>, t: nat, answers: Answers): Poll
    decreases stages
  {
    if stages == [] then Ready(ChainOut(done))
    else match PollFut(stages[0], t, answers)
      case Pending(g) => Pending(Chain(done, [g] + stages[1..]))
      case Ready(o) => PollStages(done + [o], stages[1..], t, answers)
  }

  predicate AllFinished(slots: seq<Slot>) {
    forall i :: 0 <= i < |slots| ==> slots[i].Finished?
  }

  function Outs(slots: seq<Slot>): (r: seq<Out>)
    requires AllFinished(slots)
    ensures |r| == |slots| && forall i :: 0 <= i < |slots| ==> r[i] == slots[i].out
  {
    seq(|slots|, i requires 0 <= i < |slots| => slots[i].out)
  }

  /** The leaves a poll reaches. */
  function Reached(f: Fut, t: nat, answers: Answers): multiset<nat> {
    match f
    case Leaf(id, _) => multiset{id}
    case Join(slots) => ReachedSlots(slots, t, answers)
    case Chain(_, stages) => ReachedStages(stages, t, answers)
  }

  function ReachedSlots(slots: seq<Slot>, t: nat, answers: Answers): multiset<nat> {
    if slots == [] then multiset{} else ReachedSlot(slots[0], t, answers) + ReachedSlots(slots[1..], t, answers)
  }

  function ReachedSlot(s: Slot, t: nat, answers: Answers): multiset<nat> {
    match s case Running(f) => Reached(f, t, answers) case Finished(_) => multiset{}
  }

  function ReachedStages(stages: seq<Fut>, t: nat, answers: Answers): multiset<nat> {
    if stages == [] then multiset{}
    else if PollFut(stages[0], t, answers).Ready? then
      Reached(stages[0], t, answers) + ReachedStages(stages[1..], t, answers)
    else Reached(stages[0], t, answers)
  }

  /** The leaves still to be polled for the first time. */
  function Unpolled(f: Fut): set<nat> {
    match f
    case Leaf(id, first) => if first then {id} else {}
    case Join(slots) => UnpolledSlots(slots)
    case Chain(_, stages) => UnpolledStages(stages)
  }

  function UnpolledIn(s: Slot): set<nat> {
    match s case Running(f) => Unpolled(f) case Finished(_) => {}
  }

  function UnpolledSlots(slots: seq<Slot>): set<nat> {
    if slots == [] then {} else UnpolledIn(slots[0]) + UnpolledSlots(slots[1..])
  }

  function UnpolledStages(stages: seq<Fut>): set<nat> {
    if stages == [] then {} else Unpolled(stages[0]) + UnpolledStages(stages[1..])
  }

  // ------------------------------------------------------------------
  // Many polls
  // ------------------------------------------------------------------

  /** A future on its own, polled n times from tick t on; once ready it is not polled again. */
  function Solo(f: Fut, t: nat, n: nat, answers: Answers): Poll {
    if n == 0 then Pending(f)
    else match Solo(f, t, n - 1, answers)
      case Pending(g) => PollFut(g, t + n - 1, answers)
      case Ready(o) => Ready(o)
  }

  lemma OneMorePoll(f: Fut, t: nat, n: nat, answers: Answers)
    ensures Solo(f, t, n + 1, answers) ==
            match Solo(f, t, n, answers) case Pending(g) => PollFut(g, t + n, answers) case Ready(o) => Ready(o)
  {}

  /** Only what is answered in the ticks of the polls matters to them. */
  lemma {:induction false} SoloLocal(f: Fut, t: nat, n: nat, a: Answers, b: Answers)
    requires forall id, u: nat :: t <= u < t + n ==> a(id, u) == b(id, u)
    ensures Solo(f, t, n, a) == Solo(f, t, n, b)
  {
    if n > 0 {
      SoloLocal(f, t, n - 1, a, b);
      var p := Solo(f, t, n - 1, a);
      if p.Pending? {
        PollLocal(p.fut, t + n - 1, a, b);
      }
    }
  }

  lemma {:induction false} PollLocal(f: Fut, t: nat, a: Answers, b: Answers)
    requires forall id :: a(id, t) == b(id, t)
    ensures PollFut(f, t, a) == PollFut(f, t, b)
  {
    match f
    case Leaf(_, _) =>
    case Join(slots) => PollSlotsLocal(slots, t, a, b);
    case Chain(done, stages) => PollStagesLocal(done, stages, t, a, b);
  }

  lemma {:induction false} PollSlotLocal(s: Slot, t: nat, a: Answers, b: Answers)
    requires forall id :: a(id, t) == b(id, t)
    ensures PollSlot(s, t, a) == PollSlot(s, t, b)
  {
    match s
    case Running(f) => PollLocal(f, t, a, b);
    case Finished(_) =>
  }

  lemma {:induction false} PollSlotsLocal(slots: seq<Slot>, t: nat, a: Answers, b: Answers)
    requires forall id :: a(id, t) == b(id, t)
    ensures PollSlots(slots, t, a) == PollSlots(slots, t, b)
  {
    if slots != [] {
      PollSlotLocal(slots[0], t, a, b);
      PollSlotsLocal(slots[1..], t, a, b);
    }
  }

  lemma {:induction false} PollStagesLocal(done: seq<Out>, stages: seq<Fut>, t: nat, a: Answers, b: Answers)
    requires forall id :: a(id, t) == b(id, t)
    ensures PollStages(done, stages, t, a) == PollStages(done, stages, t, b)
    decreases stages
  {
    if stages != [] {
      PollLocal(stages[0], t, a, b);
      var p := PollFut(stages[0], t, a);
      if p.Ready? {
        PollStagesLocal(done + [p.out], stages[1..], t, a, b);
      }
    }
  }

  /** All leaves reached in those polls. */
  function SoloReached(f: Fut, t: nat, n: nat, answers: Answers): multiset<nat> {
    if n == 0 then multiset{}
    else match Solo(f, t, n - 1, answers)
      case Pending(g) => SoloReached(f, t, n - 1, answers) + Reached(g, t + n - 1, answers)
      case Ready(_) => SoloReached(f, t, n - 1, answers)
  }

  function JoinOf(fs: seq<Fut>): Fut {
    Join(seq(|fs|, i requires 0 <= i < |fs| => Running(fs[i])))
  }

  function SlotOf(p: Poll): Slot {
    match p case Pending(g) => Running(g) case Ready(o) => Finished(o)
  }

  /** Where each child would be on its own after n polls. */
  function SlotsAt(fs: seq<Fut>, t: nat, n: nat, answers: Answers): (r: seq<Slot>)
    ensures |r| == |fs| && forall i :: 0 <= i < |fs| ==> r[i] == SlotOf(Solo(fs[i], t, n, answers))
  {
    seq(|fs|, i requires 0 <= i < |fs| => SlotOf(Solo(fs[i], t, n, answers)))
  }

  lemma SlotsAdvance(fs: seq<Fut>, t: nat, n: nat, answers: Answers)
    ensures PollSlots(SlotsAt(fs, t, n, answers), t + n, answers) == SlotsAt(fs, t, n + 1, answers)
  {
    var a, b := PollSlots(SlotsAt(fs, t, n, answers), t + n, answers), SlotsAt(fs, t, n + 1, answers);
    forall i | 0 <= i < |fs| ensures a[i] == b[i] {
      assert Solo(fs[i], t, n + 1, answers) == match Solo(fs[i], t, n, answers)
        case Pending(g) => PollFut(g, t + n, answers) case Ready(o) => Ready(o);
    }
  }

  /**
    A join is the product of its children run alone: after any number of polls every slot holds
    what its child would have reached by itself, and the join is ready exactly from the poll on
    at which the slowest child is, each output in its child's slot.
   */
  lemma {:induction false} JoinIsProduct(fs: seq<Fut>, t: nat, n: nat, answers: Answers)
    requires fs != []
    ensures var slots := SlotsAt(fs, t, n, answers);
            Solo(JoinOf(fs), t, n, answers) ==
            if AllFinished(slots) then Ready(JoinOut(Outs(slots))) else Pending(Join(slots))
  {
    hide PollSlot, PollFut, SlotsAt, PollSlots, Outs, AllFinished, JoinOf;
    if n == 0 {
      JoinStart(fs, t, answers);
    } else {
      JoinIsProduct(fs, t, n - 1, answers);
      var before := SlotsAt(fs, t, n - 1, answers);
      SlotsAdvance(fs, t, n - 1, answers);
      if AllFinished(before) {
        FinishedStay(before, t + n - 1, answers);
      } else {
        PollJoin(before, t + n - 1, answers);
      }
    }
  }

  lemma JoinStart(fs: seq<Fut>, t: nat, answers: Answers)
    requires fs != []
    ensures JoinOf(fs) == Join(SlotsAt(fs, t, 0, answers)) && !AllFinished(SlotsAt(fs, t, 0, answers))
  {
    assert SlotsAt(fs, t, 0, answers)[0].Running?;
  }

  lemma PollJoin(slots: seq<Slot>, t: nat, answers: Answers)
    ensures var after := PollSlots(slots, t, answers);
            PollFut(Join(slots), t, answers) ==
            if AllFinished(after) then Ready(JoinOut(Outs(after))) else Pending(Join(after))
  {}

  lemma FinishedStay(slots: seq<Slot>, t: nat, answers: Answers)
    requires AllFinished(slots)
    ensures PollSlots(slots, t, answers) == slots
  {}

  /** Sum over the children. */
  function SumReached(fs: seq<Fut>, t: nat, n: nat, answers: Answers): multiset<nat> {
    if fs == [] then multiset{}
    else SoloReached(fs[0], t, n, answers) + SumReached(fs[1..], t, n, answers)
  }

  lemma {:induction false} SumAdvance(fs: seq<Fut>, t: nat, n: nat, answers: Answers)
    ensures SumReached(fs, t, n + 1, answers) ==
            SumReached(fs, t, n, answers) + ReachedSlots(SlotsAt(fs, t, n, answers), t + n, answers)
  {
    if fs != [] {
      var slots := SlotsAt(fs, t, n, answers);
      SumAdvance(fs[1..], t, n, answers);
      assert slots[1..] == SlotsAt(fs[1..], t, n, answers);
      assert slots[0] == SlotOf(Solo(fs[0], t, n, answers));
    }
  }

  lemma {:induction false} SumStart(fs: seq<Fut>, t: nat, answers: Answers)
    ensures SumReached(fs, t, 0, answers) == multiset{}
  {
    if fs != [] {
      SumStart(fs[1..], t, answers);
    }
  }

  lemma {:induction false} NothingReached(slots: seq<Slot>, t: nat, answers: Answers)
    requires AllFinished(slots)
    ensures ReachedSlots(slots, t, answers) == multiset{}
  {
    if slots != [] {
      NothingReached(slots[1..], t, answers);
    }
  }

  /** A join polls exactly what its children would poll alone: nobody twice, nobody after finishing. */
  lemma {:induction false} JoinReaches(fs: seq<Fut>, t: nat, n: nat, answers: Answers)
    requires fs != []
    ensures SoloReached(JoinOf(fs), t, n, answers) == SumReached(fs, t, n, answers)
  {
    hide Solo, Reached, JoinOf, Outs, SumReached, SlotsAt, ReachedSlots, AllFinished;
    if n == 0 {
      SumStart(fs, t, answers);
    } else {
      var slots := SlotsAt(fs, t, n - 1, answers);
      JoinReaches(fs, t, n - 1, answers);
      JoinIsProduct(fs, t, n - 1, answers);
      SumAdvance(fs, t, n - 1, answers);
      if AllFinished(slots) {
        NothingReached(slots, t + n - 1, answers);
      } else {
        ReachedJoin(slots, t + n - 1, answers);
      }
    }
  }

  lemma ReachedJoin(slots: seq<Slot>, t: nat, answers: Answers)
    ensures Reached(Join(slots), t, answers) == ReachedSlots(slots, t, answers)
  {}

  // ------------------------------------------------------------------
  // Sequences of awaits
  // ------------------------------------------------------------------

  lemma {:induction false} SoloShift(f: Fut, t: nat, n: nat, answers: Answers)
    requires n > 0
    ensures Solo(f, t, n, answers) == match PollFut(f, t, answers)
            case Pending(g) => Solo(g, t + 1, n - 1, answers)
            case Ready(o) => Ready(o)
  {
    if n > 1 {
      SoloShift(f, t, n - 1, answers);
    } else {
      assert Solo(f, t, 0, answers) == Pending(f);
    }
  }

  lemma ChainPoll(done: seq<Out>, g: Fut, rest: seq<Fut>, t: nat, answers: Answers)
    ensures var p := PollFut(g, t, answers);
            PollFut(Chain(done, [g] + rest), t, answers) ==
            if p.Pending? then Pending(Chain(done, [p.fut] + rest))
            else PollFut(Chain(done + [p.out], rest), t, answers)
  {
    var stages := [g] + rest;
    assert stages[0] == g && stages[1..] == rest;
    assert PollFut(Chain(done, stages), t, answers) == PollStages(done, stages, t, answers);
  }

  /** While its first stage is pending a chain just carries it along. */
  lemma {:induction false} ChainCarries(done: seq<Out>, f: Fut, rest: seq<Fut>, t: nat, n: nat, answers: Answers)
    requires Solo(f, t, n, answers).Pending?
    ensures Solo(Chain(done, [f] + rest), t, n, answers)
         == Pending(Chain(done, [Solo(f, t, n, answers).fut] + rest))
  {
    hide PollFut;
    if n > 0 {
      ChainCarries(done, f, rest, t, n - 1, answers);
      ChainPoll(done, Solo(f, t, n - 1, answers).fut, rest, t + n - 1, answers);
    }
  }

  /**
    When the first stage becomes ready at its m-th poll, the rest of the chain starts in that very
    tick: from there on the chain is the remaining chain, started then.
   */
  lemma {:induction false} ChainHandsOver(done: seq<Out>, f: Fut, rest: seq<Fut>, t: nat, m: nat, n: nat,
                                          answers: Answers)
    requires 0 < m <= n && Solo(f, t, m, answers).Ready? && Solo(f, t, m - 1, answers).Pending?
    ensures Solo(Chain(done, [f] + rest), t, n, answers)
         == Solo(Chain(done + [Solo(f, t, m, answers).out], rest), t + m - 1, n - m + 1, answers)
    decreases n
  {
    hide PollFut;
    var o := Solo(f, t, m, answers).out;
    if n == m {
      ChainCarries(done, f, rest, t, m - 1, answers);
      ChainPoll(done, Solo(f, t, m - 1, answers).fut, rest, t + m - 1, answers);
      var next := Chain(done + [o], rest);
      assert Solo(next, t + m - 1, 0, answers) == Pending(next);
    } else {
      ChainHandsOver(done, f, rest, t, m, n - 1, answers);
    }
  }

  // ------------------------------------------------------------------
  // How soon a future can be ready
  // ------------------------------------------------------------------

  /** The polls that must come out pending: one per fresh leaf, the slowest child of a join, all stages of a chain. */
  function Delay(f: Fut): nat {
    match f
    case Leaf(_, first) => if first then 1 else 0
    case Join(slots) => DelayOfSlots(slots)
    case Chain(_, stages) => DelayOfStages(stages)
  }

  function DelayOfSlots(slots: seq<Slot>): nat {
    if slots == [] then 0
    else
      var d, rest := DelayOfSlot(slots[0]), DelayOfSlots(slots[1..]);
      if d > rest then d else rest
  }

  function DelayOfSlot(s: Slot): nat {
    match s case Running(f) => Delay(f) case Finished(_) => 0
  }

  function DelayOfStages(stages: seq<Fut>): nat {
    if stages == [] then 0 else Delay(stages[0]) + DelayOfStages(stages[1..])
  }

  /** A poll uses up at most one unit of delay, and is pending while there is some. */
  lemma {:induction false} PollDelay(f: Fut, t: nat, answers: Answers)
    ensures Delay(f) > 0 ==> PollFut(f, t, answers).Pending?
    ensures PollFut(f, t, answers).Pending? ==> Delay(PollFut(f, t, answers).fut) >= Delay(f) - 1
  {
    match f
    case Leaf(_, _) =>
    case Join(slots) => SlotsDelay(slots, t, answers);
    case Chain(done, stages) => StagesDelay(done, stages, t, answers);
  }

  lemma {:induction false} SlotDelay(s: Slot, t: nat, answers: Answers)
    ensures var after := PollSlot(s, t, answers);
            DelayOfSlot(after) >= DelayOfSlot(s) - 1 && (DelayOfSlot(s) > 0 ==> after.Running?)
  {
    match s
    case Running(f) => PollDelay(f, t, answers);
    case Finished(_) =>
  }

  lemma {:induction false} SlotsDelay(slots: seq<Slot>, t: nat, answers: Answers)
    ensures var after := PollSlots(slots, t, answers);
            && DelayOfSlots(after) >= DelayOfSlots(slots) - 1
            && (DelayOfSlots(slots) > 0 ==> !AllFinished(after))
  {
    if slots != [] {
      var after := PollSlots(slots, t, answers);
      assert after[1..] == PollSlots(slots[1..], t, answers);
      SlotsDelay(slots[1..], t, answers);
      assert AllFinished(after) ==> AllFinished(after[1..]) && after[0].Finished?;
      SlotDelay(slots[0], t, answers);
    }
  }

  lemma {:induction false} StagesDelay(done: seq<Out>, stages: seq<Fut>, t: nat, answers: Answers)
    ensures var p := PollStages(done, stages, t, answers);
            && (DelayOfStages(stages) > 0 ==> p.Pending?)
            && (p.Pending? ==> Delay(p.fut) >= DelayOfStages(stages) - 1)
    decreases stages
  {
    if stages != [] {
      PollDelay(stages[0], t, answers);
      match PollFut(stages[0], t, answers)
      case Pending(g) => assert ([g] + stages[1..])[1..] == stages[1..];
      case Ready(o) => StagesDelay(done + [o], stages[1..], t, answers);
    }
  }

  /** No host can make a future ready before its delay is over. */
  lemma {:induction false} NeverEarly(f: Fut, t: nat, n: nat, answers: Answers)
    requires n <= Delay(f)
    ensures Solo(f, t, n, answers).Pending? && Delay(Solo(f, t, n, answers).fut) >= Delay(f) - n
  {
    if n > 0 {
      NeverEarly(f, t, n - 1, answers);
      PollDelay(Solo(f, t, n - 1, answers).fut, t + n - 1, answers);
    }
  }

  /** A host that always answers. */
  const PROMPT: Answers := (id: nat, t: nat) => true

  lemma {:induction false} PromptPoll(f: Fut, t: nat)
    ensures if Delay(f) == 0 then PollFut(f, t, PROMPT).Ready?
            else PollFut(f, t, PROMPT).Pending? && Delay(PollFut(f, t, PROMPT).fut) == Delay(f) - 1
  {
    match f
    case Leaf(_, _) =>
    case Join(slots) => PromptSlots(slots, t);
    case Chain(done, stages) => PromptStages(done, stages, t);
  }

  lemma {:induction false} PromptSlot(s: Slot, t: nat)
    ensures var after := PollSlot(s, t, PROMPT);
            && DelayOfSlot(after) == (if DelayOfSlot(s) == 0 then 0 else DelayOfSlot(s) - 1)
            && (after.Finished? <==> DelayOfSlot(s) == 0)
  {
    match s
    case Running(f) => PromptPoll(f, t);
    case Finished(_) =>
  }

  lemma {:induction false} PromptSlots(slots: seq<Slot>, t: nat)
    ensures var after := PollSlots(slots, t, PROMPT);
            && DelayOfSlots(after) == (if DelayOfSlots(slots) == 0 then 0 else DelayOfSlots(slots) - 1)
            && (AllFinished(after) <==> DelayOfSlots(slots) == 0)
  {
    if slots != [] {
      var after := PollSlots(slots, t, PROMPT);
      assert after[1..] == PollSlots(slots[1..], t, PROMPT);
      PromptSlots(slots[1..], t);
      assert AllFinished(after) <==> AllFinished(after[1..]) && after[0].Finished? by {
        assert forall i :: 0 < i < |after| ==> after[i] == after[1..][i - 1];
      }
      PromptSlot(slots[0], t);
    }
  }

  lemma {:induction false} PromptStages(done: seq<Out>, stages: seq<Fut>, t: nat)
    ensures var p := PollStages(done, stages, t, PROMPT);
            if DelayOfStages(stages) == 0 then p.Ready?
            else p.Pending? && Delay(p.fut) == DelayOfStages(stages) - 1
    decreases stages
  {
    if stages != [] {
      PromptPoll(stages[0], t);
      match PollFut(stages[0], t, PROMPT)
      case Pending(g) => assert ([g] + stages[1..])[1..] == stages[1..];
      case Ready(o) => PromptStages(done + [o], stages[1..], t);
    }
  }

  /** And the bound is exact: with a prompt host the future is ready at the very next poll. */
  lemma {:induction false} PromptIsExact(f: Fut, t: nat)
    ensures Solo(f, t, Delay(f) + 1, PROMPT).Ready?
    decreases Delay(f)
  {
    PromptPoll(f, t);
    SoloShift(f, t, Delay(f) + 1, PROMPT);
    if Delay(f) > 0 {
      PromptIsExact(PollFut(f, t, PROMPT).fut, t + 1);
    }
  }
}
