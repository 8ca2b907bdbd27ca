/** The executor: one poll of the main future per tick. */
module Executors {
  import opened Bytes
  import opened Futures

  /** Return codes of `tick`. */
  const CONTINUE := 1
  const FINISHED := 0
  const NO_FUTURE := -1

  datatype Ticked = Ticked(future: Option<Fut>, code: int)

  function TickStep(future: Option<Fut>, t: nat, answers: Answers): Ticked {
    match future
    case None => Ticked(None, NO_FUTURE)
    case Some(f) =>
      match PollFut(f, t, answers)
      case Pending(g) => Ticked(Some(g), CONTINUE)
      case Ready(_) => Ticked(None, FINISHED)
  }

  class Executor {
    var future: Option<Fut>

    constructor ()
      ensures future == None
    {
      future := None;
    }

    method Init(f: Fut)
      modifies this
      ensures future == Some(f)
    {
      future := Some(f);
    }

    method Tick(t: nat, answers: Answers) returns (code: int)
      modifies this
      ensures TickStep(old(future), t, answers) == Ticked(future, code)
    {
      if future.None? {
        return NO_FUTURE;
      }
      match PollFut(future.value, t, answers) {
        case Pending(g) =>
          future := Some(g);
          code := CONTINUE;
        case Ready(_) =>
          future := None;
          code := FINISHED;
      }
    }
  }

  /** The future held after n ticks from tick t on. */
  function After(f: Fut, t: nat, n: nat, answers: Answers): Option<Fut> {
    if n == 0 then Some(f) else TickStep(After(f, t, n - 1, answers), t + n - 1, answers).future
  }

  /** What the n-th tick returns, counting from 0. */
  function Code(f: Fut, t: nat, n: nat, answers: Answers): int {
    TickStep(After(f, t, n, answers), t + n, answers).code
  }

  lemma {:induction false} AfterIsSolo(f: Fut, t: nat, n: nat, answers: Answers)
    ensures After(f, t, n, answers) == match Solo(f, t, n, answers) case Pending(g) => Some(g) case Ready(_) => None
  {
    if n > 0 {
      AfterIsSolo(f, t, n - 1, answers);
    }
  }

  /** Ready stays ready. */
  lemma {:induction false} ReadyStays(f: Fut, t: nat, m: nat, n: nat, answers: Answers)
    requires m <= n && Solo(f, t, m, answers).Ready?
    ensures Solo(f, t, n, answers) == Solo(f, t, m, answers)
    decreases n
  {
    if m < n {
      ReadyStays(f, t, m, n - 1, answers);
    }
  }

  /** The trace is 1 while the main future is pending, then one 0, then -1 forever. */
  lemma TraceShape(f: Fut, t: nat, m: nat, n: nat, answers: Answers)
    requires Solo(f, t, m, answers).Pending? && Solo(f, t, m + 1, answers).Ready?
    ensures Code(f, t, n, answers) == if n < m then 1 else if n == m then 0 else -1
  {
    AfterIsSolo(f, t, n, answers);
    if n < m {
      PendingBefore(f, t, n + 1, m, answers);
      PendingBefore(f, t, n, m, answers);
      assert Solo(f, t, n + 1, answers).Pending?;
    } else if n > m {
      ReadyStays(f, t, m + 1, n, answers);
    }
  }

  lemma PendingBefore(f: Fut, t: nat, n: nat, m: nat, answers: Answers)
    requires n <= m && Solo(f, t, m, answers).Pending?
    ensures Solo(f, t, n, answers).Pending?
  {
    if Solo(f, t, n, answers).Ready? {
      ReadyStays(f, t, n, m, answers);
    }
  }

  /** A main future that never becomes ready makes every tick return 1. */
  lemma NeverReadyNeverEnds(f: Fut, t: nat, n: nat, answers: Answers)
    requires Solo(f, t, n + 1, answers).Pending?
    ensures Code(f, t, n, answers) == 1
  {
    AfterIsSolo(f, t, n, answers);
    PendingBefore(f, t, n, n + 1, answers);
  }

  /** The first `Delay` ticks return 1, whatever the host does. */
  lemma DelayTicksContinue(f: Fut, t: nat, n: nat, answers: Answers)
    requires n < Delay(f)
    ensures Code(f, t, n, answers) == 1
  {
    NeverEarly(f, t, n + 1, answers);
    NeverReadyNeverEnds(f, t, n, answers);
  }

  /** A chain of n awaits: its leaves are all fresh. */
  function Awaits(ids: seq<nat>): Fut {
    Chain([], seq(|ids|, i requires 0 <= i < |ids| => Leaf(ids[i], true)))
  }

  lemma {:induction false} FreshDelay(stages: seq<Fut>)
    requires forall i :: 0 <= i < |stages| ==> stages[i].Leaf? && stages[i].first
    ensures DelayOfStages(stages) == |stages|
  {
    if stages != [] {
      FreshDelay(stages[1..]);
    }
  }

  /** n sequential awaits make at least n ticks return 1; with a prompt host exactly n, then 0. */
  lemma AwaitsTakeTicks(ids: seq<nat>, t: nat, n: nat, answers: Answers)
    ensures n < |ids| ==> Code(Awaits(ids), t, n, answers) == 1
    ensures Code(Awaits(ids), t, |ids|, PROMPT) == 0
  {
    FreshDelay(Awaits(ids).stages);
    assert Delay(Awaits(ids)) == |ids|;
    if n < |ids| {
      DelayTicksContinue(Awaits(ids), t, n, answers);
    }
    NeverEarly(Awaits(ids), t, |ids|, PROMPT);
    PromptIsExact(Awaits(ids), t);
    TraceShape(Awaits(ids), t, |ids|, |ids|, PROMPT);
  }
}
