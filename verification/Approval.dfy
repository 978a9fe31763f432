/** The human-approval queue (policy/hitl.go) as a protocol between a waiting request, its timeout or
    cancellation, and any number of operators. */
module Approval {
  import opened Common

  datatype Decision = Decision(effect: string, reason: string)

  datatype Input = Input(principal: string, server: string, rpcMethod: string, tool: string)

  const TIMED_OUT := Decision("deny", "approval timed out")

  // ---------------------------------------------------------------- the shared queue

  /** What the lock protects: the reviews an operator can still answer, and per review a channel that
      holds at most one decision. */
  datatype Queue = Queue(pending: map<string, Input>, channel: map<string, Option<Decision>>)

  function Register(q: Queue, id: string, input: Input): Queue {
    Queue(q.pending[id := input], q.channel[id := None])
  }

  /** An operator's answer: removal and send under one hold of the lock. */
  function Resolve(q: Queue, id: string, d: Decision): (Queue, bool) {
    if id in q.pending then (Queue(q.pending - {id}, q.channel[id := Some(d)]), true) else (q, false)
  }

  /** The waiter takes its review off the queue and learns whether it was still there. */
  function Claim(q: Queue, id: string): (Queue, bool) {
    (q.(pending := q.pending - {id}), id in q.pending)
  }

  /** A receive empties the buffered channel. */
  function Receive(q: Queue, id: string): Queue {
    q.(channel := q.channel[id := None])
  }

  class ManualApprover {
    var pending: map<string, Input>
    var channel: map<string, Option<Decision>>

    function View(): Queue
      reads this
    {
      Queue(pending, channel)
    }

    constructor ()
      ensures View() == Queue(map[], map[])
    {
      pending, channel := map[], map[];
    }

    method Enqueue(id: string, input: Input)
      modifies this
      ensures View() == Register(old(View()), id, input)
    {
      channel := channel[id := None];
      pending := pending[id := input];
    }

    method Answer(id: string, d: Decision) returns (ok: bool)
      modifies this
      ensures (View(), ok) == Resolve(old(View()), id, d)
    {
      if id !in pending {
        return false;
      }
      pending := pending - {id};
      channel := channel[id := Some(d)];
      return true;
    }

    method TakeBack(id: string) returns (stillPending: bool)
      modifies this`pending
      ensures (View(), stillPending) == Claim(old(View()), id)
    {
      stillPending := id in pending;
      pending := pending - {id};
    }

    method Approve(id: string) returns (ok: bool)
      modifies this
      ensures (View(), ok) == Resolve(old(View()), id, Decision("allow", "approved"))
    {
      ok := Answer(id, Decision("allow", "approved"));
    }

    method Deny(id: string, reason: string) returns (ok: bool)
      modifies this
      ensures (View(), ok) == Resolve(old(View()), id, Decision("deny", reason))
    {
      ok := Answer(id, Decision("deny", reason));
    }
  }

  // ---------------------------------------------------------------- the protocol

  datatype Cause = Timeout | Cancel

  datatype Outcome = ByOperator(d: Decision) | GaveUp(cause: Cause)

  /** Where a call of Decide stands: blocked in its select, about to claim, receiving what an operator
      committed first, or returned. */
  datatype Waiter = Waiting | Claiming(cause: Cause) | Receiving | Returned(outcome: Outcome)

  /** An operator's call and what it was told. */
  datatype Told = Told(id: string, d: Decision, won: bool)

  datatype System = System(queue: Queue, waiters: map<string, Waiter>, told: seq<Told>)

  datatype Step =
    | Arrive(id: string, input: Input)
    | Operator(id: string, d: Decision)
    | TakeDecision(id: string)
    | Fire(id: string, cause: Cause)
    | ClaimStep(id: string)
    | ClaimReceive(id: string)

  const IDLE := System(Queue(map[], map[]), map[], [])

  /** A step that is not enabled, a receive from an empty channel included, does not happen. Ids are
      fresh, and a select may take the timeout even when a decision is ready. */
  function Next(s: System, step: Step): System {
    var q, id := s.queue, step.id;
    match step
    case Arrive(_, input) =>
      if id in s.waiters then s
      else s.(queue := Register(q, id, input), waiters := s.waiters[id := Waiting])
    case Operator(_, d) =>
      var (q', won) := Resolve(q, id, d);
      s.(queue := q', told := s.told + [Told(id, d, won)])
    case TakeDecision(_) =>
      if id in s.waiters && s.waiters[id].Waiting? && id in q.channel && q.channel[id].Some?
      then s.(queue := Receive(q, id), waiters := s.waiters[id := Returned(ByOperator(q.channel[id].value))]) else s
    case Fire(_, cause) =>
      if id in s.waiters && s.waiters[id].Waiting? then s.(waiters := s.waiters[id := Claiming(cause)]) else s
    case ClaimStep(_) =>
      if id in s.waiters && s.waiters[id].Claiming? then
        var (q', stillPending) := Claim(q, id);
        s.(queue := q',
           waiters := s.waiters[id := if stillPending then Returned(GaveUp(s.waiters[id].cause)) else Receiving])
      else s
    case ClaimReceive(_) =>
      if id in s.waiters && s.waiters[id].Receiving? && id in q.channel && q.channel[id].Some?
      then s.(queue := Receive(q, id), waiters := s.waiters[id := Returned(ByOperator(q.channel[id].value))]) else s
  }

  function RunAll(run: seq<Step>): System {
    if run == [] then IDLE else Next(RunAll(run[..|run| - 1]), run[|run| - 1])
  }

  /** The decisions operators were told had been taken for a review. */
  function Wins(told: seq<Told>, id: string): seq<Decision> {
    if told == [] then []
    else
      var t := told[|told| - 1];
      var before := Wins(told[..|told| - 1], id);
      if t.id == id && t.won then before + [t.d] else before
  }

  /** One review is settled consistently with what operators were told about it. */
  ghost predicate Settled(s: System, id: string) {
    var wins := Wins(s.told, id);
    if id !in s.waiters then id !in s.queue.pending && wins == []
    else
      && id in s.queue.channel
      && var ch := s.queue.channel[id];
         if id in s.queue.pending then
           (s.waiters[id].Waiting? || s.waiters[id].Claiming?) && ch.None? && wins == []
         else match s.waiters[id]
              case Returned(ByOperator(d)) => ch.None? && wins == [d]
              case Returned(GaveUp(_)) => ch.None? && wins == []
              case _ => ch.Some? && wins == [ch.value]
  }

  lemma StepKeepsSettled(s: System, step: Step, id: string)
    requires Settled(s, id)
    ensures Settled(Next(s, step), id)
  {
  }

  lemma {:induction false} AlwaysSettled(run: seq<Step>, id: string)
    ensures Settled(RunAll(run), id)
  {
    if run != [] {
      AlwaysSettled(run[..|run| - 1], id);
      StepKeepsSettled(RunAll(run[..|run| - 1]), run[|run| - 1], id);
    }
  }

  /** What Decide returns for an outcome: a decision, or the context's error. */
  function Verdict(o: Outcome): Option<Decision> {
    match o
    case ByOperator(d) => Some(d)
    case GaveUp(Timeout) => Some(TIMED_OUT)
    case GaveUp(Cancel) => None
  }

  /** One winner, on every interleaving: at most one operator is told "yes" per review; a review that
      returned with an operator told "yes" returned exactly that operator's decision; one that timed out
      returned a denial, one that was cancelled no decision, and then nobody was told "yes"; and neither
      the receive after a lost claim nor the send of an answer can block. */
  lemma SingleWinner(run: seq<Step>, id: string)
    ensures var s := RunAll(run);
            var wins := Wins(s.told, id);
            && |wins| <= 1
            && (id in s.waiters && s.waiters[id].Returned? ==>
                  match s.waiters[id].outcome
                  case ByOperator(d) => wins == [d] && Verdict(s.waiters[id].outcome) == Some(d)
                  case GaveUp(Timeout) =>
                    wins == [] && Verdict(s.waiters[id].outcome) == Some(Decision("deny", "approval timed out"))
                  case GaveUp(Cancel) => wins == [] && Verdict(s.waiters[id].outcome).None?)
            && (id in s.waiters && s.waiters[id].Receiving? ==> id in s.queue.channel && s.queue.channel[id].Some?)
            && (id in s.queue.pending ==> id in s.queue.channel && s.queue.channel[id].None?)
  {
    AlwaysSettled(run, id);
  }

  lemma OffTheQueueStaysOff(s: System, step: Step, id: string)
    requires id in s.waiters && id !in s.queue.pending
    ensures var s' := Next(s, step);
            && id in s'.waiters && id !in s'.queue.pending && Wins(s'.told, id) == Wins(s.told, id)
            && (s.waiters[id].Returned? ==> s'.waiters[id] == s.waiters[id])
  {
  }

  /** Once a review is off the queue, nobody is told "yes" for it any more, and a result stays. */
  lemma {:induction false} NoLateWinner(run: seq<Step>, n: nat, id: string)
    requires n <= |run| && id in RunAll(run[..n]).waiters && id !in RunAll(run[..n]).queue.pending
    ensures var s, s' := RunAll(run[..n]), RunAll(run);
            && id in s'.waiters && id !in s'.queue.pending && Wins(s'.told, id) == Wins(s.told, id)
            && (s.waiters[id].Returned? ==> s'.waiters[id] == s.waiters[id])
  {
    if n == |run| {
      assert run[..n] == run;
    } else {
      var before := run[..|run| - 1];
      assert before[..n] == run[..n];
      NoLateWinner(before, n, id);
      OffTheQueueStaysOff(RunAll(before), run[|run| - 1], id);
    }
  }

  /** An operator is told "yes" exactly when the review is still on the queue at that moment. */
  lemma ToldTheTruth(run: seq<Step>, id: string, d: Decision)
    ensures var s, s' := RunAll(run), RunAll(run + [Operator(id, d)]);
            && (Wins(s'.told, id) == Wins(s.told, id) + [d] <==> id in s.queue.pending)
            && (id in s.queue.pending ==> Wins(s.told, id) == [] && id in s.waiters && !s.waiters[id].Returned?)
            && (id !in s.queue.pending ==> Wins(s'.told, id) == Wins(s.told, id))
  {
    var s := RunAll(run);
    assert (run + [Operator(id, d)])[..|run|] == run;
    var s' := RunAll(run + [Operator(id, d)]);
    assert s'.told[..|s.told|] == s.told;
    assert |Wins(s.told, id) + [d]| == |Wins(s.told, id)| + 1;
    AlwaysSettled(run, id);
  }

  /** A review that returned an allowance was allowed by an operator who was told so. */
  lemma AllowedByOperator(run: seq<Step>, id: string)
    requires id in RunAll(run).waiters && RunAll(run).waiters[id].Returned?
    requires var v := Verdict(RunAll(run).waiters[id].outcome); v.Some? && v.value.effect == "allow"
    ensures Told(id, Verdict(RunAll(run).waiters[id].outcome).value, true) in RunAll(run).told
  {
    AlwaysSettled(run, id);
    var s := RunAll(run);
    WinsWereTold(s.told, id, s.waiters[id].outcome.d);
  }

  lemma {:induction false} WinsWereTold(told: seq<Told>, id: string, d: Decision)
    requires d in Wins(told, id)
    ensures Told(id, d, true) in told
  {
    var before, t := told[..|told| - 1], told[|told| - 1];
    if !(t.id == id && t.won && t.d == d) {
      assert d in Wins(before, id);
      WinsWereTold(before, id, d);
    }
  }

  /** What operators were told is what they were asked, call by call. */
  lemma {:induction false} ToldWereAsked(run: seq<Step>, t: Told)
    requires t in RunAll(run).told
    ensures Operator(t.id, t.d) in run
  {
    var before, step := run[..|run| - 1], run[|run| - 1];
    assert run == before + [step];
    if t in RunAll(before).told {
      ToldWereAsked(before, t);
    }
  }

  /** Nobody gives up unprompted: a review that gave up was timed out or cancelled, whichever it says. */
  lemma {:induction false} GivingUpWasPrompted(run: seq<Step>, id: string, cause: Cause)
    requires id in RunAll(run).waiters
    requires RunAll(run).waiters[id] == Claiming(cause) || RunAll(run).waiters[id] == Returned(GaveUp(cause))
    ensures Fire(id, cause) in run
  {
    var before, step := run[..|run| - 1], run[|run| - 1];
    assert run == before + [step];
    var s := RunAll(before);
    if id in s.waiters && (s.waiters[id] == Claiming(cause) || s.waiters[id] == Returned(GaveUp(cause))) {
      GivingUpWasPrompted(before, id, cause);
    }
  }

  lemma RunSnoc(run: seq<Step>, step: Step)
    ensures RunAll(run + [step]) == Next(RunAll(run), step)
  {
    assert (run + [step])[..|run|] == run;
  }

  /** Every review can end: wherever it stands, once its timeout fires it returns after its own steps
      alone, whatever operators do or have done; and with the answer of the one that won, if one did. */
  lemma TimeoutAlwaysReturns(run: seq<Step>, id: string)
    requires id in RunAll(run).waiters
    ensures var s := RunAll(run + [Fire(id, Timeout)] + [ClaimStep(id)] + [ClaimReceive(id)]);
            && id in s.waiters && s.waiters[id].Returned?
            && (RunAll(run).waiters[id].Waiting? && id !in RunAll(run).queue.pending ==>
                  s.waiters[id].outcome.ByOperator? && Wins(RunAll(run).told, id) == [s.waiters[id].outcome.d])
  {
    AlwaysSettled(run, id);
    RunSnoc(run, Fire(id, Timeout));
    RunSnoc(run + [Fire(id, Timeout)], ClaimStep(id));
    RunSnoc(run + [Fire(id, Timeout)] + [ClaimStep(id)], ClaimReceive(id));
  }
}
