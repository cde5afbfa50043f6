/** What holds over whole interleavings of acquires, releases and drains. */
module StreamTheorems {
  import opened StreamProtocol

  /** A run: each state comes from the one before by the listed move. */
  ghost predicate IsRun(states: seq<State>, moves: seq<Move>) {
    && |states| == |moves| + 1
    && forall i {:trigger moves[i]} :: 0 <= i < |moves| ==>
         Enabled(states[i], moves[i]) && states[i + 1] == Next(states[i], moves[i])
  }

  lemma {:induction false} RunKeepsInv(states: seq<State>, moves: seq<Move>, k: nat)
    requires IsRun(states, moves) && Inv(states[0]) && k <= |moves|
    ensures Inv(states[k]) && |states[k].threads| == |states[0].threads|
  {
    if k > 0 {
      RunKeepsInv(states, moves, k - 1);
      StepKeepsInv(states[k - 1], moves[k - 1]);
    }
  }

  lemma InitInv(s: State)
    requires Init(s)
    ensures Inv(s)
  {
  }

  /** Slot accounting: in every interleaving a counter equals the number of
      slots held and is never negative. */
  lemma CounterCountsSlots(states: seq<State>, moves: seq<Move>, k: nat, a: string)
    requires IsRun(states, moves) && Init(states[0]) && k <= |moves|
    ensures var s := states[k].shared;
      if a in s.counts then s.counts[a] < |s.cells| && s.cells[s.counts[a]] == |Holders(states[k].threads, a)|
      else Holders(states[k].threads, a) == {}
  {
    InitInv(states[0]);
    RunKeepsInv(states, moves, k);
    if a !in states[k].shared.counts {
      NoCounterNoHolders(states[k], a);
    }
  }

  lemma {:induction false} RunExtends(states: seq<State>, moves: seq<Move>, i: nat, k: nat)
    requires IsRun(states, moves) && Inv(states[0]) && i <= k <= |moves|
    ensures Extends(states[i].shared, states[k].shared)
  {
    if i < k {
      RunExtends(states, moves, i, k - 1);
      RunKeepsInv(states, moves, k - 1);
      StepKeepsInv(states[k - 1], moves[k - 1]);
    }
  }

  /** Each agent keeps one counter for the whole run, and no two agents share one. */
  lemma OneCounterPerAgent(states: seq<State>, moves: seq<Move>, i: nat, k: nat, a: string, b: string)
    requires IsRun(states, moves) && Init(states[0]) && i <= k <= |moves|
    requires a in states[i].shared.counts
    ensures a in states[k].shared.counts && states[k].shared.counts[a] == states[i].shared.counts[a]
    ensures b in states[k].shared.counts && b != a ==> states[k].shared.counts[b] != states[i].shared.counts[a]
  {
    InitInv(states[0]);
    RunExtends(states, moves, i, k);
    RunKeepsInv(states, moves, k);
  }

  /** No counter and no limit in use for agent a exceeds bound. */
  predicate Within(s: State, a: string, bound: int) {
    && (forall t :: 0 <= t < |s.threads| && InFlight(s.threads[t], a) ==> s.threads[t].limit <= bound)
    && (a in s.shared.counts && s.shared.counts[a] < |s.shared.cells| ==>
          s.shared.cells[s.shared.counts[a]] <= bound)
  }

  /** If no caller asks for more than bound slots of an agent, no interleaving
      ever holds more than bound. */
  lemma {:induction false} LimitNeverExceeded(states: seq<State>, moves: seq<Move>, k: nat, a: string, bound: nat)
    requires IsRun(states, moves) && Init(states[0]) && k <= |moves|
    requires forall i :: 0 <= i < |moves| && moves[i].step.BeginAcquire? && moves[i].step.agent == a ==>
      moves[i].step.limit <= bound
    ensures Within(states[k], a, bound) && |Holders(states[k].threads, a)| <= bound
  {
    CounterCountsSlots(states, moves, k, a);
    if k > 0 {
      var s, m := states[k - 1], moves[k - 1];
      LimitNeverExceeded(states, moves, k - 1, a, bound);
      InitInv(states[0]);
      RunKeepsInv(states, moves, k - 1);
      StepKeepsInv(s, m);
      StepWithin(s, m, a, bound);
    }
  }

  lemma ActWithin(sh: Shared, t: nat, th: Thread, step: Step, a: string, bound: nat)
    requires SharedInv(sh) && ThreadInv(sh, th) && CanAct(sh, th, step)
    requires SharedInv(SharedAfter(sh, t, th, step)) && a in SharedAfter(sh, t, th, step).counts
    requires InFlight(th, a) ==> th.limit <= bound
    requires a in sh.counts ==> sh.cells[sh.counts[a]] <= bound
    ensures SharedAfter(sh, t, th, step).cells[SharedAfter(sh, t, th, step).counts[a]] <= bound
  {
    ActMovesOneSlot(sh, t, th, step, a);
  }

  lemma StepWithin(s: State, m: Move, a: string, bound: nat)
    requires Inv(s) && Enabled(s, m) && Within(s, a, bound)
    requires m.step.BeginAcquire? && m.step.agent == a ==> m.step.limit <= bound
    ensures Within(Next(s, m), a, bound)
  {
    ActKeepsShared(s.shared, m.tid, s.threads[m.tid], m.step);
    if a in Next(s, m).shared.counts {
      ActWithin(s.shared, m.tid, s.threads[m.tid], m.step, a, bound);
    }
  }

  // Draining.

  /** While draining, nobody enters AcquireStream: a thread in flight was in
      flight from the start, and a slot is an old one or a late acquirer's. */
  lemma {:induction false} AfterFlag(states: seq<State>, moves: seq<Move>, i: nat, k: nat, t: nat, a: string)
    requires IsRun(states, moves) && i <= k <= |moves| && states[i].shared.draining
    requires t < |states[i].threads|
    ensures states[k].shared.draining && |states[k].threads| == |states[i].threads|
    ensures InFlight(states[k].threads[t], a) ==> InFlight(states[i].threads[t], a)
    ensures Active(states[k].threads[t], a) ==>
      Active(states[i].threads[t], a) || InFlight(states[i].threads[t], a)
  {
    if i < k {
      AfterFlag(states, moves, i, k - 1, t, a);
      assert states[k] == Next(states[k - 1], moves[k - 1]);
    }
  }

  /** One step back in a scan whose sum is zero: the same scan with the same sum,
      or its read of agent a's counter, which was zero. */
  lemma ScanStep(s: State, m: Move, d: nat, a: string)
    requires Inv(s) && Enabled(s, m) && d < |s.threads| && Next(s, m).threads[d].Scanning?
    requires Next(s, m).threads[d].total == 0 && a in Next(s, m).shared.counts && a !in Next(s, m).threads[d].todo
    ensures s.threads[d].Scanning? && s.threads[d].total == 0 && a in s.shared.counts
    ensures if m == Move(d, ReadCounter(a)) then s.shared.cells[s.shared.counts[a]] == 0 else a !in s.threads[d].todo
  {
    assert ThreadInv(s.shared, s.threads[d]) && ThreadInv(s.shared, s.threads[m.tid]);
    if m.tid == d && m.step.ReadCounter? {
      assert s.shared.cells[s.shared.counts[m.step.agent]] == |Holders(s.threads, m.step.agent)|;
    }
  }

  /** A scan that has added up to zero has read zero from each counter it
      visited, each at some step r of that same scan. */
  lemma {:induction false} ScanReadZero(states: seq<State>, moves: seq<Move>, d: nat, j: nat, a: string)
      returns (r: nat)
    requires IsRun(states, moves) && Init(states[0]) && j <= |moves|
    requires d < |states[j].threads| && states[j].threads[d].Scanning?
    requires states[j].threads[d].total == 0
    requires a in states[j].shared.counts && a !in states[j].threads[d].todo
    ensures r < j && moves[r] == Move(d, ReadCounter(a))
    ensures a in states[r].shared.counts && states[r].shared.counts[a] < |states[r].shared.cells|
    ensures states[r].shared.cells[states[r].shared.counts[a]] == 0
    ensures InOneScan(states, d, r, j)
  {
    InitInv(states[0]);
    if j > 0 {
      RunKeepsInv(states, moves, j - 1);
      ScanStep(states[j - 1], moves[j - 1], d, a);
      if moves[j - 1] == Move(d, ReadCounter(a)) {
        r := j - 1;
      } else {
        r := ScanReadZero(states, moves, d, j - 1, a);
      }
    }
  }

  /** The move is a DrainAll returning nil: its scan is complete and found nothing. */
  predicate ReturnsNil(s: State, m: Move) {
    Enabled(s, m) && m.step.EndScan? && s.threads[m.tid].total == 0
  }

  /** From state r to state j thread d is in one and the same scan. */
  ghost predicate InOneScan(states: seq<State>, d: nat, r: nat, j: nat)
    requires j < |states|
  {
    forall m :: r <= m <= j ==> d < |states[m].threads| && states[m].threads[d].Scanning?
  }

  /** The thread is inside DrainAll. */
  predicate InDrain(th: Thread) {
    th.Polling? || th.Scanning?
  }

  /** The move ends thread d's drain: it returns nil, or its context was canceled. */
  predicate EndsDrain(s: State, m: Move, d: nat) {
    m.tid == d && (ReturnsNil(s, m) || m.step.GiveUp?)
  }

  lemma DrainStep(s: State, m: Move, d: nat)
    requires Enabled(s, m) && d < |s.threads| && InDrain(s.threads[d])
    ensures if EndsDrain(s, m, d) then Next(s, m).threads[d] == Idle else InDrain(Next(s, m).threads[d])
  {
  }

  ghost predicate StaysInDrain(states: seq<State>, d: nat, i: nat, k: nat)
    requires k < |states|
  {
    forall m :: i < m <= k ==> d < |states[m].threads| && InDrain(states[m].threads[d])
  }

  ghost predicate NotEnded(states: seq<State>, moves: seq<Move>, d: nat, i: nat, k: nat)
    requires k <= |moves| < |states|
  {
    forall m {:trigger moves[m]} :: i < m < k ==> !EndsDrain(states[m], moves[m], d)
  }

  /** A drain polls until a scan finds nothing or its context is canceled: on every
      run it goes on exactly until a move that ends it, whatever its scans found. */
  lemma {:induction false} DrainsUntil(states: seq<State>, moves: seq<Move>, d: nat, i: nat, k: nat)
    requires IsRun(states, moves) && i < k <= |moves| && moves[i] == Move(d, BeginDrain)
    ensures StaysInDrain(states, d, i, k) <==> NotEnded(states, moves, d, i, k)
  {
    var before := k - 1;
    assert Enabled(states[before], moves[before]) && states[k] == Next(states[before], moves[before]);
    if i < before {
      DrainsUntil(states, moves, d, i, before);
      OneMoreInDrain(states, moves, d, i, before);
    }
  }

  lemma OneMoreInDrain(states: seq<State>, moves: seq<Move>, d: nat, i: nat, k: nat)
    requires i < k < |moves| && |states| == |moves| + 1
    requires Enabled(states[k], moves[k]) && states[k + 1] == Next(states[k], moves[k])
    requires StaysInDrain(states, d, i, k) <==> NotEnded(states, moves, d, i, k)
    ensures StaysInDrain(states, d, i, k + 1) <==> NotEnded(states, moves, d, i, k + 1)
  {
    if StaysInDrain(states, d, i, k) {
      assert d < |states[k].threads| && InDrain(states[k].threads[d]);
      DrainStep(states[k], moves[k], d);
      assert EndsDrain(states[k], moves[k], d) ==> !InDrain(states[k + 1].threads[d]);
    }
  }

  /** Only a held mutex can block a thread: one about to look up its counter, to
      acquire or to release, has no move exactly while a scan holds it, and a drain
      can begin its next scan exactly when none does; any other thread can move. */
  lemma BlockedExactlyWhen(s: State, t: nat)
    requires Inv(s) && t < |s.threads|
    ensures (exists step :: Enabled(s, Move(t, step))) <==>
      s.shared.scanner.None? || !(s.threads[t].LookingUp? || s.threads[t].Holding?)
    ensures Enabled(s, Move(t, BeginScan)) <==> s.threads[t].Polling? && s.shared.scanner.None?
  {
    var th := s.threads[t];
    assert ThreadInv(s.shared, th);
    var step := match th
      case Idle => BeginDrain
      case LookingUp(_, _) => Lookup
      case Loading(_, _, _) => Load
      case Swapping(_, _, _, _) => Swap
      case Holding(_) => BeginRelease
      case Releasing(_, _) => Add
      case Polling => GiveUp
      case Scanning(todo, _) => if todo == {} then EndScan else (var a :| a in todo; ReadCounter(a));
    assert Enabled(s, Move(t, step)) || (s.shared.scanner.Some? && (th.LookingUp? || th.Holding?));
  }

  /** The scan that found nothing saw agent a without slots at one of its moves r. */
  lemma ScanSawNoSlots(states: seq<State>, moves: seq<Move>, d: nat, i: nat, j: nat, a: string) returns (r: nat)
    requires IsRun(states, moves) && Init(states[0]) && i < j < |moves|
    requires moves[i] == Move(d, BeginDrain) && moves[j].tid == d && ReturnsNil(states[j], moves[j])
    ensures i < r <= j && Holders(states[r].threads, a) == {} && InOneScan(states, d, r, j)
    ensures moves[r] == Move(d, ReadCounter(a)) || (r == j && a !in states[j].shared.counts)
  {
    InitInv(states[0]);
    if a in states[j].shared.counts {
      r := ScanReadZero(states, moves, d, j, a);
      assert Enabled(states[i], moves[i]) && states[i + 1] == Next(states[i], moves[i]);
      assert !states[i].threads[d].Scanning? && !states[i + 1].threads[d].Scanning?;
    } else {
      r := j;
    }
    CounterCountsSlots(states, moves, r, a);
  }

  /** Drain safety. Thread d sets the flag at move i and its DrainAll returns nil
      at move j. Any slot held afterwards belongs to a thread that was already
      past the draining check when the flag was set, and that had not yet done
      its CAS when the scan that returned nil read its agent's counter (move r),
      or at the end of that scan when the agent had no counter yet. */
  lemma DrainSafety(states: seq<State>, moves: seq<Move>, d: nat, i: nat, j: nat, k: nat, t: nat, a: string)
      returns (r: nat)
    requires IsRun(states, moves) && Init(states[0]) && i < j < k <= |moves|
    requires moves[i] == Move(d, BeginDrain) && moves[j].tid == d && ReturnsNil(states[j], moves[j])
    requires t < |states[k].threads| && Active(states[k].threads[t], a)
    ensures t < |states[i].threads| && InFlight(states[i].threads[t], a)
    ensures i < r <= j && t < |states[r].threads| && InFlight(states[r].threads[t], a)
    ensures InOneScan(states, d, r, j)
    ensures moves[r] == Move(d, ReadCounter(a)) || (r == j && a !in states[j].shared.counts)
  {
    assert Enabled(states[i], moves[i]) && states[i + 1] == Next(states[i], moves[i]);
    InitInv(states[0]);
    RunKeepsInv(states, moves, i);
    RunKeepsInv(states, moves, k);
    r := ScanSawNoSlots(states, moves, d, i, j, a);
    AfterFlag(states, moves, i + 1, r, t, a);
    AfterFlag(states, moves, r, k, t, a);
    assert t !in Holders(states[r].threads, a);
  }

  function InFlightThreads(s: State): set<nat> {
    set t: nat | t < |s.threads| && (s.threads[t].LookingUp? || s.threads[t].Loading? || s.threads[t].Swapping?)
  }

  function ActiveThreads(s: State): set<nat> {
    set t: nat | t < |s.threads| && (s.threads[t].Holding? || s.threads[t].Releasing?)
  }

  /** After a nil return the streams left are among the acquirers in flight when
      the flag was set; if there were none, every counter is zero for ever. */
  lemma DrainLeavesOnlyLateAcquirers(states: seq<State>, moves: seq<Move>, d: nat, i: nat, j: nat, k: nat)
    requires IsRun(states, moves) && Init(states[0]) && i < j < k <= |moves|
    requires moves[i] == Move(d, BeginDrain) && moves[j].tid == d && ReturnsNil(states[j], moves[j])
    ensures ActiveThreads(states[k]) <= InFlightThreads(states[i])
    ensures |ActiveThreads(states[k])| <= |InFlightThreads(states[i])|
    ensures InFlightThreads(states[i]) == {} ==>
      var s := states[k].shared; forall a :: a in s.counts ==> s.counts[a] < |s.cells| && s.cells[s.counts[a]] == 0
  {
    forall t | t in ActiveThreads(states[k])
      ensures t in InFlightThreads(states[i])
    {
      var r := DrainSafety(states, moves, d, i, j, k, t, states[k].threads[t].agent);
    }
    SubsetCardinality(ActiveThreads(states[k]), InFlightThreads(states[i]));
    if InFlightThreads(states[i]) == {} {
      var s := states[k].shared;
      forall a | a in s.counts
        ensures s.counts[a] < |s.cells| && s.cells[s.counts[a]] == 0
      {
        CounterCountsSlots(states, moves, k, a);
        assert Holders(states[k].threads, a) <= ActiveThreads(states[k]);
      }
    }
  }

  lemma {:induction false} SubsetCardinality<T>(a: set<T>, b: set<T>)
    requires a <= b
    ensures |a| <= |b|
  {
    assert b == a + (b - a);
  }

  // Lock-freedom of the CAS loop.

  /** The move changes the counter of agent a: a successful CAS or a release. */
  predicate Changes(s: State, m: Move, a: string) {
    && Enabled(s, m)
    && var th := s.threads[m.tid];
       || (m.step.Swap? && th.agent == a && s.shared.cells[th.counter] == th.seen)
       || (m.step.Add? && th.agent == a)
  }

  /** Changes to agent a's counter by threads other than t among moves i..j. */
  function OthersChanges(states: seq<State>, moves: seq<Move>, t: nat, a: string, i: nat, j: nat): nat
    requires i <= j <= |moves| <= |states|
  {
    if i == j then 0
    else OthersChanges(states, moves, t, a, i, j - 1)
         + (if moves[j - 1].tid != t && Changes(states[j - 1], moves[j - 1], a) then 1 else 0)
  }

  /** CAS attempts of thread t among moves i..j. */
  function Attempts(moves: seq<Move>, t: nat, i: nat, j: nat): nat
    requires i <= j <= |moves|
  {
    if i == j then 0 else Attempts(moves, t, i, j - 1) + (if moves[j - 1] == Move(t, Swap) then 1 else 0)
  }

  function OwnMoves(moves: seq<Move>, t: nat, i: nat, j: nat): nat
    requires i <= j <= |moves|
  {
    if i == j then 0 else OwnMoves(moves, t, i, j - 1) + (if moves[j - 1].tid == t then 1 else 0)
  }

  /** The value thread t is about to compare against is out of date. */
  predicate Stale(s: State, t: nat) {
    t < |s.threads| && s.threads[t].Swapping? &&
    (s.threads[t].counter < |s.shared.cells| ==> s.shared.cells[s.threads[t].counter] != s.threads[t].seen)
  }

  function StaleCount(s: State, t: nat): nat {
    if Stale(s, t) then 1 else 0
  }

  /** Own moves in the current round of the retry loop, counting the lookup. */
  function RoundMoves(th: Thread): nat {
    match th case LookingUp(_, _) => 0 case Loading(_, _, _) => 1 case _ => 2
  }

  lemma RetryStep(s: State, m: Move, t: nat, a: string)
    requires Inv(s) && Enabled(s, m) && t < |s.threads|
    requires InFlight(s.threads[t], a) && InFlight(Next(s, m).threads[t], a)
    ensures (if m == Move(t, Swap) then 1 else 0) + StaleCount(Next(s, m), t)
         <= (if m.tid != t && Changes(s, m, a) then 1 else 0) + StaleCount(s, t)
    ensures (if m.tid == t then 1 else 0) + RoundMoves(s.threads[t])
         == (if m == Move(t, Swap) then 2 else 0) + RoundMoves(Next(s, m).threads[t])
  {
    assert ThreadInv(s.shared, s.threads[t]) && ThreadInv(s.shared, s.threads[m.tid]);
    if m.tid != t {
      assert Next(s, m).threads[t] == s.threads[t];
    }
  }

  /** While one AcquireStream call of thread t is in flight (every CAS so far has
      failed), its failed attempts are no more than the changes other threads made
      to that counter during the call, so the call ends after boundedly many of
      its own steps: some other operation made progress for every retry. */
  lemma {:induction false} FailuresBoundedByProgress(states: seq<State>, moves: seq<Move>, t: nat, a: string,
                                                   i: nat, j: nat)
    requires IsRun(states, moves) && Init(states[0]) && i <= j <= |moves|
    requires t < |states[i].threads| && states[i].threads[t].LookingUp?
    requires forall m :: i <= m <= j ==> t < |states[m].threads| && InFlight(states[m].threads[t], a)
    ensures Attempts(moves, t, i, j) + StaleCount(states[j], t) <= OthersChanges(states, moves, t, a, i, j)
    ensures OwnMoves(moves, t, i, j) == 2 * Attempts(moves, t, i, j) + RoundMoves(states[j].threads[t])
    ensures OwnMoves(moves, t, i, j) <= 2 * OthersChanges(states, moves, t, a, i, j) + 2
  {
    if i < j {
      FailuresBoundedByProgress(states, moves, t, a, i, j - 1);
      InitInv(states[0]);
      RunKeepsInv(states, moves, j - 1);
      RetryStep(states[j - 1], moves[j - 1], t, a);
    }
  }

  /** So the call returns within three of its own moves after the draining check
      and two more for each change of that counter by another thread. */
  lemma CallReturnsWithin(states: seq<State>, moves: seq<Move>, t: nat, a: string, i: nat, j: nat)
    requires IsRun(states, moves) && Init(states[0]) && i <= j < |moves|
    requires t < |states[i].threads| && states[i].threads[t].LookingUp?
    requires forall m :: i <= m <= j ==> t < |states[m].threads| && InFlight(states[m].threads[t], a)
    requires moves[j].tid == t && !InFlight(states[j + 1].threads[t], a)
    ensures states[j + 1].threads[t] == Idle || states[j + 1].threads[t] == Holding(a)
    ensures OwnMoves(moves, t, i, j + 1) <= 3 + 2 * OthersChanges(states, moves, t, a, i, j + 1)
  {
    FailuresBoundedByProgress(states, moves, t, a, i, j);
    assert Enabled(states[j], moves[j]) && states[j + 1] == Next(states[j], moves[j]);
  }
}
