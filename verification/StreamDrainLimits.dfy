/** When "no streams after DrainAll" fails, and exactly when it holds. */
module StreamDrainLimits {
  import opened Wrappers
  import opened StreamProtocol
  import opened StreamTheorems

  ghost predicate CanReach(s: State, s': State) {
    exists states, moves :: IsRun(states, moves) && states[0] == s && states[|moves|] == s'
  }

  lemma ReachSelf(s: State)
    ensures CanReach(s, s)
  {
    var states, moves: seq<Move> := [s], [];
    assert IsRun(states, moves) && states[0] == s && states[|moves|] == s;
  }

  lemma ReachStep(s: State, s': State, m: Move)
    requires CanReach(s, s') && Enabled(s', m)
    ensures CanReach(s, Next(s', m))
  {
    var states, moves :| IsRun(states, moves) && states[0] == s && states[|moves|] == s';
    var states', moves' := states + [Next(s', m)], moves + [m];
    assert IsRun(states', moves') && states'[0] == s && states'[|moves'|] == Next(s', m);
  }

  /** An acquirer past the draining check that asks for a positive limit. */
  predicate LateAcquirer(th: Thread) {
    (th.LookingUp? || th.Loading? || th.Swapping?) && th.limit > 0
  }

  predicate Quiet(s: State) {
    && s.shared.draining
    && forall t :: 0 <= t < |s.threads| ==>
         !s.threads[t].Holding? && !s.threads[t].Releasing? && !LateAcquirer(s.threads[t])
  }

  lemma StepKeepsQuiet(s: State, m: Move)
    requires Inv(s) && Quiet(s) && Enabled(s, m)
    ensures Quiet(Next(s, m))
  {
    var th := s.threads[m.tid];
    assert ThreadInv(s.shared, th);
    if m.step.Swap? {
      assert s.shared.cells[th.counter] == |Holders(s.threads, th.agent)|;
    }
  }

  lemma {:induction false} RunKeepsQuiet(states: seq<State>, moves: seq<Move>, k: nat)
    requires IsRun(states, moves) && Inv(states[0]) && Quiet(states[0]) && k <= |moves|
    ensures Quiet(states[k])
  {
    if k > 0 {
      RunKeepsQuiet(states, moves, k - 1);
      RunKeepsInv(states, moves, k - 1);
      StepKeepsQuiet(states[k - 1], moves[k - 1]);
    }
  }

  /** A scan in progress can always be brought to its end, freeing the mutex. */
  lemma {:induction false} FinishScan(s0: State, s: State, todo: set<string>) returns (s': State)
    requires CanReach(s0, s) && Inv(s)
    requires s.shared.scanner.Some? ==> s.threads[s.shared.scanner.value].todo == todo
    ensures CanReach(s0, s') && Inv(s') && s'.shared == s.shared.(scanner := None)
    ensures |s'.threads| == |s.threads|
    ensures forall t :: 0 <= t < |s.threads| && !s.threads[t].Scanning? ==> s'.threads[t] == s.threads[t]
    ensures forall t :: 0 <= t < |s.threads| && s.threads[t].Scanning? ==>
      s'.threads[t].Idle? || s'.threads[t].Polling?
    decreases |todo|, s.shared.scanner.Some?
  {
    if s.shared.scanner.None? {
      return s;
    }
    var d := s.shared.scanner.value;
    assert ThreadInv(s.shared, s.threads[d]);
    var m;
    if todo == {} {
      m := Move(d, EndScan);
    } else {
      var a :| a in todo;
      m := Move(d, ReadCounter(a));
    }
    ReachStep(s0, s, m);
    StepKeepsInv(s, m);
    if todo == {} {
      s' := Next(s, m);
    } else {
      s' := FinishScan(s0, Next(s, m), todo - {m.step.agent});
    }
  }

  /** Steps thread t still needs, run on its own, before its successful CAS. */
  function RoundsLeft(s: State, t: nat): nat
    requires t < |s.threads|
  {
    match s.threads[t]
    case LookingUp(_, _) => 2
    case Loading(_, _, _) => 1
    case _ => if Stale(s, t) then 2 else 0
  }

  /** Left alone, a late acquirer gets its slot. */
  lemma {:induction false} LateAcquirerGetsSlot(s0: State, s: State, t: nat) returns (s': State)
    requires CanReach(s0, s) && Inv(s) && t < |s.threads| && LateAcquirer(s.threads[t])
    requires s.shared.scanner == None && Holders(s.threads, s.threads[t].agent) == {}
    ensures CanReach(s0, s') && t < |s'.threads| && s'.threads[t].Holding?
    decreases RoundsLeft(s, t)
  {
    var th := s.threads[t];
    assert ThreadInv(s.shared, th);
    var m := Move(t, match th case LookingUp(_, _) => Lookup case Loading(_, _, _) => Load case _ => Swap);
    ReachStep(s0, s, m);
    StepKeepsInv(s, m);
    s' := Next(s, m);
    assert s'.threads[t] == ThreadAfter(s.shared, th, m.step);
    if RoundsLeft(s, t) > 0 {
      HoldersAfter(s.threads, t, s'.threads[t], th.agent);
      s' := LateAcquirerGetsSlot(s0, s', t);
    }
  }

  ghost predicate StreamsCanAppear(s: State) {
    exists s' :: CanReach(s, s') && ActiveThreads(s') != {}
  }

  /** Once draining, some interleaving still shows an active stream if and only
      if a stream is active now or an acquirer with a positive limit is in flight
      past the draining check. */
  lemma StreamsAppearExactlyWhen(s: State)
    requires Inv(s) && s.shared.draining
    ensures StreamsCanAppear(s) <==>
      ActiveThreads(s) != {} || exists t :: 0 <= t < |s.threads| && LateAcquirer(s.threads[t])
  {
    ReachSelf(s);
    if ActiveThreads(s) != {} {
    } else if t :| 0 <= t < |s.threads| && LateAcquirer(s.threads[t]) {
      var free := FinishScan(s, s, if s.shared.scanner.Some? then s.threads[s.shared.scanner.value].todo else {});
      assert Holders(free.threads, free.threads[t].agent) == {};
      var s' := LateAcquirerGetsSlot(s, free, t);
      assert t in ActiveThreads(s');
    } else {
      assert Quiet(s) by {
        forall t | 0 <= t < |s.threads| && (s.threads[t].Holding? || s.threads[t].Releasing?)
          ensures t in ActiveThreads(s)
        {
        }
      }
      forall s' | CanReach(s, s')
        ensures ActiveThreads(s') == {}
      {
        var states, moves :| IsRun(states, moves) && states[0] == s && states[|moves|] == s';
        RunKeepsQuiet(states, moves, |moves|);
      }
    }
  }

  /** "No streams after DrainAll" is not unconditional: an acquirer that saw the
      flag down, then a complete drain that returns nil. */
  lemma StreamAfterDrain() returns (states: seq<State>, moves: seq<Move>)
    ensures IsRun(states, moves) && Init(states[0]) && |moves| == 4
    ensures moves[1] == Move(1, BeginDrain) && moves[3].tid == 1 && ReturnsNil(states[3], moves[3])
    ensures Inv(states[4]) && StreamsCanAppear(states[4])
  {
    moves := [Move(0, BeginAcquire("a", 1)), Move(1, BeginDrain), Move(1, BeginScan), Move(1, EndScan)];
    states := [State(INITIAL, [Idle, Idle]),
               State(INITIAL, [LookingUp("a", 1), Idle]),
               State(INITIAL.(draining := true), [LookingUp("a", 1), Polling]),
               State(INITIAL.(draining := true, scanner := Some(1)), [LookingUp("a", 1), Scanning({}, 0)]),
               State(INITIAL.(draining := true), [LookingUp("a", 1), Idle])];
    assert INITIAL.counts.Keys == {};
    InitInv(states[0]);
    RunKeepsInv(states, moves, 4);
    assert LateAcquirer(states[4].threads[0]);
    StreamsAppearExactlyWhen(states[4]);
  }
}
