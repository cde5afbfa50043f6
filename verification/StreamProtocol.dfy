/** Concurrent stream slots (internal/proxy/streams.go) as an interleaved step
    machine: any number of threads, one step per atomic operation. A step of a
    thread that needs the mutex is disabled while a drain scan holds it. */
module StreamProtocol {
  import opened Wrappers

  /** Where a thread stands inside AcquireStream, ReleaseStream or DrainAll. */
  datatype Thread =
    | Idle
    | LookingUp(agent: string, limit: int)                          // saw draining == false
    | Loading(agent: string, limit: int, counter: nat)              // top of the CAS loop
    | Swapping(agent: string, limit: int, counter: nat, seen: int)  // about to CAS seen -> seen + 1
    | Holding(agent: string)                                        // AcquireStream returned true
    | Releasing(agent: string, counter: nat)                        // about to add -1
    | Polling                                                       // DrainAll between scans
    | Scanning(todo: set<string>, total: int)                       // totalStreams, holding the mutex

  datatype Step =
    | BeginAcquire(agent: string, limit: int)
    | Lookup
    | Load
    | Swap
    | BeginRelease
    | Add
    | BeginDrain
    | BeginScan
    | ReadCounter(agent: string)
    | EndScan
    | GiveUp

  datatype Move = Move(tid: nat, step: Step)

  /** The manager's fields: `counts` maps an agent to its counter, `cells` holds
      the counters' values, `scanner` is the thread whose scan holds the mutex. */
  datatype Shared = Shared(counts: map<string, nat>, cells: seq<int>, draining: bool, scanner: Option<nat>)

  datatype State = State(shared: Shared, threads: seq<Thread>)

  const INITIAL := Shared(map[], [], false, None)

  predicate Init(s: State) {
    s.shared == INITIAL && forall t :: 0 <= t < |s.threads| ==> s.threads[t] == Idle
  }

  // What one thread can do to the shared fields.

  predicate CanAct(sh: Shared, th: Thread, step: Step) {
    match step
    case BeginAcquire(_, _) => th.Idle?
    case Lookup => th.LookingUp? && sh.scanner.None?
    case Load => th.Loading? && th.counter < |sh.cells|
    case Swap => th.Swapping? && th.counter < |sh.cells|
    case BeginRelease => th.Holding? && sh.scanner.None?
    case Add => th.Releasing? && th.counter < |sh.cells|
    case BeginDrain => th.Idle?
    case BeginScan => th.Polling? && sh.scanner.None?
    case ReadCounter(a) => th.Scanning? && a in th.todo && a in sh.counts && sh.counts[a] < |sh.cells|
    case EndScan => th.Scanning? && th.todo == {}
    case GiveUp => th.Polling?
  }

  /** The counter of agent a, created at zero by its first acquirer. */
  function WithCounter(sh: Shared, a: string): Shared {
    if a in sh.counts then sh
    else sh.(counts := sh.counts[a := |sh.cells|], cells := sh.cells + [0])
  }

  function SharedAfter(sh: Shared, t: nat, th: Thread, step: Step): Shared
    requires CanAct(sh, th, step)
  {
    match step
    case Lookup => WithCounter(sh, th.agent)
    case Swap =>
      if sh.cells[th.counter] == th.seen then sh.(cells := sh.cells[th.counter := th.seen + 1]) else sh
    case Add => sh.(cells := sh.cells[th.counter := sh.cells[th.counter] - 1])
    case BeginDrain => sh.(draining := true)
    case BeginScan => sh.(scanner := Some(t))
    case EndScan => sh.(scanner := None)
    case _ => sh
  }

  function ThreadAfter(sh: Shared, th: Thread, step: Step): Thread
    requires CanAct(sh, th, step)
  {
    match step
    case BeginAcquire(a, limit) => if sh.draining then Idle else LookingUp(a, limit)
    case Lookup => Loading(th.agent, th.limit, WithCounter(sh, th.agent).counts[th.agent])
    case Load =>
      if sh.cells[th.counter] >= th.limit then Idle
      else Swapping(th.agent, th.limit, th.counter, sh.cells[th.counter])
    case Swap =>
      if sh.cells[th.counter] == th.seen then Holding(th.agent) else Loading(th.agent, th.limit, th.counter)
    case BeginRelease => if th.agent in sh.counts then Releasing(th.agent, sh.counts[th.agent]) else Idle
    case BeginDrain => Polling
    case BeginScan => Scanning(sh.counts.Keys, 0)
    case ReadCounter(a) => Scanning(th.todo - {a}, th.total + sh.cells[sh.counts[a]])
    case EndScan => if th.total == 0 then Idle else Polling
    case _ => Idle
  }

  predicate Enabled(s: State, m: Move) {
    m.tid < |s.threads| && CanAct(s.shared, s.threads[m.tid], m.step)
  }

  function Next(s: State, m: Move): State
    requires Enabled(s, m)
  {
    var th := s.threads[m.tid];
    State(SharedAfter(s.shared, m.tid, th, m.step), s.threads[m.tid := ThreadAfter(s.shared, th, m.step)])
  }

  /** The thread is inside AcquireStream, past the draining check. */
  predicate InFlight(th: Thread, a: string) {
    (th.LookingUp? || th.Loading? || th.Swapping?) && th.agent == a
  }

  /** The thread owns a stream slot of agent a. */
  predicate Active(th: Thread, a: string) {
    (th.Holding? || th.Releasing?) && th.agent == a
  }

  function Holders(threads: seq<Thread>, a: string): set<nat> {
    set t: nat | t < |threads| && Active(threads[t], a)
  }

  /** Distinct agents have distinct counters. */
  predicate SharedInv(sh: Shared) {
    && (forall a :: a in sh.counts ==> sh.counts[a] < |sh.cells|)
    && (forall a, b :: a in sh.counts && b in sh.counts && a != b ==> sh.counts[a] != sh.counts[b])
  }

  /** Every thread uses its own agent's counter. */
  predicate ThreadInv(sh: Shared, th: Thread) {
    && (th.Loading? || th.Swapping? || th.Releasing? ==> th.agent in sh.counts && th.counter == sh.counts[th.agent])
    && (th.Swapping? ==> th.seen < th.limit)
    && (th.Holding? ==> th.agent in sh.counts)
    && (th.Scanning? ==> th.total >= 0 && th.todo <= sh.counts.Keys)
  }

  /** The invariant of every interleaving. In particular a counter's value is
      the number of slots held, never more and never less. */
  predicate Inv(s: State) {
    && SharedInv(s.shared)
    && (forall t :: 0 <= t < |s.threads| ==> ThreadInv(s.shared, s.threads[t]))
    && (s.shared.scanner.Some? ==> s.shared.scanner.value < |s.threads|)
    && (forall t :: 0 <= t < |s.threads| ==> (s.threads[t].Scanning? <==> s.shared.scanner == Some(t)))
    && (forall a :: a in s.shared.counts ==> s.shared.cells[s.shared.counts[a]] == |Holders(s.threads, a)|)
  }

  /** Counters are created, never replaced. */
  predicate Extends(sh: Shared, sh': Shared) {
    && |sh.cells| <= |sh'.cells|
    && forall a :: a in sh.counts ==> a in sh'.counts && sh'.counts[a] == sh.counts[a]
  }

  lemma ActKeepsShared(sh: Shared, t: nat, th: Thread, step: Step)
    requires SharedInv(sh) && CanAct(sh, th, step)
    ensures SharedInv(SharedAfter(sh, t, th, step)) && Extends(sh, SharedAfter(sh, t, th, step))
  {
  }

  lemma ActKeepsThread(sh: Shared, t: nat, th: Thread, step: Step)
    requires SharedInv(sh) && ThreadInv(sh, th) && CanAct(sh, th, step)
    requires step.ReadCounter? ==> sh.cells[sh.counts[step.agent]] >= 0
    ensures ThreadInv(SharedAfter(sh, t, th, step), ThreadAfter(sh, th, step))
  {
  }

  /** One step moves one agent's counter by the change in that agent's slots. */
  lemma ActMovesOneSlot(sh: Shared, t: nat, th: Thread, step: Step, a: string)
    requires SharedInv(sh) && ThreadInv(sh, th) && CanAct(sh, th, step)
    requires SharedInv(SharedAfter(sh, t, th, step))
    requires a in SharedAfter(sh, t, th, step).counts
    ensures var sh' := SharedAfter(sh, t, th, step);
      var before, after := if Active(th, a) then 1 else 0, if Active(ThreadAfter(sh, th, step), a) then 1 else 0;
      sh'.cells[sh'.counts[a]] == (if a in sh.counts then sh.cells[sh.counts[a]] else 0) + after - before
  {
  }

  lemma HoldersAfter(threads: seq<Thread>, t: nat, th: Thread, a: string)
    requires t < |threads|
    ensures var before, after := if Active(threads[t], a) then 1 else 0, if Active(th, a) then 1 else 0;
      |Holders(threads[t := th], a)| == |Holders(threads, a)| + after - before
  {
    var h, h' := Holders(threads, a), Holders(threads[t := th], a);
    assert h - {t} == h' - {t};
    assert h == (if Active(threads[t], a) then (h - {t}) + {t} else h - {t});
    assert h' == (if Active(th, a) then (h' - {t}) + {t} else h' - {t});
  }

  lemma NoCounterNoHolders(s: State, a: string)
    requires forall t :: 0 <= t < |s.threads| ==> ThreadInv(s.shared, s.threads[t])
    requires a !in s.shared.counts
    ensures Holders(s.threads, a) == {}
  {
  }

  /** Every atomic step of every thread keeps the invariant. */
  lemma StepKeepsInv(s: State, m: Move)
    requires Inv(s) && Enabled(s, m)
    ensures Inv(Next(s, m)) && Extends(s.shared, Next(s, m).shared)
  {
    var s', th := Next(s, m), s.threads[m.tid];
    ActKeepsShared(s.shared, m.tid, th, m.step);
    ActKeepsThread(s.shared, m.tid, th, m.step);
    forall a | a in s'.shared.counts
      ensures s'.shared.cells[s'.shared.counts[a]] == |Holders(s'.threads, a)|
    {
      ActMovesOneSlot(s.shared, m.tid, th, m.step, a);
      HoldersAfter(s.threads, m.tid, s'.threads[m.tid], a);
      if a !in s.shared.counts {
        NoCounterNoHolders(s, a);
      }
    }
  }
}
