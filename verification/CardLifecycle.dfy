/** Polling, change policies and approvals (internal/agentcard/manager.go,
    poller.go, change.go, pending.go). Each locked section is one step, so
    ApproveCardChange is two, and polls, rejections and other approvals can come
    between them. A poll's fetch is an arbitrary result. */
module CardLifecycle {
  import opened Wrappers
  import opened AgentCards

  datatype AgentState = AgentState(changePolicy: string, card: Option<Card>, healthy: bool)

  datatype PendingChange = PendingChange(agentName: string, oldCard: Card, newCard: Card,
                                         changes: seq<Change>, status: string)

  type Agents = map<string, AgentState>
  type Pending = map<string, PendingChange>

  /** What a policy does with a detected change: the served card, and the
      change to put up for approval if any. */
  function HandleCardChange(name: string, st: AgentState, newCard: Card, changes: seq<Change>):
      (Option<Card>, Option<PendingChange>)
    requires st.card.Some?
  {
    if st.changePolicy == "auto" then (Some(newCard), None)
    else if st.changePolicy == "approve" then
      (st.card, Some(PendingChange(name, st.card.value, newCard, changes, "pending")))
    else (st.card, None)
  }

  /** The locked section of a poll: the agent's new state and a change to add. */
  function FetchedAndUpdated(name: string, st: AgentState, fetched: Option<Card>): (AgentState, Option<PendingChange>) {
    if fetched.None? then (st.(healthy := false), None)
    else if st.card.None? then (st.(card := fetched, healthy := true), None)
    else
      var changes := DetectChanges(st.card, fetched);
      if changes == [] then (st.(healthy := true), None)
      else
        var (card, change) := HandleCardChange(name, st, fetched.value, changes);
        (st.(card := card, healthy := true), change)
  }

  function Polled(agents: Agents, pending: Pending, name: string, fetched: Option<Card>): (Agents, Pending)
    requires name in agents
  {
    var (st, change) := FetchedAndUpdated(name, agents[name], fetched);
    (agents[name := st], if change.Some? then pending[name := change.value] else pending)
  }

  function Approved(agents: Agents, name: string, change: PendingChange): Agents {
    if name in agents then agents[name := agents[name].(card := Some(change.newCard))] else agents
  }

  class PendingStore {
    var pending: Pending

    constructor ()
      ensures pending == map[]
    {
      pending := map[];
    }

    method Add(change: PendingChange)
      modifies this
      ensures pending == old(pending)[change.agentName := change]
    {
      pending := pending[change.agentName := change];
    }

    /** Removes the change and hands it over, marked approved. */
    method Approve(agentName: string) returns (change: Option<PendingChange>)
      modifies this
      ensures pending == old(pending) - {agentName}
      ensures change == if agentName in old(pending) then Some(old(pending)[agentName].(status := "approved")) else None
    {
      if agentName !in pending {
        return None;
      }
      change := Some(pending[agentName].(status := "approved"));
      pending := pending - {agentName};
    }

    method Reject(agentName: string) returns (ok: bool)
      modifies this
      ensures pending == old(pending) - {agentName} && (ok <==> agentName in old(pending))
    {
      if agentName !in pending {
        return false;
      }
      pending := pending - {agentName};
      ok := true;
    }

    /** All pending changes, in any order. */
    method List() returns (result: seq<PendingChange>)
      ensures |result| == |pending|
      ensures forall c :: c in result <==> exists a :: a in pending && pending[a] == c
    {
      result := [];
      var todo := pending.Keys;
      while todo != {}
        invariant todo <= pending.Keys && |result| + |todo| == |pending|
        invariant forall c :: c in result <==> exists a :: a in pending && a !in todo && pending[a] == c
        decreases todo
      {
        var a :| a in todo;
        result := result + [pending[a]];
        todo := todo - {a};
      }
    }

    method Get(agentName: string) returns (change: Option<PendingChange>)
      ensures change == if agentName in pending then Some(pending[agentName]) else None
    {
      if agentName !in pending {
        return None;
      }
      change := Some(pending[agentName]);
    }
  }

  class Manager {
    var agents: Agents
    const pendingStore: PendingStore

    /** One state per configured agent and its policy, without a card yet. */
    constructor (policies: map<string, string>)
      ensures fresh(pendingStore) && pendingStore.pending == map[]
      ensures agents == map a | a in policies :: AgentState(policies[a], None, false)
    {
      agents := map a | a in policies :: AgentState(policies[a], None, false);
      pendingStore := new PendingStore();
    }

    method FetchAndUpdate(name: string, fetched: Option<Card>)
      requires name in agents
      modifies this, pendingStore
      ensures (agents, pendingStore.pending) == Polled(old(agents), old(pendingStore.pending), name, fetched)
    {
      var st := agents[name];
      if fetched.None? {
        agents := agents[name := st.(healthy := false)];
        return;
      }
      if st.card.None? {
        agents := agents[name := st.(card := fetched, healthy := true)];
        return;
      }
      var changes := DetectChanges(st.card, fetched);
      if |changes| > 0 {
        if st.changePolicy == "auto" {
          st := st.(card := fetched);
        } else if st.changePolicy == "approve" {
          pendingStore.Add(PendingChange(name, st.card.value, fetched.value, changes, "pending"));
        }
      }
      agents := agents[name := st.(healthy := true)];
    }

    /** The second locked section of ApproveCardChange. */
    method ApplyApproved(agentName: string, change: PendingChange)
      modifies this
      ensures agents == Approved(old(agents), agentName, change)
    {
      if agentName in agents {
        agents := agents[agentName := agents[agentName].(card := Some(change.newCard))];
      }
    }

    /** Both sections with nothing in between. */
    method ApproveCardChange(agentName: string) returns (ok: bool)
      modifies this, pendingStore
      ensures ok <==> agentName in old(pendingStore.pending)
      ensures pendingStore.pending == old(pendingStore.pending) - {agentName}
      ensures agents == if ok then Approved(old(agents), agentName, old(pendingStore.pending)[agentName])
        else old(agents)
    {
      var change := pendingStore.Approve(agentName);
      if change.None? {
        return false;
      }
      ApplyApproved(agentName, change.value);
      ok := true;
    }

    method RejectCardChange(agentName: string) returns (ok: bool)
      modifies pendingStore
      ensures pendingStore.pending == old(pendingStore.pending) - {agentName}
      ensures ok <==> agentName in old(pendingStore.pending)
    {
      ok := pendingStore.Reject(agentName);
    }
  }

  // Interleavings.

  /** `approving`: the changes taken out by threads now between the two halves
      of ApproveCardChange; each carries the name it was stored under. */
  datatype State = State(agents: Agents, pending: Pending, approving: map<nat, PendingChange>)

  datatype Step =
    | Poll(agent: string, fetched: Option<Card>)
    | TakeApproval(tid: nat, agent: string)
    | ApplyApproval(tid: nat)
    | Reject(agent: string)

  predicate Enabled(s: State, step: Step) {
    match step
    case Poll(a, _) => a in s.agents
    case TakeApproval(tid, _) => tid !in s.approving
    case ApplyApproval(tid) => tid in s.approving
    case Reject(_) => true
  }

  function Next(s: State, step: Step): State
    requires Enabled(s, step)
  {
    match step
    case Poll(a, fetched) =>
      var (agents, pending) := Polled(s.agents, s.pending, a, fetched);
      s.(agents := agents, pending := pending)
    case TakeApproval(tid, a) =>
      if a in s.pending then
        s.(pending := s.pending - {a}, approving := s.approving[tid := s.pending[a].(status := "approved")])
      else s
    case ApplyApproval(tid) =>
      s.(agents := Approved(s.agents, s.approving[tid].agentName, s.approving[tid]), approving := s.approving - {tid})
    case Reject(a) => s.(pending := s.pending - {a})
  }

  predicate Init(s: State) {
    && s.pending == map[] && s.approving == map[]
    && forall a :: a in s.agents ==> s.agents[a].card == None && !s.agents[a].healthy
  }

  ghost predicate IsRun(states: seq<State>, steps: seq<Step>) {
    && |states| == |steps| + 1 && Init(states[0])
    && forall i {:trigger steps[i]} :: 0 <= i < |steps| ==>
         Enabled(states[i], steps[i]) && states[i + 1] == Next(states[i], steps[i])
  }

  /** Only agents under the approve policy have changes pending or being applied. */
  predicate Inv(s: State) {
    && (forall a :: a in s.pending ==> s.pending[a].agentName == a && NeedsApproval(s, a))
    && (forall t :: t in s.approving ==> NeedsApproval(s, s.approving[t].agentName))
    && (forall a :: a in s.agents && s.agents[a].healthy ==> s.agents[a].card.Some?)
  }

  predicate NeedsApproval(s: State, a: string) {
    a in s.agents && s.agents[a].changePolicy == "approve"
  }

  /** A step changes no policy, and takes no agent's card away. */
  predicate KeepsAgents(s: State, s': State) {
    s'.agents.Keys == s.agents.Keys &&
    forall a :: a in s.agents ==>
      s'.agents[a].changePolicy == s.agents[a].changePolicy && (s.agents[a].card.Some? ==> s'.agents[a].card.Some?)
  }

  lemma StepKeepsInv(s: State, step: Step)
    requires Inv(s) && Enabled(s, step)
    ensures Inv(Next(s, step)) && KeepsAgents(s, Next(s, step))
  {
  }

  lemma {:induction false} RunKeepsInv(states: seq<State>, steps: seq<Step>, k: nat)
    requires IsRun(states, steps) && k <= |steps|
    ensures Inv(states[k])
  {
    if k > 0 {
      RunKeepsInv(states, steps, k - 1);
      StepKeepsInv(states[k - 1], steps[k - 1]);
    }
  }

  /** In every interleaving: agents that are not under the approve policy never
      have a change pending, and a healthy agent has a card. */
  lemma OnlyApproveAgentsPend(states: seq<State>, steps: seq<Step>, k: nat, a: string)
    requires IsRun(states, steps) && k <= |steps| && a in states[k].agents
    ensures a in states[k].pending ==> states[k].agents[a].changePolicy == "approve"
    ensures states[k].agents[a].healthy ==> states[k].agents[a].card.Some?
  {
    RunKeepsInv(states, steps, k);
  }

  lemma {:induction false} CardStays(states: seq<State>, steps: seq<Step>, i: nat, k: nat, a: string)
    requires IsRun(states, steps) && i <= k <= |steps| && a in states[i].agents
    ensures a in states[k].agents && states[k].agents[a].changePolicy == states[i].agents[a].changePolicy
    ensures states[i].agents[a].card.Some? ==> states[k].agents[a].card.Some?
  {
    if i < k {
      CardStays(states, steps, i, k - 1, a);
      RunKeepsInv(states, steps, k - 1);
      StepKeepsInv(states[k - 1], steps[k - 1]);
    }
  }

  /** Under alert, and under any policy the code does not know, the first fetched
      card is served for ever. */
  lemma {:induction false} AlertNeverChangesCard(states: seq<State>, steps: seq<Step>, i: nat, k: nat, a: string)
    requires IsRun(states, steps) && i <= k <= |steps| && a in states[i].agents && states[i].agents[a].card.Some?
    requires states[i].agents[a].changePolicy != "auto" && states[i].agents[a].changePolicy != "approve"
    ensures a in states[k].agents && states[k].agents[a].card == states[i].agents[a].card
  {
    CardStays(states, steps, i, k, a);
    if i < k {
      AlertNeverChangesCard(states, steps, i, k - 1, a);
      CardStays(states, steps, i, k - 1, a);
      RunKeepsInv(states, steps, k - 1);
      StepKeepsInv(states[k - 1], steps[k - 1]);
    }
  }

  function FirstFetched(steps: seq<Step>, a: string, k: nat): Option<Card>
    requires k <= |steps|
  {
    if k == 0 then None
    else
      var earlier := FirstFetched(steps, a, k - 1);
      if earlier == None && steps[k - 1].Poll? && steps[k - 1].agent == a then steps[k - 1].fetched else earlier
  }

  /** And that first card is served from the first successful poll on. */
  lemma {:induction false} AlertServesFirstFetched(states: seq<State>, steps: seq<Step>, k: nat, a: string)
    requires IsRun(states, steps) && k <= |steps| && a in states[k].agents
    requires states[k].agents[a].changePolicy != "auto" && states[k].agents[a].changePolicy != "approve"
    ensures states[k].agents[a].card == FirstFetched(steps, a, k)
  {
    if k > 0 {
      RunKeepsInv(states, steps, k - 1);
      StepKeepsInv(states[k - 1], steps[k - 1]);
      AlertServesFirstFetched(states, steps, k - 1, a);
    }
  }

  /** The result of agent a's last poll, if any, and its last fetched card. */
  function LastPoll(steps: seq<Step>, a: string, k: nat): Option<Option<Card>>
    requires k <= |steps|
  {
    if k == 0 then None
    else if steps[k - 1].Poll? && steps[k - 1].agent == a then Some(steps[k - 1].fetched)
    else LastPoll(steps, a, k - 1)
  }

  function LastFetched(steps: seq<Step>, a: string, k: nat): Option<Card>
    requires k <= |steps|
  {
    if k == 0 then None
    else if steps[k - 1].Poll? && steps[k - 1].agent == a && steps[k - 1].fetched.Some? then steps[k - 1].fetched
    else LastFetched(steps, a, k - 1)
  }

  /** An agent is healthy exactly when its last poll fetched a card, and has a
      card exactly when some poll did. */
  lemma {:induction false} HealthFollowsPolls(states: seq<State>, steps: seq<Step>, k: nat, a: string)
    requires IsRun(states, steps) && k <= |steps| && a in states[k].agents
    ensures states[k].agents[a].healthy <==> LastPoll(steps, a, k).Some? && LastPoll(steps, a, k).value.Some?
    ensures states[k].agents[a].card.Some? <==> LastFetched(steps, a, k).Some?
  {
    if k > 0 {
      RunKeepsInv(states, steps, k - 1);
      StepKeepsInv(states[k - 1], steps[k - 1]);
      HealthFollowsPolls(states, steps, k - 1, a);
      if steps[k - 1].ApplyApproval? && states[k - 1].approving[steps[k - 1].tid].agentName == a {
        ApprovingHasCard(states, steps, k - 1, steps[k - 1].tid);
      }
    }
  }

  /** Changes are only ever recorded for agents that have a card. */
  lemma {:induction false} ApprovingHasCard(states: seq<State>, steps: seq<Step>, k: nat, t: nat)
    requires IsRun(states, steps) && k <= |steps|
    ensures forall a :: a in states[k].pending ==> a in states[k].agents && states[k].agents[a].card.Some?
    ensures t in states[k].approving ==>
      var a := states[k].approving[t].agentName; a in states[k].agents && states[k].agents[a].card.Some?
  {
    if k > 0 {
      ApprovingHasCard(states, steps, k - 1, t);
      RunKeepsInv(states, steps, k - 1);
      StepKeepsInv(states[k - 1], steps[k - 1]);
    }
  }

  /** Under auto the served card always agrees with the last fetched one on
      everything that change detection watches. */
  lemma {:induction false} AutoServesLastFetched(states: seq<State>, steps: seq<Step>, k: nat, a: string)
    requires IsRun(states, steps) && k <= |steps| && a in states[k].agents && states[k].agents[a].changePolicy == "auto"
    ensures states[k].agents[a].card.Some? <==> LastFetched(steps, a, k).Some?
    ensures states[k].agents[a].card.Some? ==>
      WatchedPart(states[k].agents[a].card.value) == WatchedPart(LastFetched(steps, a, k).value)
  {
    if k > 0 {
      var s, step := states[k - 1], steps[k - 1];
      RunKeepsInv(states, steps, k - 1);
      StepKeepsInv(s, step);
      AutoServesLastFetched(states, steps, k - 1, a);
      if step.Poll? && step.agent == a && step.fetched.Some? && s.agents[a].card.Some? {
        UnchangedIsWatchedEquality(s.agents[a].card.value, step.fetched.value);
      }
    }
  }

  /** And it is a card fetched from that agent, whole, with which every one
      fetched since agrees on all that is watched. */
  lemma {:induction false} AutoServesFetchedCard(states: seq<State>, steps: seq<Step>, k: nat, a: string)
      returns (i: nat)
    requires IsRun(states, steps) && k <= |steps| && a in states[k].agents && states[k].agents[a].changePolicy == "auto"
    requires states[k].agents[a].card.Some?
    ensures i < k && steps[i] == Poll(a, states[k].agents[a].card)
    ensures forall m :: i < m < k && steps[m].Poll? && steps[m].agent == a && steps[m].fetched.Some? ==>
      WatchedPart(steps[m].fetched.value) == WatchedPart(states[k].agents[a].card.value)
  {
    var s, step := states[k - 1], steps[k - 1];
    RunKeepsInv(states, steps, k - 1);
    StepKeepsInv(s, step);
    if step.Poll? && step.agent == a && step.fetched.Some? && s.agents[a].card.Some? {
      UnchangedIsWatchedEquality(s.agents[a].card.value, step.fetched.value);
    }
    if step == Poll(a, states[k].agents[a].card) {
      i := k - 1;
    } else {
      i := AutoServesFetchedCard(states, steps, k - 1, a);
    }
  }

  // Where an approve agent's card comes from.

  /** Step r polled agent a, fetched the card c, and put it up as `entry`. */
  predicate ProposedAt(states: seq<State>, steps: seq<Step>, r: nat, a: string, entry: PendingChange)
    requires |states| == |steps| + 1 && r < |steps|
  {
    && steps[r] == Poll(a, Some(entry.newCard)) && entry.agentName == a && entry.status == "pending"
    && a in states[r].agents && states[r].agents[a].card == Some(entry.oldCard)
    && entry.changes == DetectChanges(Some(entry.oldCard), Some(entry.newCard)) && entry.changes != []
  }

  /** A step leaves an agent's pending entry alone, or is the poll that proposes it. */
  lemma PendingStep(s: State, step: Step, a: string)
    requires Enabled(s, step) && a in Next(s, step).pending
    ensures
      || (a in s.pending && Next(s, step).pending[a] == s.pending[a])
      || (step.Poll? && step.agent == a && step.fetched.Some? && s.agents[a].card.Some?
          && var changes := DetectChanges(s.agents[a].card, step.fetched);
             changes != [] && Next(s, step).pending[a]
               == PendingChange(a, s.agents[a].card.value, step.fetched.value, changes, "pending"))
  {
  }

  /** A pending entry was proposed by a poll of its own agent and has been
      pending, untouched, ever since. */
  lemma {:induction false} PendingOrigin(states: seq<State>, steps: seq<Step>, k: nat, a: string) returns (r: nat)
    requires IsRun(states, steps) && k <= |steps| && a in states[k].pending
    ensures r < k && ProposedAt(states, steps, r, a, states[k].pending[a])
    ensures forall m :: r < m <= k ==> a in states[m].pending && states[m].pending[a] == states[k].pending[a]
  {
    if k > 0 {
      PendingStep(states[k - 1], steps[k - 1], a);
      if a in states[k - 1].pending && states[k - 1].pending[a] == states[k].pending[a] {
        r := PendingOrigin(states, steps, k - 1, a);
      } else {
        r := k - 1;
      }
    }
  }

  /** The step polls a card for agent a that differs from the one served in
      something watched. */
  predicate Detects(s: State, step: Step, a: string) {
    && step.Poll? && step.agent == a && step.fetched.Some? && a in s.agents && s.agents[a].card.Some?
    && WatchedPart(s.agents[a].card.value) != WatchedPart(step.fetched.value)
  }

  /** The step approves or rejects for agent a, which empties its place in the store. */
  predicate Clears(step: Step, a: string) {
    (step.TakeApproval? || step.Reject?) && step.agent == a
  }

  /** Step i was the last to detect a change of agent a, and none cleared it since. */
  ghost predicate DetectedLast(states: seq<State>, steps: seq<Step>, a: string, i: nat, k: nat)
    requires |states| == |steps| + 1 && k <= |steps|
  {
    && i < k && Detects(states[i], steps[i], a)
    && forall m {:trigger steps[m]} :: i < m < k ==> !Detects(states[m], steps[m], a) && !Clears(steps[m], a)
  }

  /** What a step leaves pending for an approve agent: a detected change always,
      replacing an older one; nothing when cleared; else what was there. */
  lemma PendingAfter(s: State, step: Step, a: string)
    requires Inv(s) && Enabled(s, step) && NeedsApproval(s, a)
    ensures var pending := Next(s, step).pending;
      if Detects(s, step, a) then
        a in pending && pending[a].newCard == step.fetched.value && pending[a].oldCard == s.agents[a].card.value
      else if Clears(step, a) then a !in pending
      else (a in pending <==> a in s.pending) && (a in pending ==> pending[a] == s.pending[a])
  {
    if step.Poll? && step.agent == a && step.fetched.Some? && s.agents[a].card.Some? {
      UnchangedIsWatchedEquality(s.agents[a].card.value, step.fetched.value);
    }
  }

  /** The agent's change in the store is the one detected last, if any. */
  ghost predicate PendingIsLatest(states: seq<State>, steps: seq<Step>, k: nat, a: string)
    requires |states| == |steps| + 1 && k <= |steps|
  {
    && (a in states[k].pending <==> exists i: nat :: DetectedLast(states, steps, a, i, k))
    && forall i: nat :: DetectedLast(states, steps, a, i, k) ==>
         a in states[k].pending && states[k].pending[a].newCard == steps[i].fetched.value
         && states[k].pending[a].oldCard == states[i].agents[a].card.value
  }

  /** Every detected change gets in and stays until it is cleared or replaced: in
      every interleaving an approve agent has a change pending exactly when a poll
      detected one and none cleared it since, and it is that of the latest such poll. */
  lemma {:induction false} PendingExactlyWhen(states: seq<State>, steps: seq<Step>, k: nat, a: string)
    requires IsRun(states, steps) && k <= |steps| && NeedsApproval(states[k], a)
    ensures PendingIsLatest(states, steps, k, a)
  {
    if k > 0 {
      var before := k - 1;
      RunKeepsInv(states, steps, before);
      StepKeepsInv(states[before], steps[before]);
      PendingExactlyWhen(states, steps, before, a);
      PendingStaysLatest(states, steps, before, a);
    }
  }

  lemma PendingStaysLatest(states: seq<State>, steps: seq<Step>, k: nat, a: string)
    requires |states| == |steps| + 1 && k < |steps| && Inv(states[k]) && NeedsApproval(states[k], a)
    requires Enabled(states[k], steps[k]) && states[k + 1] == Next(states[k], steps[k])
    requires PendingIsLatest(states, steps, k, a)
    ensures PendingIsLatest(states, steps, k + 1, a)
  {
    PendingAfter(states[k], steps[k], a);
    DetectedLastNext(states, steps, a, k);
    if Detects(states[k], steps[k], a) {
      assert DetectedLast(states, steps, a, k, k + 1);
    }
  }

  lemma DetectedLastNext(states: seq<State>, steps: seq<Step>, a: string, k: nat)
    requires |states| == |steps| + 1 && k < |steps|
    ensures forall i: nat :: DetectedLast(states, steps, a, i, k + 1) <==>
      if Detects(states[k], steps[k], a) then i == k
      else DetectedLast(states, steps, a, i, k) && !Clears(steps[k], a)
  {
    var s, step := states[k], steps[k];
    forall i: nat
      ensures DetectedLast(states, steps, a, i, k + 1) <==>
        if Detects(s, step, a) then i == k else DetectedLast(states, steps, a, i, k) && !Clears(step, a)
    {
      if DetectedLast(states, steps, a, i, k + 1) && i < k {
        assert !Detects(states[k], steps[k], a) && !Clears(steps[k], a);
      }
    }
  }

  /** A change being applied was taken out of the store by that very thread. */
  lemma {:induction false} ApprovingOrigin(states: seq<State>, steps: seq<Step>, k: nat, t: nat) returns (p: nat)
    requires IsRun(states, steps) && k <= |steps| && t in states[k].approving
    ensures var a := states[k].approving[t].agentName;
      && p < k && steps[p] == TakeApproval(t, a) && a in states[p].pending
      && states[k].approving[t] == states[p].pending[a].(status := "approved")
    ensures forall m :: p < m <= k ==> t in states[m].approving && states[m].approving[t] == states[k].approving[t]
  {
    if k > 0 {
      var step := steps[k - 1];
      RunKeepsInv(states, steps, k - 1);
      if step.TakeApproval? && step.tid == t {
        p := k - 1;
      } else {
        p := ApprovingOrigin(states, steps, k - 1, t);
      }
    }
  }

  /** Where a served card comes from: the agent's first fetch at step `at`, or a
      proposal made at step `proposed`, taken out by an approval at step `taken`
      and served since that approval's second half at step `applied`. */
  datatype Origin = FirstFetch(at: nat) | Approval(proposed: nat, taken: nat, applied: nat)

  ghost predicate ComesFrom(states: seq<State>, steps: seq<Step>, k: nat, a: string, card: Card, from: Origin)
    requires |states| == |steps| + 1 && k <= |steps|
  {
    match from
    case FirstFetch(i) =>
      && i < k && steps[i] == Poll(a, Some(card)) && a in states[i].agents && states[i].agents[a].card == None
      && ServedSince(states, i, k, a, card)
    case Approval(r, p, q) =>
      && r < p < q < k
      && steps[p].TakeApproval? && steps[p].agent == a && steps[q] == ApplyApproval(steps[p].tid)
      && a in states[p].pending && states[p].pending[a].newCard == card
      && ProposedAt(states, steps, r, a, states[p].pending[a])
      // the entry stays in the store from its proposal until this approval removes it
      && (forall m :: r < m <= p ==> a in states[m].pending && states[m].pending[a] == states[p].pending[a])
      && a !in states[p + 1].pending
      // and in that approval's hands until it applies it
      && (forall m :: p < m <= q ==> Carried(states[m], steps[p].tid, states[p].pending[a].(status := "approved")))
      && ServedSince(states, q, k, a, card)
  }

  /** The thread has the change between its halves of an approval. */
  predicate Carried(s: State, tid: nat, change: PendingChange) {
    tid in s.approving && s.approving[tid] == change
  }

  /** Agent a's card from after step i to state k. */
  ghost predicate ServedSince(states: seq<State>, i: nat, k: nat, a: string, card: Card)
    requires k < |states|
  {
    forall m :: i < m <= k ==> Serves(states[m], a, card)
  }

  predicate Serves(s: State, a: string, card: Card) {
    a in s.agents && s.agents[a].card == Some(card)
  }

  /** The change applied at step q, traced back to its approval and its proposal. */
  lemma AppliedOrigin(states: seq<State>, steps: seq<Step>, q: nat) returns (from: Origin)
    requires IsRun(states, steps) && q < |steps| && steps[q].ApplyApproval?
    ensures steps[q].tid in states[q].approving
    ensures var change := states[q].approving[steps[q].tid];
      ComesFrom(states, steps, q + 1, change.agentName, change.newCard, from)
  {
    var change := states[q].approving[steps[q].tid];
    var p := ApprovingOrigin(states, steps, q, steps[q].tid);
    var r := PendingOrigin(states, steps, p, change.agentName);
    assert states[p + 1] == Next(states[p], steps[p]);
    RunKeepsInv(states, steps, q);
    assert states[q + 1] == Next(states[q], steps[q]);
    from := Approval(r, p, q);
  }

  /** A step leaves an approve agent's card alone, or is its first fetch or the
      second half of an approval. */
  lemma CardStep(s: State, step: Step, a: string)
    requires Inv(s) && Enabled(s, step) && NeedsApproval(s, a)
    ensures a in Next(s, step).agents
    ensures
      || Next(s, step).agents[a].card == s.agents[a].card
      || (s.agents[a].card == None && Next(s, step).agents[a].card.Some?
          && step == Poll(a, Next(s, step).agents[a].card))
      || (step.ApplyApproval? && s.approving[step.tid].agentName == a
          && Next(s, step).agents[a].card == Some(s.approving[step.tid].newCard))
  {
  }

  /** Provenance: under approve, in every interleaving, the served card is the
      agent's first fetch or was fetched from that same agent, proposed, and
      removed from the store by exactly one approval, which then applied it. */
  lemma {:induction false} ServedCardProvenance(states: seq<State>, steps: seq<Step>, k: nat, a: string)
      returns (from: Origin)
    requires IsRun(states, steps) && k <= |steps| && a in states[k].agents
    requires states[k].agents[a].changePolicy == "approve" && states[k].agents[a].card.Some?
    ensures ComesFrom(states, steps, k, a, states[k].agents[a].card.value, from)
  {
    if k > 0 {
      var s, step := states[k - 1], steps[k - 1];
      RunKeepsInv(states, steps, k - 1);
      StepKeepsInv(s, step);
      CardStep(s, step, a);
      if states[k].agents[a].card == s.agents[a].card {
        from := ServedCardProvenance(states, steps, k - 1, a);
      } else if step.Poll? {
        from := FirstFetch(k - 1);
      } else {
        from := AppliedOrigin(states, steps, k - 1);
      }
    }
  }

  lemma Extend(states: seq<State>, steps: seq<Step>, step: Step) returns (states': seq<State>, steps': seq<Step>)
    requires IsRun(states, steps) && Enabled(states[|steps|], step)
    ensures states' == states + [Next(states[|steps|], step)] && steps' == steps + [step]
    ensures IsRun(states', steps')
  {
    states', steps' := states + [Next(states[|steps|], step)], steps + [step];
  }

  /** Two approvals of one agent in progress at once leave a card that depends on
      which applies last, exactly when they carry different cards. */
  lemma ConcurrentApprovalsRace(s: State, t: nat, u: nat)
    requires Inv(s) && t in s.approving && u in s.approving && t != u
    requires s.approving[t].agentName == s.approving[u].agentName
    ensures Enabled(s, ApplyApproval(t)) && Enabled(Next(s, ApplyApproval(t)), ApplyApproval(u))
    ensures Enabled(s, ApplyApproval(u)) && Enabled(Next(s, ApplyApproval(u)), ApplyApproval(t))
    ensures Next(Next(s, ApplyApproval(t)), ApplyApproval(u)).agents
      == Next(Next(s, ApplyApproval(u)), ApplyApproval(t)).agents
      <==> s.approving[t].newCard == s.approving[u].newCard
  {
    var a := s.approving[t].agentName;
    var tu := Next(Next(s, ApplyApproval(t)), ApplyApproval(u));
    var ut := Next(Next(s, ApplyApproval(u)), ApplyApproval(t));
    assert tu.agents[a].card == Some(s.approving[u].newCard);
    assert ut.agents[a].card == Some(s.approving[t].newCard);
    assert tu.agents == s.agents[a := s.agents[a].(card := tu.agents[a].card)];
    assert ut.agents == s.agents[a := s.agents[a].(card := ut.agents[a].card)];
  }

  /** Any run with a change pending for agent a can go on so that a newer card,
      fetched later and approved later, is overwritten by that older change. */
  lemma StaleApprovalCanWin(states: seq<State>, steps: seq<Step>, a: string, newer: Card, t: nat, u: nat)
      returns (states': seq<State>, steps': seq<Step>)
    requires IsRun(states, steps) && a in states[|steps|].pending && a in states[|steps|].agents
    requires t !in states[|steps|].approving && u !in states[|steps|].approving && t != u
    requires DetectChanges(states[|steps|].agents[a].card, Some(newer)) != []
    ensures IsRun(states', steps')
    ensures steps' == steps + [TakeApproval(t, a), Poll(a, Some(newer)), TakeApproval(u, a),
                  ApplyApproval(u), ApplyApproval(t)]
    ensures a in states'[|steps'|].agents
      && states'[|steps'|].agents[a].card == Some(states[|steps|].pending[a].newCard)
  {
    var s, n := states[|steps|], |steps|;
    RunKeepsInv(states, steps, n);
    var entry := s.pending[a];
    states', steps' := Extend(states, steps, TakeApproval(t, a));
    states', steps' := Extend(states', steps', Poll(a, Some(newer)));
    assert states'[n + 2].pending[a].newCard == newer && states'[n + 2].approving[t].newCard == entry.newCard;
    states', steps' := Extend(states', steps', TakeApproval(u, a));
    states', steps' := Extend(states', steps', ApplyApproval(u));
    assert states'[n + 4].approving[t] == entry.(status := "approved");
    states', steps' := Extend(states', steps', ApplyApproval(t));
  }

  // When the latest approval wins.

  /** The card of agent a's change that was taken out of the store last. */
  function LastTaken(states: seq<State>, steps: seq<Step>, a: string, k: nat): Option<Card>
    requires |states| == |steps| + 1 && k <= |steps|
  {
    if k == 0 then None
    else if Takes(states[k - 1], steps[k - 1], a) then Some(states[k - 1].pending[a].newCard)
    else LastTaken(states, steps, a, k - 1)
  }

  /** The step takes a change of agent a out of the store. */
  predicate Takes(s: State, step: Step, a: string) {
    step.TakeApproval? && step.agent == a && a in s.pending
  }

  predicate InProgress(s: State, a: string, t: nat) {
    t in s.approving && s.approving[t].agentName == a
  }

  /** All approvals of agent a in progress carry this card. */
  ghost predicate AllCarry(s: State, a: string, card: Card) {
    forall t :: InProgress(s, a, t) ==> s.approving[t].newCard == card
  }

  /** No approval of agent a is in progress. */
  ghost predicate Settled(s: State, a: string) {
    forall t :: !InProgress(s, a, t)
  }

  /** Among the first k steps no change of agent a is taken out while an approval
      with another card is in progress. */
  ghost predicate NoneOverlap(states: seq<State>, steps: seq<Step>, a: string, k: nat)
    requires |states| == |steps| + 1 && k <= |steps|
  {
    forall i :: 0 <= i < k && Takes(states[i], steps[i], a) ==> AllCarry(states[i], a, states[i].pending[a].newCard)
  }

  /** Whatever is in progress for agent a carries the card, and once nothing is,
      the card is served. */
  ghost predicate Winning(s: State, a: string, card: Card) {
    && NeedsApproval(s, a) && s.agents[a].card.Some?
    && AllCarry(s, a, card) && (Settled(s, a) ==> s.agents[a].card == Some(card))
  }

  lemma StepKeepsWinning(s: State, step: Step, a: string, card: Card)
    requires Inv(s) && Enabled(s, step) && Winning(s, a, card) && !Takes(s, step, a)
    ensures Winning(Next(s, step), a, card)
  {
    StepKeepsInv(s, step);
    CardStep(s, step, a);
    var s' := Next(s, step);
    if Settled(s', a) && !Settled(s, a) {
      var t :| InProgress(s, a, t);
      assert !InProgress(s', a, t);
      assert step == ApplyApproval(t);
    }
  }

  lemma TakeWins(s: State, step: Step, a: string)
    requires Inv(s) && Enabled(s, step) && Takes(s, step, a) && s.agents[a].card.Some?
    ensures AllCarry(s, a, s.pending[a].newCard) <==> Winning(Next(s, step), a, s.pending[a].newCard)
  {
    var s' := Next(s, step);
    assert InProgress(s', a, step.tid);
    assert forall t :: InProgress(s, a, t) ==> InProgress(s', a, t) && s'.approving[t] == s.approving[t];
  }

  /** The latest approval wins on every run that never takes a change of the agent
      out of the store while an approval of another card is in progress: once no
      approval is in progress, the card served is that of the change taken last. */
  lemma {:induction false} LatestApprovalWins(states: seq<State>, steps: seq<Step>, a: string, k: nat)
    requires IsRun(states, steps) && k <= |steps| && NoneOverlap(states, steps, a, k)
    requires LastTaken(states, steps, a, k).Some?
    ensures Winning(states[k], a, LastTaken(states, steps, a, k).value)
    ensures Settled(states[k], a) ==> states[k].agents[a].card == LastTaken(states, steps, a, k)
  {
    var s, step := states[k - 1], steps[k - 1];
    RunKeepsInv(states, steps, k - 1);
    if Takes(s, step, a) {
      ApprovingHasCard(states, steps, k - 1, 0);
      TakeWins(s, step, a);
    } else {
      LatestApprovalWins(states, steps, a, k - 1);
      StepKeepsWinning(s, step, a, LastTaken(states, steps, a, k).value);
    }
  }

  /** From step i on no change of agent a is taken out. */
  ghost predicate NoneTaken(states: seq<State>, steps: seq<Step>, a: string, i: nat)
    requires |states| == |steps| + 1
  {
    forall m {:trigger steps[m]} :: i <= m < |steps| ==> !Takes(states[m], steps[m], a)
  }

  /** A run goes on without taking out another change of agent a, and at its end
      no approval of a is in progress. */
  ghost predicate Settles(states: seq<State>, steps: seq<Step>, states': seq<State>, steps': seq<Step>, a: string)
    requires |states| == |steps| + 1
  {
    && IsRun(states', steps') && steps <= steps' && states <= states'
    && NoneTaken(states', steps', a, |steps|)
    && Settled(states'[|steps'|], a)
  }

  ghost predicate AlwaysServes(states: seq<State>, steps: seq<Step>, a: string, card: Card)
    requires |states| == |steps| + 1
  {
    forall states': seq<State>, steps': seq<Step> ::
      Settles(states, steps, states', steps', a) ==> Serves(states'[|steps'|], a, card)
  }

  /** An approval is sure to win, whatever interleaves with it, exactly when all
      approvals of that agent in progress as it begins carry the same card. */
  lemma ApprovalWinsExactlyWhen(states: seq<State>, steps: seq<Step>, u: nat, a: string)
    requires IsRun(states, steps) && a in states[|steps|].pending && u !in states[|steps|].approving
    ensures var s := states[|steps|];
      var states', steps' := states + [Next(s, TakeApproval(u, a))], steps + [TakeApproval(u, a)];
      AllCarry(s, a, s.pending[a].newCard) <==> AlwaysServes(states', steps', a, s.pending[a].newCard)
  {
    var s, card := states[|steps|], states[|steps|].pending[a].newCard;
    var states', steps' := Extend(states, steps, TakeApproval(u, a));
    RunKeepsInv(states, steps, |steps|);
    ApprovingHasCard(states, steps, |steps|, u);
    TakeWins(s, TakeApproval(u, a), a);
    if AllCarry(s, a, card) {
      forall more: seq<State>, moreSteps: seq<Step> | Settles(states', steps', more, moreSteps, a)
        ensures Serves(more[|moreSteps|], a, card)
      {
        WinningLasts(more, moreSteps, a, card, |steps'|, |moreSteps|);
      }
    } else {
      var t :| InProgress(s, a, t) && s.approving[t].newCard != card;
      assert InProgress(states'[|steps'|], a, t);
      var more, moreSteps := SettleWith(states', steps', a, t, OthersOf(states'[|steps'|], a, t));
      assert Settles(states', steps', more, moreSteps, a);
    }
  }

  lemma {:induction false} WinningLasts(states: seq<State>, steps: seq<Step>, a: string, card: Card, i: nat, k: nat)
    requires IsRun(states, steps) && i <= k <= |steps| && Winning(states[i], a, card)
    requires NoneTaken(states, steps, a, i)
    ensures Winning(states[k], a, card)
  {
    if i < k {
      WinningLasts(states, steps, a, card, i, k - 1);
      RunKeepsInv(states, steps, k - 1);
      var step := steps[k - 1];
      StepKeepsWinning(states[k - 1], step, a, card);
    }
  }

  /** The approvals of agent a in progress, but t's. */
  function OthersOf(s: State, a: string, t: nat): set<nat> {
    set u | u in s.approving && s.approving[u].agentName == a && u != t
  }

  /** Any run can go on so that approval t applies last of those in progress. */
  lemma {:induction false} SettleWith(states: seq<State>, steps: seq<Step>, a: string, t: nat, others: set<nat>)
      returns (states': seq<State>, steps': seq<Step>)
    requires IsRun(states, steps) && InProgress(states[|steps|], a, t)
    requires others == OthersOf(states[|steps|], a, t)
    ensures Settles(states, steps, states', steps', a)
    ensures Serves(states'[|steps'|], a, states[|steps|].approving[t].newCard)
    decreases others
  {
    var s := states[|steps|];
    RunKeepsInv(states, steps, |steps|);
    if others == {} {
      states', steps' := Extend(states, steps, ApplyApproval(t));
      assert forall v :: InProgress(s, a, v) ==> v == t || v in others;
      assert forall v :: InProgress(states'[|steps'|], a, v) ==> InProgress(s, a, v) && v != t;
    } else {
      var u :| u in others;
      states', steps' := Extend(states, steps, ApplyApproval(u));
      assert others - {u} == OthersOf(states'[|steps'|], a, t);
      states', steps' := SettleWith(states', steps', a, t, others - {u});
    }
  }
}
