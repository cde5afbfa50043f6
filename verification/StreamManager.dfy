/** The stream manager object (internal/proxy/streams.go). `shared` is the
    protocol's view of the fields: each method says which protocol steps it
    amounts to. AcquireStream is given what other threads do to its counter
    before each of its loads and CAS attempts, and DrainAll whose streams others
    release between its polls; the other calls run uninterrupted. */
module StreamManagers {
  import opened Wrappers
  import opened StreamProtocol

  class Counter {
    var value: int

    constructor ()
      ensures value == 0
    {
      value := 0;
    }
  }

  /** What other threads add to the counter, in sum, before one round's load and
      between that load and its CAS. */
  datatype Gap = Gap(beforeLoad: int, beforeSwap: int)

  /** The CAS loop from counter value v, one gap a round and none after the last:
      success, the value left, and the net moves of the others that happened
      meanwhile. A counter that is back at the loaded value passes the CAS. */
  function Contend(v: int, limit: int, others: seq<Gap>): (r: (bool, int, int))
    ensures r.1 == v + r.2 + if r.0 then 1 else 0
    ensures r.0 ==> r.1 <= limit
    ensures !r.0 ==> r.1 >= limit
    decreases |others|
  {
    if others == [] then (v < limit, if v < limit then v + 1 else v, 0)
    else
      var gap := others[0];
      var loaded := v + gap.beforeLoad;
      if loaded >= limit then (false, loaded, gap.beforeLoad)
      else if gap.beforeSwap == 0 then (true, loaded + 1, gap.beforeLoad)
      else
        var r := Contend(loaded + gap.beforeSwap, limit, others[1..]);
        (r.0, r.1, r.2 + gap.beforeLoad + gap.beforeSwap)
  }

  /** AcquireStream under interference: whether it succeeds and the fields after. */
  function Acquired(sh: Shared, a: string, limit: int, others: seq<Gap>): (bool, Shared)
    requires SharedInv(sh)
  {
    if sh.draining then (false, sh)
    else
      var sh' := WithCounter(sh, a);
      var c := sh'.counts[a];
      var r := Contend(sh'.cells[c], limit, others);
      (r.0, sh'.(cells := sh'.cells[c := r.1]))
  }

  function Released(sh: Shared, a: string): Shared
    requires SharedInv(sh)
  {
    if a in sh.counts then sh.(cells := sh.cells[sh.counts[a] := sh.cells[sh.counts[a]] - 1]) else sh
  }

  /** ActiveStreams of an agent. */
  function Count(sh: Shared, a: string): int
    requires SharedInv(sh)
  {
    if a in sh.counts then sh.cells[sh.counts[a]] else 0
  }

  /** An uninterrupted call is the protocol's own steps taken in a row by one thread. */
  lemma AcquiredIsProtocolSteps(sh: Shared, t: nat, a: string, limit: int)
    requires SharedInv(sh) && sh.scanner.None?
    ensures var th0 := ThreadAfter(sh, Idle, BeginAcquire(a, limit));
      var r := Acquired(sh, a, limit, []);
      if sh.draining then th0 == Idle && r == (false, sh)
      else
        && CanAct(sh, th0, Lookup)
        && var sh1, th1 := SharedAfter(sh, t, th0, Lookup), ThreadAfter(sh, th0, Lookup);
        && CanAct(sh1, th1, Load)
        && var th2 := ThreadAfter(sh1, th1, Load);
           if th2.Idle? then r == (false, sh1)
           else CanAct(sh1, th2, Swap) && ThreadAfter(sh1, th2, Swap) == Holding(a)
                && r == (true, SharedAfter(sh1, t, th2, Swap))
  {
    var sh' := WithCounter(sh, a);
    assert sh'.cells == sh'.cells[sh'.counts[a] := sh'.cells[sh'.counts[a]]];
  }

  lemma ReleasedIsProtocolSteps(sh: Shared, t: nat, a: string)
    requires SharedInv(sh) && sh.scanner.None?
    ensures var th := ThreadAfter(sh, Holding(a), BeginRelease);
      if a in sh.counts then CanAct(sh, th, Add) && Released(sh, a) == SharedAfter(sh, t, th, Add)
      else th == Idle && Released(sh, a) == sh
  {
  }

  lemma CountAfterSet(sh: Shared, a: string, v: int, b: string)
    requires SharedInv(sh) && a in sh.counts
    ensures var sh' := sh.(cells := sh.cells[sh.counts[a] := v]);
      SharedInv(sh') && Count(sh', b) == if b == a then v else Count(sh, b)
  {
  }

  /** A successful acquire adds one slot to what the other threads did, a release
      takes it back, and neither touches another agent. */
  lemma ReleaseUndoesAcquire(sh: Shared, a: string, limit: int, others: seq<Gap>, b: string)
    requires SharedInv(sh) && Acquired(sh, a, limit, others).0
    ensures var sh' := Acquired(sh, a, limit, others).1;
      var net := Contend(Count(sh, a), limit, others).2;
      SharedInv(sh') && SharedInv(Released(sh', a))
      && Count(sh', b) == Count(sh, b) + (if b == a then net + 1 else 0)
      && Count(Released(sh', a), b) == Count(sh, b) + (if b == a then net else 0)
      && Count(sh', a) <= limit
  {
    var created, sh' := WithCounter(sh, a), Acquired(sh, a, limit, others).1;
    assert SharedInv(created) && Count(created, b) == Count(sh, b) && Count(created, a) == Count(sh, a);
    CountAfterSet(created, a, Count(sh', a), b);
    CountAfterSet(sh', a, Count(sh', a) - 1, b);
  }

  class StreamManager {
    var counts: map<string, Counter>
    var draining: bool
    ghost var arena: seq<Counter>  // the counters in the order of their creation
    ghost var shared: Shared

    ghost predicate Valid()
      reads this, arena
    {
      && SharedInv(shared) && shared.scanner == None
      && shared.draining == draining && shared.counts.Keys == counts.Keys
      && |shared.cells| == |arena|
      && (forall i, j :: 0 <= i < j < |arena| ==> arena[i] != arena[j])
      && (forall i :: 0 <= i < |arena| ==> arena[i].value == shared.cells[i])
      && (forall a :: a in counts ==> counts[a] == arena[shared.counts[a]])
    }

    constructor ()
      ensures Valid() && shared == INITIAL && fresh(arena)
    {
      counts, draining := map[], false;
      arena, shared := [], INITIAL;
    }

    /** The locked section of AcquireStream. */
    method LookupOrCreate(agentName: string) returns (counter: Counter)
      requires Valid()
      modifies this
      ensures Valid() && shared == WithCounter(old(shared), agentName)
      ensures counter == arena[shared.counts[agentName]]
      ensures old(arena) <= arena && fresh(set c | c in arena && c !in old(arena))
    {
      if agentName in counts {
        return counts[agentName];
      }
      counter := new Counter();
      counts := counts[agentName := counter];
      shared := WithCounter(shared, agentName);
      arena := arena + [counter];
    }

    method SetCounter(counter: Counter, ghost id: nat, value: int)
      requires Valid() && id < |arena| && arena[id] == counter
      modifies counter, this`shared
      ensures Valid() && counter.value == value
      ensures shared == old(shared).(cells := old(shared).cells[id := value])
    {
      counter.value := value;
      shared := shared.(cells := shared.cells[id := value]);
    }

    method CasLoop(counter: Counter, ghost id: nat, maxStreams: int, others: seq<Gap>) returns (ok: bool)
      requires Valid() && id < |arena| && arena[id] == counter
      modifies counter, this`shared
      ensures Valid() && ok == Contend(old(counter.value), maxStreams, others).0
      ensures counter.value == Contend(old(counter.value), maxStreams, others).1
      ensures shared == old(shared).(cells := old(shared).cells[id := counter.value])
    {
      var left := others;
      while true
        invariant Valid() && shared == old(shared).(cells := old(shared).cells[id := counter.value])
        invariant var r, r0 := Contend(counter.value, maxStreams, left),
          Contend(old(counter.value), maxStreams, others);
          r.0 == r0.0 && r.1 == r0.1
        decreases |left|
      {
        var gap := if left == [] then Gap(0, 0) else left[0];
        SetCounter(counter, id, counter.value + gap.beforeLoad);
        var current := counter.value;
        if current >= maxStreams {
          return false;
        }
        SetCounter(counter, id, counter.value + gap.beforeSwap);
        if counter.value == current {
          SetCounter(counter, id, current + 1);
          return true;
        }
        left := left[1..];
      }
    }

    method AcquireStream(agentName: string, maxStreams: int, others: seq<Gap>) returns (ok: bool)
      requires Valid()
      modifies this, arena
      ensures Valid() && (ok, shared) == Acquired(old(shared), agentName, maxStreams, others)
      ensures fresh(set c | c in arena && c !in old(arena))
    {
      if draining {
        return false;
      }
      var counter := LookupOrCreate(agentName);
      ok := CasLoop(counter, shared.counts[agentName], maxStreams, others);
    }

    method ReleaseStream(agentName: string)
      requires Valid()
      modifies this`shared, arena
      ensures Valid() && shared == Released(old(shared), agentName)
    {
      if agentName in counts {
        var counter := counts[agentName];
        counter.value := counter.value - 1;
        shared := Released(shared, agentName);
      }
    }

    method ActiveStreams(agentName: string) returns (n: int)
      requires Valid()
      ensures n == Count(shared, agentName)
    {
      if agentName !in counts {
        return 0;
      }
      n := counts[agentName].value;
    }

    /** The scan, in any order. */
    method TotalStreams() returns (total: int)
      requires Valid()
      ensures Valid() && total == Sum(CountsOf(shared))
    {
      total := 0;
      ghost var m := CountsOf(shared);
      var todo := counts.Keys;
      while todo != {}
        invariant todo <= counts.Keys && total + Total(m, todo) == Total(m, counts.Keys)
        decreases todo
      {
        var a :| a in todo;
        TotalTakes(m, todo, a);
        total := total + counts[a].value;
        todo := todo - {a};
      }
      assert m.Keys == counts.Keys;
    }

    /** Polls once, and once more after each tick until the context is canceled;
        before tick k others release streams of the agents in released[k]. */
    method DrainAll(released: seq<seq<string>>) returns (drained: bool, ticks: nat)
      requires Valid()
      modifies this`draining, this`shared, arena
      ensures Valid() && shared == old(shared).(draining := true, cells := shared.cells)
      ensures (drained, ticks, CountsOf(shared)) == Drained(CountsOf(old(shared)), released, 0)
    {
      draining := true;
      shared := shared.(draining := true);
      assert CountsOf(shared) == CountsOf(old(shared));
      drained, ticks := WaitUntilEmpty(released);
    }

    method WaitUntilEmpty(released: seq<seq<string>>) returns (drained: bool, ticks: nat)
      requires Valid()
      modifies this`shared, arena
      ensures Valid() && shared == old(shared).(cells := shared.cells)
      ensures (drained, ticks, CountsOf(shared)) == Drained(CountsOf(old(shared)), released, 0)
    {
      ghost var start := CountsOf(shared);
      ticks := 0;
      while ticks < |released|
        invariant Valid() && arena == old(arena) && shared == old(shared).(cells := shared.cells)
        invariant ticks <= |released| && Drained(start, released, 0) == Drained(CountsOf(shared), released, ticks)
      {
        drained := PollThenWait(released[ticks]);
        if drained {
          return;
        }
        ticks := ticks + 1;
      }
      drained := PollThenWait([]);
    }

    /** One scan and, unless it found nothing, the releases until the next. */
    method PollThenWait(released: seq<string>) returns (empty: bool)
      requires Valid()
      modifies this`shared, arena
      ensures Valid() && shared == old(shared).(cells := shared.cells)
      ensures empty <==> Sum(CountsOf(old(shared))) == 0
      ensures CountsOf(shared) == if empty then CountsOf(old(shared)) else AllReleased(CountsOf(old(shared)), released)
    {
      var total := TotalStreams();
      empty := total == 0;
      if !empty {
        ReleaseAll(released);
      }
    }

    method ReleaseAll(agents: seq<string>)
      requires Valid()
      modifies this`shared, arena
      ensures Valid() && shared == old(shared).(cells := shared.cells)
      ensures CountsOf(shared) == AllReleased(CountsOf(old(shared)), agents)
    {
      ghost var m := CountsOf(shared);
      var i := 0;
      while i < |agents|
        invariant Valid() && i <= |agents| && shared == old(shared).(cells := shared.cells)
        invariant CountsOf(shared) == FirstReleased(m, agents, i)
      {
        ReleaseOne(agents[i]);
        i := i + 1;
      }
    }

    method ReleaseOne(agentName: string)
      requires Valid()
      modifies this`shared, arena
      ensures Valid() && shared == old(shared).(cells := shared.cells)
      ensures CountsOf(shared) == OneReleased(CountsOf(old(shared)), agentName)
    {
      ReleasedCounts(shared, agentName);
      ReleaseStream(agentName);
    }
  }

  // The sum over all agents, and what DrainAll makes of it.

  type Counts = map<string, int>

  function CountsOf(sh: Shared): (m: Counts)
    requires SharedInv(sh)
    ensures m.Keys == sh.counts.Keys
  {
    map a | a in sh.counts :: Count(sh, a)
  }

  function OneReleased(m: Counts, a: string): Counts {
    if a in m then m[a := m[a] - 1] else m
  }

  lemma ReleasedCounts(sh: Shared, a: string)
    requires SharedInv(sh)
    ensures SharedInv(Released(sh, a)) && CountsOf(Released(sh, a)) == OneReleased(CountsOf(sh), a)
  {
    if a in sh.counts {
      var v := Count(sh, a) - 1;
      assert Released(sh, a) == sh.(cells := sh.cells[sh.counts[a] := v]);
      assert OneReleased(CountsOf(sh), a) == CountsOf(sh)[a := v];
      CountsAfterSet(sh, a, v);
    } else {
      assert Released(sh, a) == sh && a !in CountsOf(sh);
    }
  }

  lemma CountsAfterSet(sh: Shared, a: string, v: int)
    requires SharedInv(sh) && a in sh.counts
    ensures var sh' := sh.(cells := sh.cells[sh.counts[a] := v]);
      SharedInv(sh') && CountsOf(sh') == CountsOf(sh)[a := v]
  {
    var sh' := sh.(cells := sh.cells[sh.counts[a] := v]);
    CountAfterSet(sh, a, v, a);
    forall b | b in sh.counts
      ensures CountsOf(sh')[b] == CountsOf(sh)[a := v][b]
    {
      CountAfterSet(sh, a, v, b);
    }
  }

  function AllReleased(m: Counts, agents: seq<string>): Counts {
    FirstReleased(m, agents, |agents|)
  }

  function FirstReleased(m: Counts, agents: seq<string>, k: nat): Counts
    requires k <= |agents|
  {
    if k == 0 then m else OneReleased(FirstReleased(m, agents, k - 1), agents[k - 1])
  }

  /** The sum of the counts of these agents. */
  ghost function Total(m: Counts, agents: set<string>): int
    requires agents <= m.Keys
  {
    if agents == {} then 0 else var a :| a in agents; m[a] + Total(m, agents - {a})
  }

  ghost function Sum(m: Counts): int {
    Total(m, m.Keys)
  }

  /** The sum does not depend on the order. */
  lemma {:induction false} TotalTakes(m: Counts, agents: set<string>, a: string)
    requires agents <= m.Keys && a in agents
    ensures Total(m, agents) == m[a] + Total(m, agents - {a})
  {
    var b :| b in agents && Total(m, agents) == m[b] + Total(m, agents - {b});
    if b != a {
      TotalTakes(m, agents - {b}, a);
      TotalTakes(m, agents - {a}, b);
      assert agents - {b} - {a} == agents - {a} - {b};
    }
  }

  predicate NoneNegative(m: Counts) {
    forall a :: a in m ==> m[a] >= 0
  }

  predicate NoStreams(m: Counts) {
    forall a :: a in m ==> m[a] == 0
  }

  /** Where no count is negative, as with one release for each acquire, the sum
      is zero exactly when no agent has a stream. */
  lemma {:induction false} TotalZeroExactlyWhen(m: Counts, agents: set<string>)
    requires agents <= m.Keys && NoneNegative(m)
    ensures Total(m, agents) >= 0
    ensures Total(m, agents) == 0 <==> forall a :: a in agents ==> m[a] == 0
  {
    if agents != {} {
      var a :| a in agents;
      TotalTakes(m, agents, a);
      TotalZeroExactlyWhen(m, agents - {a});
      assert agents == (agents - {a}) + {a};
    }
  }

  /** The polling of DrainAll from tick k on: whether it returned nil, after how
      many ticks, and the counts then. */
  ghost function Drained(m: Counts, released: seq<seq<string>>, k: nat): (bool, nat, Counts)
    requires k <= |released|
    decreases |released| - k
  {
    if Sum(m) == 0 then (true, k, m)
    else if k == |released| then (false, k, m)
    else Drained(AllReleased(m, released[k]), released, k + 1)
  }

  /** The counts after the first k ticks. */
  function AfterTicks(m: Counts, released: seq<seq<string>>, k: nat): Counts
    requires k <= |released|
  {
    if k == 0 then m else AllReleased(AfterTicks(m, released, k - 1), released[k - 1])
  }

  /** Where no count gets negative DrainAll returns nil exactly when some poll
      finds every stream gone, after the first such poll, and without changing
      any count itself. */
  lemma {:induction false} DrainedExactlyWhen(m: Counts, released: seq<seq<string>>, from: nat)
    requires from <= |released|
    requires forall k :: 0 <= k <= |released| ==> NoneNegative(AfterTicks(m, released, k))
    ensures var (drained, ticks, left) := Drained(AfterTicks(m, released, from), released, from);
      && from <= ticks <= |released| && left == AfterTicks(m, released, ticks)
      && (if drained then NoStreams(left) else ticks == |released|)
      && (forall k :: from <= k < ticks || (!drained && k == ticks) ==> !NoStreams(AfterTicks(m, released, k)))
    decreases |released| - from
  {
    var now := AfterTicks(m, released, from);
    TotalZeroExactlyWhen(now, now.Keys);
    if Sum(now) != 0 && from < |released| {
      DrainedExactlyWhen(m, released, from + 1);
    }
  }

  // The scan of the step machine.

  /** A scanning thread after reading these counters in a row, up to one it cannot read. */
  function AfterReads(sh: Shared, th: Thread, order: seq<string>): Thread
    requires th.Scanning?
    decreases |order|
  {
    if order == [] || !CanAct(sh, th, ReadCounter(order[0])) then th
    else AfterReads(sh, ThreadAfter(sh, th, ReadCounter(order[0])), order[1..])
  }

  lemma {:induction false} ReadsKeepSum(sh: Shared, th: Thread, order: seq<string>)
    requires SharedInv(sh) && th.Scanning? && th.todo <= sh.counts.Keys
    ensures var th', m := AfterReads(sh, th, order), CountsOf(sh);
      th'.Scanning? && th'.todo <= th.todo && th'.total + Total(m, th'.todo) == th.total + Total(m, th.todo)
    decreases |order|
  {
    if order != [] && CanAct(sh, th, ReadCounter(order[0])) {
      TotalTakes(CountsOf(sh), th.todo, order[0]);
      ReadsKeepSum(sh, ThreadAfter(sh, th, ReadCounter(order[0])), order[1..]);
    }
  }

  /** An uninterrupted scan, in any order of reading, is the protocol's steps: it
      ends with the sum of all counts, leaves DrainAll when that is zero and goes
      back to polling when it is not, and changes nothing. */
  lemma ScanIsProtocolSteps(sh: Shared, t: nat, order: seq<string>)
    requires SharedInv(sh) && sh.scanner.None?
    ensures CanAct(sh, Polling, BeginScan)
    ensures var held := SharedAfter(sh, t, Polling, BeginScan);
      var th := AfterReads(held, ThreadAfter(sh, Polling, BeginScan), order);
      th.Scanning? && (th.todo == {} ==>
        && CanAct(held, th, EndScan) && SharedAfter(held, t, th, EndScan) == sh
        && ThreadAfter(held, th, EndScan) == if Sum(CountsOf(sh)) == 0 then Idle else Polling)
  {
    var held := SharedAfter(sh, t, Polling, BeginScan);
    ReadsKeepSum(held, ThreadAfter(sh, Polling, BeginScan), order);
    assert CountsOf(held) == CountsOf(sh);
  }
}
