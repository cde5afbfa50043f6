/** The connection limit (internal/server/server.go): a semaphore channel filled
    by Accept and emptied by the first Close of each connection. */
module LimitedListeners {
  import opened Wrappers

  // The objects, with calls run one after the other.

  class LimitedConn {
    const listener: LimitedListener
    var closed: bool  // the connection's sync.Once has run

    constructor (listener: LimitedListener)
      ensures this.listener == listener && !closed
    {
      this.listener, closed := listener, false;
    }
  }

  class LimitedListener {
    const maxConns: nat
    var tokens: nat
    ghost var live: set<LimitedConn>  // the accepted connections not closed yet

    ghost predicate Valid()
      reads this, live
    {
      && tokens == |live| <= maxConns
      && forall c :: c in live ==> c.listener == this && !c.closed
    }

    constructor (maxConns: nat)
      ensures Valid() && live == {} && this.maxConns == maxConns
    {
      this.maxConns := maxConns;
      tokens, live := 0, {};
    }

    /** Returns a connection, or none: at the limit it would block, below it the
        inner listener may fail, and then the token goes back. */
    method Accept(innerFails: bool) returns (conn: Option<LimitedConn>)
      requires Valid()
      modifies this`tokens, this`live
      ensures Valid() && (conn.Some? <==> old(tokens) < maxConns && !innerFails)
      ensures conn.None? ==> tokens == old(tokens) && live == old(live)
      ensures conn.Some? ==> fresh(conn.value) && live == old(live) + {conn.value} && tokens == old(tokens) + 1
    {
      if tokens == maxConns {
        return None;
      }
      tokens := tokens + 1;
      if innerFails {
        tokens := tokens - 1;
        return None;
      }
      var c := new LimitedConn(this);
      live := live + {c};
      conn := Some(c);
    }

    /** However often a connection is closed, one token comes back. */
    method Close(c: LimitedConn)
      requires Valid() && (c.closed || c in live)
      modifies this`tokens, this`live, c`closed
      ensures Valid() && c.closed && live == old(live) - {c}
      ensures tokens == old(tokens) - (if old(c.closed) then 0 else 1)
    {
      if !c.closed {
        c.closed := true;
        live := live - {c};
        tokens := tokens - 1;
      }
    }
  }

  // Interleavings of Accept and Close by any number of threads.

  /** Threads between Accept's send and its end, and connections that are open,
      inside their first Close, or closed. */
  datatype State = State(maxConns: nat, tokens: int, accepting: set<nat>,
                         unclosed: set<nat>, releasing: set<nat>, closed: set<nat>)

  datatype Step =
    | Send(tid: nat)
    | AcceptOk(tid: nat, conn: nat)
    | AcceptError(tid: nat)
    | FirstClose(conn: nat)
    | Receive(conn: nat)
    | CloseAgain(conn: nat)

  /** A send waits while the channel is full, a receive while it is empty. */
  predicate Enabled(s: State, step: Step) {
    match step
    case Send(t) => t !in s.accepting && s.tokens < s.maxConns
    case AcceptOk(t, c) => t in s.accepting && c !in s.unclosed + s.releasing + s.closed
    case AcceptError(t) => t in s.accepting && s.tokens > 0
    case FirstClose(c) => c in s.unclosed
    case Receive(c) => c in s.releasing && s.tokens > 0
    case CloseAgain(c) => c in s.closed
  }

  function Next(s: State, step: Step): State
    requires Enabled(s, step)
  {
    match step
    case Send(t) => s.(tokens := s.tokens + 1, accepting := s.accepting + {t})
    case AcceptOk(t, c) => s.(accepting := s.accepting - {t}, unclosed := s.unclosed + {c})
    case AcceptError(t) => s.(tokens := s.tokens - 1, accepting := s.accepting - {t})
    case FirstClose(c) => s.(unclosed := s.unclosed - {c}, releasing := s.releasing + {c})
    case Receive(c) => s.(tokens := s.tokens - 1, releasing := s.releasing - {c}, closed := s.closed + {c})
    case CloseAgain(_) => s
  }

  predicate Init(s: State) {
    s.tokens == 0 && s.accepting == s.unclosed == s.releasing == s.closed == {}
  }

  ghost predicate IsRun(states: seq<State>, steps: seq<Step>) {
    && |states| == |steps| + 1 && Init(states[0])
    && forall i {:trigger steps[i]} :: 0 <= i < |steps| ==>
         Enabled(states[i], steps[i]) && states[i + 1] == Next(states[i], steps[i])
  }

  predicate Inv(s: State) {
    && s.unclosed !! s.releasing !! s.closed
    && s.tokens == |s.accepting| + |s.unclosed| + |s.releasing|
    && s.tokens <= s.maxConns
  }

  lemma StepKeepsInv(s: State, step: Step)
    requires Inv(s) && Enabled(s, step)
    ensures Inv(Next(s, step))
  {
  }

  function Accepted(steps: seq<Step>, k: nat): nat
    requires k <= |steps|
  {
    if k == 0 then 0 else Accepted(steps, k - 1) + if steps[k - 1].AcceptOk? then 1 else 0
  }

  function Released(steps: seq<Step>, k: nat): nat
    requires k <= |steps|
  {
    if k == 0 then 0 else Released(steps, k - 1) + if steps[k - 1].Receive? then 1 else 0
  }

  /** In every interleaving the tokens are the accepts in progress and the
      connections whose first close is not through; they never exceed the limit;
      the connections accepted and not released are the unclosed ones, so repeated
      closes free one token each connection; and the receives of a failed accept
      and of a close always find a token. */
  lemma {:induction false} TokensAccounted(states: seq<State>, steps: seq<Step>, k: nat)
    requires IsRun(states, steps) && k <= |steps|
    ensures Inv(states[k]) && states[k].maxConns == states[0].maxConns
    ensures Accepted(steps, k) - Released(steps, k) == |states[k].unclosed| + |states[k].releasing|
      <= states[0].maxConns
    ensures Released(steps, k) == |states[k].closed|
    ensures forall t :: t in states[k].accepting ==> Enabled(states[k], AcceptError(t))
    ensures forall c :: c in states[k].releasing ==> Enabled(states[k], Receive(c))
  {
    if k > 0 {
      TokensAccounted(states, steps, k - 1);
      StepKeepsInv(states[k - 1], steps[k - 1]);
    }
    NonEmpty(states[k].accepting);
    NonEmpty(states[k].releasing);
  }

  lemma NonEmpty(s: set<nat>)
    ensures forall x :: x in s ==> |s| > 0
  {
    forall x | x in s
      ensures |s| > 0
    {
      assert {x} <= s;
    }
  }

  /** A full listener accepts again exactly after some accept or close gives back
      a token; until then every Send waits. */
  lemma FullExactlyWhen(states: seq<State>, steps: seq<Step>, k: nat, t: nat)
    requires IsRun(states, steps) && k <= |steps| && t !in states[k].accepting
    ensures Enabled(states[k], Send(t)) <==>
      |states[k].accepting| + |states[k].unclosed| + |states[k].releasing| < states[k].maxConns
  {
    TokensAccounted(states, steps, k);
  }
}
