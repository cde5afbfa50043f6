/** The in-memory nonce store (internal/security/replay.go). Times are integer
    nanoseconds. CheckAndStore reads the clock twice, for the new expiry and for
    the comparison; both readings are parameters. Calls are serialised: the code's
    load and store are not one atomic step, so two racing calls are not modelled. */
module NonceStores {

  /** Nonce to expiry time. */
  type Entries = map<string, int>

  function CheckAndStored(entries: Entries, window: int, nonce: string, expiryClock: int, checkClock: int):
    (bool, Entries) {
    if nonce in entries && checkClock < entries[nonce] then (false, entries)
    else (true, entries[nonce := expiryClock + window])
  }

  /** The cleanup loop looking at one key with the time it read when it started. */
  function Visited(entries: Entries, key: string, now: int): Entries {
    if key in entries && now > entries[key] then entries - {key} else entries
  }

  function Swept(entries: Entries, now: int): Entries {
    map k | k in entries && now <= entries[k] :: entries[k]
  }

  class MemoryNonceStore {
    var entries: Entries
    const window: int

    constructor (window: int)
      ensures this.window == window && entries == map[]
    {
      this.window := window;
      entries := map[];
    }

    method CheckAndStore(nonce: string, expiryClock: int, checkClock: int) returns (isNew: bool)
      modifies this
      ensures (isNew, entries) == CheckAndStored(old(entries), window, nonce, expiryClock, checkClock)
    {
      var expiry := expiryClock + window;
      if nonce in entries {
        if checkClock < entries[nonce] {
          return false;
        }
      }
      entries := entries[nonce := expiry];
      isNew := true;
    }

    /** One tick of the cleanup goroutine, visiting the keys in any order. */
    method CleanupTick(now: int)
      modifies this
      ensures entries == Swept(old(entries), now)
    {
      var todo := entries.Keys;
      while todo != {}
        invariant todo <= entries.Keys <= old(entries).Keys
        invariant forall k :: k in entries ==> entries[k] == old(entries)[k]
        invariant forall k :: k in old(entries) && k !in todo ==> (k in entries <==> now <= old(entries)[k])
        decreases todo
      {
        var key :| key in todo;
        entries := Visited(entries, key, now);
        todo := todo - {key};
      }
    }
  }

  // Whole runs.

  /** A use of a nonce with its two clock readings; the cleanup loop visiting a
      key at time `at` with its earlier reading `now`; or nothing for the store. */
  datatype Event =
    | Use(nonce: string, expiryClock: int, checkClock: int)
    | Visit(key: string, now: int, at: int)
    | Other(at: int)

  function Begins(e: Event): int {
    match e case Use(_, t, _) => t case Visit(_, _, at) => at case Other(at) => at
  }

  function Ends(e: Event): int {
    match e case Use(_, _, t) => t case Visit(_, _, at) => at case Other(at) => at
  }

  /** Clock readings never go back, and events do not overlap. */
  ghost predicate Serialised(events: seq<Event>) {
    && (forall i :: 0 <= i < |events| ==> Begins(events[i]) <= Ends(events[i]))
    && (forall i :: 0 <= i < |events| && events[i].Visit? ==> events[i].now <= events[i].at)
    && (forall i, j :: 0 <= i < j < |events| ==> Ends(events[i]) <= Begins(events[j]))
  }

  /** The map after the first k events, with cleanup or as a store that never deletes. */
  function EntriesAt(events: seq<Event>, window: int, k: nat, cleanup: bool): Entries
    requires k <= |events|
  {
    if k == 0 then map[]
    else
      var before := EntriesAt(events, window, k - 1, cleanup);
      match events[k - 1]
      case Use(n, t1, t2) => CheckAndStored(before, window, n, t1, t2).1
      case Visit(key, now, _) => if cleanup then Visited(before, key, now) else before
      case Other(_) => before
  }

  /** Whether event k is a use that the store calls new. */
  predicate Accepted(events: seq<Event>, window: int, k: nat, cleanup: bool)
    requires k < |events|
  {
    && events[k].Use?
    && CheckAndStored(EntriesAt(events, window, k, cleanup), window, events[k].nonce,
                      events[k].expiryClock, events[k].checkClock).0
  }

  /** What cleanup deleted had already expired. */
  ghost predicate OnlyExpiredMissing(kept: Entries, all: Entries, clock: int) {
    && (forall n :: n in kept ==> n in all && kept[n] == all[n])
    && (forall n :: n in all && n !in kept ==> all[n] < clock)
  }

  lemma {:induction false} CleanupDropsOnlyExpired(events: seq<Event>, window: int, k: nat, clock: int)
    requires Serialised(events) && k <= |events|
    requires forall i :: 0 <= i < k ==> Ends(events[i]) <= clock
    ensures OnlyExpiredMissing(EntriesAt(events, window, k, true), EntriesAt(events, window, k, false), clock)
  {
    if k > 0 {
      CleanupDropsOnlyExpired(events, window, k - 1, Begins(events[k - 1]));
    }
  }

  /** Cleanup is invisible: whenever and in whatever order the keys are visited,
      every CheckAndStore answers as a store that never deletes anything would. */
  lemma CleanupInvisible(events: seq<Event>, window: int, k: nat)
    requires Serialised(events) && k < |events|
    ensures Accepted(events, window, k, true) <==> Accepted(events, window, k, false)
  {
    CleanupDropsOnlyExpired(events, window, k, Begins(events[k]));
  }

  lemma {:induction false} ExpiryAfterUse(events: seq<Event>, window: int, i: nat, k: nat)
    requires Serialised(events) && i < k <= |events| && Accepted(events, window, i, false)
    ensures var e, n := EntriesAt(events, window, k, false), events[i].nonce;
      n in e && e[n] >= events[i].expiryClock + window
  {
    if i + 1 < k {
      ExpiryAfterUse(events, window, i, k - 1);
      assert Ends(events[i]) <= Begins(events[k - 1]);
    }
  }

  /** Two accepted uses of one nonce are at least the window apart. */
  lemma AcceptedUsesAreApart(events: seq<Event>, window: int, i: nat, j: nat)
    requires Serialised(events) && i < j < |events|
    requires Accepted(events, window, i, true) && Accepted(events, window, j, true)
    requires events[i].nonce == events[j].nonce
    ensures events[j].checkClock >= events[i].expiryClock + window
  {
    CleanupInvisible(events, window, i);
    CleanupInvisible(events, window, j);
    ExpiryAfterUse(events, window, i, j);
  }

  lemma {:induction false} EntryHasAcceptedUse(events: seq<Event>, window: int, k: nat, n: string) returns (i: nat)
    requires k <= |events| && n in EntriesAt(events, window, k, true)
    ensures i < k && Accepted(events, window, i, true) && events[i].nonce == n
    ensures EntriesAt(events, window, k, true)[n] == events[i].expiryClock + window
  {
    if k > 0 {
      if Accepted(events, window, k - 1, true) && events[k - 1].nonce == n {
        i := k - 1;
      } else {
        i := EntryHasAcceptedUse(events, window, k - 1, n);
      }
    }
  }

  /** A use is refused exactly when an accepted use of the same nonce has not yet
      run out; in particular a nonce never used before is new, whatever others do. */
  lemma RefusedExactlyWhen(events: seq<Event>, window: int, k: nat)
    requires Serialised(events) && k < |events| && events[k].Use?
    ensures !Accepted(events, window, k, true) <==>
      exists i :: 0 <= i < k && Accepted(events, window, i, true) && events[i].nonce == events[k].nonce
                  && events[k].checkClock < events[i].expiryClock + window
  {
    if !Accepted(events, window, k, true) {
      var i := EntryHasAcceptedUse(events, window, k, events[k].nonce);
      assert Accepted(events, window, i, true);
    } else {
      forall i | 0 <= i < k && Accepted(events, window, i, true) && events[i].nonce == events[k].nonce
        ensures events[k].checkClock >= events[i].expiryClock + window
      {
        AcceptedUsesAreApart(events, window, i, k);
      }
    }
  }

  /** Right after a complete cleanup the map holds exactly the entries it held
      that some accepted use made within the last window. */
  lemma SweptHoldsRecentNonces(events: seq<Event>, window: int, k: nat, now: int, n: string)
    requires k <= |events|
    ensures n in Swept(EntriesAt(events, window, k, true), now) <==>
      n in EntriesAt(events, window, k, true) &&
      exists i :: 0 <= i < k && Accepted(events, window, i, true) && events[i].nonce == n
                  && EntriesAt(events, window, k, true)[n] == events[i].expiryClock + window
                  && now - window <= events[i].expiryClock
  {
    if n in EntriesAt(events, window, k, true) {
      var i := EntryHasAcceptedUse(events, window, k, n);
      assert Accepted(events, window, i, true);
    }
  }

  // A tick spread over a stretch of the run.

  /** Events i..k are a tick of the cleanup loop with the reading `now`, among
      uses of the store: every key there at the start is visited with that
      reading, and no other tick read a later time before. */
  ghost predicate Tick(events: seq<Event>, window: int, i: nat, k: nat, now: int)
    requires i <= k <= |events|
  {
    && (forall v :: i <= v < k ==> now <= Begins(events[v]))
    && (forall v :: 0 <= v < k && events[v].Visit? ==> events[v].now <= now)
    && (forall n :: n in EntriesAt(events, window, i, true) ==> VisitedIn(events, i, k, n, now))
  }

  ghost predicate VisitedIn(events: seq<Event>, i: nat, k: nat, n: string, now: int)
    requires i <= k <= |events|
  {
    exists v :: i <= v < k && events[v].Visit? && events[v].key == n && events[v].now == now
  }

  /** Once a key was absent or visited, its entry is not yet due for that reading. */
  lemma {:induction false} NotDueAfter(events: seq<Event>, window: int, v: nat, k: nat, now: int, n: string)
    requires window >= 0 && v <= k <= |events|
    requires forall m :: v <= m < k ==> now <= Begins(events[m])
    requires n in EntriesAt(events, window, v, true) ==> now <= EntriesAt(events, window, v, true)[n]
    ensures n in EntriesAt(events, window, k, true) ==> now <= EntriesAt(events, window, k, true)[n]
  {
    if v < k {
      NotDueAfter(events, window, v, k - 1, now, n);
    }
  }

  lemma {:induction false} KeptUntilDue(events: seq<Event>, window: int, u: nat, k: nat, now: int)
    requires Serialised(events) && u < k <= |events| && Accepted(events, window, u, true)
    requires forall v :: 0 <= v < k && events[v].Visit? ==> events[v].now <= now
    requires now <= events[u].expiryClock + window
    ensures var n, m := events[u].nonce, EntriesAt(events, window, k, true);
      n in m && m[n] >= events[u].expiryClock + window
  {
    if u + 1 < k {
      KeptUntilDue(events, window, u, k - 1, now);
      assert Ends(events[u]) <= Begins(events[k - 1]);
    }
  }

  /** What is left after a tick is not yet due for its reading. */
  lemma TickLeavesNothingDue(events: seq<Event>, window: int, i: nat, k: nat, now: int, n: string)
    requires Serialised(events) && window >= 0 && i <= k <= |events| && Tick(events, window, i, k, now)
    requires n in EntriesAt(events, window, k, true)
    ensures now <= EntriesAt(events, window, k, true)[n]
  {
    if n in EntriesAt(events, window, i, true) {
      assert VisitedIn(events, i, k, n, now);
      var v :| i <= v < k && events[v].Visit? && events[v].key == n && events[v].now == now;
      var after := v + 1;
      assert n in EntriesAt(events, window, after, true) ==> now <= EntriesAt(events, window, after, true)[n];
      NotDueAfter(events, window, after, k, now, n);
    } else {
      NotDueAfter(events, window, i, k, now, n);
    }
  }

  /** After a tick, however uses came between its visits, the map holds exactly
      the nonces accepted at most a window before the tick read the clock, or since. */
  lemma TickLeavesRecentNonces(events: seq<Event>, window: int, i: nat, k: nat, now: int, n: string)
    requires Serialised(events) && window >= 0 && i <= k <= |events| && Tick(events, window, i, k, now)
    ensures n in EntriesAt(events, window, k, true) <==>
      exists u :: 0 <= u < k && Accepted(events, window, u, true) && events[u].nonce == n
                  && now - window <= events[u].expiryClock
  {
    if n in EntriesAt(events, window, k, true) {
      TickLeavesNothingDue(events, window, i, k, now, n);
      var u := EntryHasAcceptedUse(events, window, k, n);
      assert Accepted(events, window, u, true);
    }
    forall u | 0 <= u < k && Accepted(events, window, u, true) && events[u].nonce == n
               && now - window <= events[u].expiryClock
      ensures n in EntriesAt(events, window, k, true)
    {
      KeptUntilDue(events, window, u, k, now);
    }
  }
}
