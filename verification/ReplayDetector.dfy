/** The replay detector middleware (internal/security/replay.go): its decision
    for one request, and how often one signed (nonce, timestamp) pair can pass. */
module ReplayDetection {
  import opened Wrappers
  import opened NonceStores

  datatype Config = Config(enabled: bool, policy: string, nonceSource: string, window: int, clockSkew: int)

  /** The request body as far as the detector looks at it: unreadable, or the
      nonce extracted from its JSON-RPC id ("" when there is none). */
  datatype Body = Unreadable | Readable(idNonce: string)

  /** The X-Sentinel-Timestamp header after parsing. */
  datatype Stamp = Missing | Malformed | At(ts: int)

  datatype Request = Request(httpMethod: string, contentType: string, headerNonce: string, body: Body, stamp: Stamp)

  datatype Outcome = Passed | Refused(code: int, message: string)

  /** The clock readings of one request, in the order they are taken. */
  datatype Clocks = Clocks(processing: int, expiry: int, checking: int)

  const UNREADABLE := Refused(400, "Failed to read request body for replay detection")
  const NO_NONCE := Refused(400, "Missing replay nonce")
  const BAD_TIMESTAMP := Refused(429, "Invalid replay timestamp")
  const REPLAY := Refused(429, "Replay attack detected")

  predicate Inspected(cfg: Config, r: Request) {
    && cfg.enabled && r.httpMethod == "POST"
    && r.contentType in ["", "application/json", "application/json; charset=utf-8", "application/json;charset=utf-8"]
  }

  /** The nonce, "" for none; None when the body had to be read and could not be. */
  function NonceOf(cfg: Config, r: Request): Option<string> {
    var fromBody := match r.body case Unreadable => None case Readable(n) => Some(n);
    if cfg.nonceSource == "header" then Some(r.headerNonce)
    else if cfg.nonceSource == "jsonrpc-id" then fromBody
    else if r.headerNonce == "" then fromBody
    else Some(r.headerNonce)
  }

  /** Past stamps are checked against the window, future ones against the skew. */
  predicate FreshStamp(cfg: Config, stamp: Stamp, now: int) {
    match stamp
    case Missing => true
    case Malformed => false
    case At(ts) => now - ts <= cfg.window && ts - now <= cfg.clockSkew
  }

  predicate ReachesStore(cfg: Config, r: Request, now: int) {
    && Inspected(cfg, r) && NonceOf(cfg, r).Some? && NonceOf(cfg, r).value != ""
    && FreshStamp(cfg, r.stamp, now)
  }

  /** Why a request that never reaches the store is refused in require mode. */
  function Complaint(cfg: Config, r: Request): Outcome {
    if NonceOf(cfg, r).None? then UNREADABLE
    else if NonceOf(cfg, r).value == "" then NO_NONCE
    else if r.stamp.Malformed? then BAD_TIMESTAMP
    else REPLAY
  }

  function Processed(cfg: Config, entries: Entries, r: Request, c: Clocks): (Outcome, Entries) {
    if !Inspected(cfg, r) then (Passed, entries)
    else if !ReachesStore(cfg, r, c.processing) then
      (if cfg.policy == "require" then Complaint(cfg, r) else Passed, entries)
    else
      var (isNew, after) := CheckAndStored(entries, cfg.window, NonceOf(cfg, r).value, c.expiry, c.checking);
      (if isNew || cfg.policy != "require" then Passed else REPLAY, after)
  }

  class ReplayDetector {
    const cfg: Config
    const store: MemoryNonceStore

    constructor (cfg: Config)
      ensures this.cfg == cfg.(nonceSource := if cfg.nonceSource == "" then "auto" else cfg.nonceSource)
      ensures fresh(store) && store.window == cfg.window && store.entries == map[]
    {
      this.cfg := cfg.(nonceSource := if cfg.nonceSource == "" then "auto" else cfg.nonceSource);
      store := new MemoryNonceStore(cfg.window);
    }

    method RefuseIfRequired(complaint: Outcome) returns (outcome: Outcome)
      ensures outcome == if cfg.policy == "require" then complaint else Passed
    {
      if cfg.policy == "require" {
        return complaint;
      }
      outcome := Passed;
    }

    method Process(r: Request, c: Clocks) returns (outcome: Outcome)
      requires store.window == cfg.window
      modifies store
      ensures (outcome, store.entries) == Processed(cfg, old(store.entries), r, c)
    {
      if !cfg.enabled {
        return Passed;
      }
      if r.httpMethod != "POST" {
        return Passed;
      }
      var ct := r.contentType;
      if ct != "" && ct != "application/json" && ct != "application/json; charset=utf-8"
         && ct != "application/json;charset=utf-8" {
        return Passed;
      }
      var nonce := "";
      if cfg.nonceSource == "header" {
        nonce := r.headerNonce;
      } else if cfg.nonceSource == "jsonrpc-id" {
        if r.body.Unreadable? {
          outcome := RefuseIfRequired(UNREADABLE);
          return;
        }
        nonce := r.body.idNonce;
      } else {
        nonce := r.headerNonce;
        if nonce == "" {
          if r.body.Unreadable? {
            outcome := RefuseIfRequired(UNREADABLE);
            return;
          }
          nonce := r.body.idNonce;
        }
      }
      if nonce == "" {
        outcome := RefuseIfRequired(NO_NONCE);
        return;
      }
      if r.stamp.Malformed? {
        outcome := RefuseIfRequired(BAD_TIMESTAMP);
        return;
      }
      if r.stamp.At? {
        if c.processing - r.stamp.ts > cfg.window {
          outcome := RefuseIfRequired(REPLAY);
          return;
        }
        if r.stamp.ts - c.processing > cfg.clockSkew {
          outcome := RefuseIfRequired(REPLAY);
          return;
        }
      }
      var isNew := store.CheckAndStore(nonce, c.expiry, c.checking);
      if !isNew {
        outcome := RefuseIfRequired(REPLAY);
        return;
      }
      outcome := Passed;
    }
  }

  // Whole runs of one detector.

  datatype Arrival = Arrival(request: Request, clocks: Clocks) | CleanupVisit(key: string, now: int, at: int)

  /** What an arrival is for the store. */
  function AtStore(cfg: Config, e: Arrival): Event {
    match e
    case CleanupVisit(key, now, at) => Visit(key, now, at)
    case Arrival(r, c) =>
      if ReachesStore(cfg, r, c.processing) then Use(NonceOf(cfg, r).value, c.expiry, c.checking)
      else Other(c.checking)
  }

  function AtStoreAll(cfg: Config, run: seq<Arrival>): (es: seq<Event>)
    ensures |es| == |run| && forall i :: 0 <= i < |run| ==> es[i] == AtStore(cfg, run[i])
  {
    seq(|run|, i requires 0 <= i < |run| => AtStore(cfg, run[i]))
  }

  function First(e: Arrival): int {
    if e.Arrival? then e.clocks.processing else e.at
  }

  function Last(e: Arrival): int {
    if e.Arrival? then e.clocks.checking else e.at
  }

  /** One request or cleanup visit after the other, on a clock that never goes back. */
  ghost predicate InOrder(run: seq<Arrival>) {
    && (forall i :: 0 <= i < |run| && run[i].Arrival? ==>
          run[i].clocks.processing <= run[i].clocks.expiry <= run[i].clocks.checking)
    && (forall i :: 0 <= i < |run| && run[i].CleanupVisit? ==> run[i].now <= run[i].at)
    && (forall i, j :: 0 <= i < j < |run| ==> Last(run[i]) <= First(run[j]))
  }

  /** Each request takes no time: its clock readings agree. */
  ghost predicate Instant(run: seq<Arrival>) {
    forall i :: 0 <= i < |run| && run[i].Arrival? ==>
      run[i].clocks.processing == run[i].clocks.expiry == run[i].clocks.checking
  }

  function OutcomeAt(cfg: Config, run: seq<Arrival>, k: nat): Outcome
    requires k < |run| && run[k].Arrival?
  {
    Processed(cfg, EntriesAt(AtStoreAll(cfg, run), cfg.window, k, true), run[k].request, run[k].clocks).0
  }

  /** Arrival k carries this nonce and this timestamp header, and is let through. */
  predicate Admitted(cfg: Config, run: seq<Arrival>, nonce: string, ts: int, k: nat)
    requires k < |run|
  {
    && run[k].Arrival? && Inspected(cfg, run[k].request)
    && NonceOf(cfg, run[k].request) == Some(nonce) && run[k].request.stamp == At(ts)
    && OutcomeAt(cfg, run, k) == Passed
  }

  function Admissions(cfg: Config, run: seq<Arrival>, nonce: string, ts: int, k: nat): nat
    requires k <= |run|
  {
    if k == 0 then 0
    else Admissions(cfg, run, nonce, ts, k - 1) + if Admitted(cfg, run, nonce, ts, k - 1) then 1 else 0
  }

  lemma InOrderIsSerialised(cfg: Config, run: seq<Arrival>)
    requires InOrder(run)
    ensures Serialised(AtStoreAll(cfg, run))
  {
    var es := AtStoreAll(cfg, run);
    forall i | 0 <= i < |run|
      ensures First(run[i]) <= Begins(es[i]) && Ends(es[i]) == Last(run[i])
    {
    }
  }

  lemma AdmittedMeans(cfg: Config, run: seq<Arrival>, nonce: string, ts: int, k: nat)
    requires InOrder(run) && cfg.policy == "require" && k < |run| && Admitted(cfg, run, nonce, ts, k)
    ensures var c := run[k].clocks;
      && AtStore(cfg, run[k]) == Use(nonce, c.expiry, c.checking)
      && Accepted(AtStoreAll(cfg, run), cfg.window, k, true)
      && ts - cfg.clockSkew <= c.processing <= ts + cfg.window
  {
  }

  // Which requests pass.

  /** Under any policy but "require", the default "warn" among them, every request
      on every run passes. */
  lemma OnlyRequireRefuses(cfg: Config, run: seq<Arrival>, k: nat)
    requires cfg.policy != "require" && k < |run| && run[k].Arrival?
    ensures OutcomeAt(cfg, run, k) == Passed
  {
  }

  /** The detector looks at the request at all: a JSON POST. */
  predicate LooksAt(cfg: Config, r: Request) {
    && cfg.enabled && r.httpMethod == "POST"
    && (r.contentType == "" || r.contentType == "application/json"
        || r.contentType == "application/json; charset=utf-8" || r.contentType == "application/json;charset=utf-8")
  }

  /** The request offers this nonce where the configuration has it looked up: in
      the header only, in the body only, or in the header and else in the body. */
  predicate Offers(cfg: Config, r: Request, nonce: string) {
    && nonce != ""
    && (cfg.nonceSource == "header" ==> nonce == r.headerNonce)
    && (cfg.nonceSource == "jsonrpc-id" ==> r.body == Readable(nonce))
    && (cfg.nonceSource != "header" && cfg.nonceSource != "jsonrpc-id" ==>
          if r.headerNonce != "" then nonce == r.headerNonce else r.body == Readable(nonce))
  }

  /** An earlier request with this nonce was let through, and its window has not
      passed when this one is checked. */
  ghost predicate Repeated(cfg: Config, run: seq<Arrival>, k: nat, nonce: string)
    requires k < |run| && run[k].Arrival?
  {
    exists i :: 0 <= i < k && run[i].Arrival? && LooksAt(cfg, run[i].request) && Offers(cfg, run[i].request, nonce)
                && OutcomeAt(cfg, run, i) == Passed
                && run[k].clocks.checking < run[i].clocks.expiry + cfg.window
  }

  lemma NonceIsOffered(cfg: Config, r: Request, nonce: string)
    ensures Offers(cfg, r, nonce) <==> nonce != "" && NonceOf(cfg, r) == Some(nonce)
    ensures LooksAt(cfg, r) <==> Inspected(cfg, r)
  {
  }

  /** In require mode, on every run: a request passes exactly when the detector does
      not look at it, or it offers a nonce, its timestamp, if it has one, is at most
      a window old and at most the clock skew ahead, and the nonce is not repeated. */
  lemma PassesExactlyWhen(cfg: Config, run: seq<Arrival>, k: nat)
    requires InOrder(run) && cfg.policy == "require" && k < |run| && run[k].Arrival?
    ensures var r, now := run[k].request, run[k].clocks.processing;
      OutcomeAt(cfg, run, k) == Passed <==>
      || !LooksAt(cfg, r)
      || (&& (r.stamp == Missing || (r.stamp.At? && -cfg.clockSkew <= now - r.stamp.ts <= cfg.window))
          && exists nonce :: Offers(cfg, r, nonce) && !Repeated(cfg, run, k, nonce))
  {
    var r := run[k].request;
    forall nonce
      ensures Offers(cfg, r, nonce) <==> nonce != "" && NonceOf(cfg, r) == Some(nonce)
    {
      NonceIsOffered(cfg, r, nonce);
    }
    if ReachesStore(cfg, r, run[k].clocks.processing) {
      PassesWhenNotRepeated(cfg, run, k);
      var nonce := NonceOf(cfg, r).value;
      assert Offers(cfg, r, nonce);
    }
  }

  lemma PassesWhenNotRepeated(cfg: Config, run: seq<Arrival>, k: nat)
    requires InOrder(run) && cfg.policy == "require" && k < |run| && run[k].Arrival?
    requires ReachesStore(cfg, run[k].request, run[k].clocks.processing)
    ensures OutcomeAt(cfg, run, k) == Passed <==> !Repeated(cfg, run, k, NonceOf(cfg, run[k].request).value)
  {
    var es, nonce := AtStoreAll(cfg, run), NonceOf(cfg, run[k].request).value;
    InOrderIsSerialised(cfg, run);
    RefusedExactlyWhen(es, cfg.window, k);
    forall i | 0 <= i < k
      ensures Accepted(es, cfg.window, i, true) && es[i].nonce == nonce <==>
        run[i].Arrival? && LooksAt(cfg, run[i].request) && Offers(cfg, run[i].request, nonce)
        && OutcomeAt(cfg, run, i) == Passed
      ensures Accepted(es, cfg.window, i, true) ==> run[i].Arrival? && es[i].expiryClock == run[i].clocks.expiry
    {
      AcceptedIsPassed(cfg, run, i, nonce);
    }
  }

  lemma AcceptedIsPassed(cfg: Config, run: seq<Arrival>, i: nat, nonce: string)
    requires cfg.policy == "require" && i < |run| && nonce != ""
    ensures var es := AtStoreAll(cfg, run);
      && (Accepted(es, cfg.window, i, true) && es[i].nonce == nonce <==>
            run[i].Arrival? && LooksAt(cfg, run[i].request) && Offers(cfg, run[i].request, nonce)
            && OutcomeAt(cfg, run, i) == Passed)
      && (Accepted(es, cfg.window, i, true) ==> run[i].Arrival? && es[i].expiryClock == run[i].clocks.expiry)
  {
    if run[i].Arrival? {
      NonceIsOffered(cfg, run[i].request, nonce);
    }
  }

  /** The body was to be searched for the nonce and could not be read. */
  predicate BodyUnreadable(cfg: Config, r: Request) {
    r.body.Unreadable? && cfg.nonceSource != "header" && (cfg.nonceSource == "jsonrpc-id" || r.headerNonce == "")
  }

  /** A refusal is a 400 exactly when the request offers no nonce, else a 429, and
      names its reason. */
  lemma RefusalTellsWhy(cfg: Config, run: seq<Arrival>, k: nat)
    requires k < |run| && run[k].Arrival? && OutcomeAt(cfg, run, k) != Passed
    ensures var r := run[k].request;
      OutcomeAt(cfg, run, k) ==
        if exists nonce :: Offers(cfg, r, nonce) then
          Refused(429, if r.stamp.Malformed? then "Invalid replay timestamp" else "Replay attack detected")
        else if BodyUnreadable(cfg, r) then Refused(400, "Failed to read request body for replay detection")
        else Refused(400, "Missing replay nonce")
  {
    var r := run[k].request;
    forall nonce
      ensures Offers(cfg, r, nonce) <==> nonce != "" && NonceOf(cfg, r) == Some(nonce)
    {
      NonceIsOffered(cfg, r, nonce);
    }
    if NonceOf(cfg, r).Some? && NonceOf(cfg, r).value != "" {
      assert Offers(cfg, r, NonceOf(cfg, r).value);
    }
  }

  /** Two admissions of one pair: the later one spent at least as long between its
      first and its last clock reading as the earlier one was past its timestamp.
      So an admission later than its timestamp is the last one of requests that
      take no time. */
  lemma LateAdmissionIsLast(cfg: Config, run: seq<Arrival>, nonce: string, ts: int, i: nat, j: nat)
    requires InOrder(run) && cfg.policy == "require" && i < j < |run|
    requires Admitted(cfg, run, nonce, ts, i) && Admitted(cfg, run, nonce, ts, j)
    ensures Lateness(run[i], ts) <= Delay(run[j])
    ensures Instant(run) ==> First(run[i]) <= ts
  {
    InOrderIsSerialised(cfg, run);
    AdmittedMeans(cfg, run, nonce, ts, i);
    AdmittedMeans(cfg, run, nonce, ts, j);
    AcceptedUsesAreApart(AtStoreAll(cfg, run), cfg.window, i, j);
  }

  /** How far past its timestamp a request read the clock for the new expiry. */
  function Lateness(e: Arrival, ts: int): int
    requires e.Arrival?
  {
    e.clocks.expiry - ts
  }

  function Delay(e: Arrival): int
    requires e.Arrival?
  {
    e.clocks.checking - e.clocks.processing
  }

  // How often one pair can pass.

  /** No request spends more than d between its first and its last clock reading. */
  ghost predicate DelayedAtMost(run: seq<Arrival>, d: int) {
    forall i :: 0 <= i < |run| && run[i].Arrival? ==> Delay(run[i]) <= d
  }

  /** The earliest, from the first acceptable time on, that admission number n,
      from zero, can read the clock first when no request is delayed more than d:
      its last reading comes a window after its predecessor's, and it begins when
      its predecessor, checked a window after the one before, has ended. */
  function Earliest(w: int, d: nat, n: nat): int {
    if n == 0 then 0
    else if n == 1 then Later(0, w - d)
    else Later(Earliest(w, d, n - 1) + w - d, Earliest(w, d, n - 2) + w)
  }

  function Later(a: int, b: int): int {
    if a >= b then a else b
  }

  /** When the last of c admissions is over. */
  function Over(w: int, d: nat, c: nat): int
    requires c > 0
  {
    if c == 1 then 0 else Earliest(w, d, c - 2) + w
  }

  lemma {:induction false} EarliestGrows(w: int, d: nat, n: nat)
    requires w > 0
    ensures Earliest(w, d, n) <= Earliest(w, d, n + 1) <= Earliest(w, d, n) + w
  {
    if n > 0 {
      EarliestGrows(w, d, n - 1);
    }
  }

  lemma {:induction false} EarliestMonotone(w: int, d: nat, m: nat, n: nat)
    requires w > 0 && m <= n
    ensures 0 <= Earliest(w, d, m) <= Earliest(w, d, n)
  {
    if n > 0 {
      EarliestGrows(w, d, n - 1);
      EarliestMonotone(w, d, if m < n then m else n - 1, n - 1);
    }
  }

  /** A delay of at most half a window is gained with every admission; a longer one
      only with every second, for then every other admission has to wait for the
      end of the delayed one before. */
  lemma {:induction false} EarliestInClosedForm(w: int, d: nat, n: nat)
    requires w > 0
    ensures Earliest(w, d, n) ==
      if 2 * d <= w then n * (w - d)
      else (n / 2) * w + if n % 2 == 1 && d < w then w - d else 0
  {
    if n > 1 {
      EarliestInClosedForm(w, d, n - 1);
      EarliestInClosedForm(w, d, n - 2);
      if 2 * d <= w {
        assert (n - 1) * (w - d) == n * (w - d) - (w - d);
        assert (n - 2) * (w - d) == n * (w - d) - 2 * (w - d);
      } else {
        assert (n - 2) / 2 == n / 2 - 1 && (n - 2) % 2 == n % 2;
        assert (n / 2 - 1) * w == (n / 2) * w - w;
        assert (n - 1) / 2 == if n % 2 == 1 then n / 2 else n / 2 - 1;
      }
    }
  }

  /** What c admissions so far imply for the nonce's expiry and for the clock. */
  ghost predicate Advanced(cfg: Config, run: seq<Arrival>, nonce: string, ts: int, k: nat, d: nat)
    requires k <= |run|
  {
    var c := Admissions(cfg, run, nonce, ts, k);
    var e := EntriesAt(AtStoreAll(cfg, run), cfg.window, k, false);
    var start := ts - cfg.clockSkew;
    c > 0 ==>
      && nonce in e && e[nonce] >= start + Earliest(cfg.window, d, c - 1) + cfg.window
      && forall i :: k <= i < |run| ==> First(run[i]) >= start + Over(cfg.window, d, c)
  }

  lemma AdmissionAtStore(cfg: Config, run: seq<Arrival>, nonce: string, ts: int, k: nat)
    requires InOrder(run) && cfg.policy == "require" && k < |run| && Admitted(cfg, run, nonce, ts, k)
    ensures var e, e' := EntriesAt(AtStoreAll(cfg, run), cfg.window, k, false),
                         EntriesAt(AtStoreAll(cfg, run), cfg.window, k + 1, false);
      && (nonce in e ==> e[nonce] <= run[k].clocks.checking)
      && nonce in e' && e'[nonce] == run[k].clocks.expiry + cfg.window
      && ts - cfg.clockSkew <= First(run[k]) <= ts + cfg.window
  {
    InOrderIsSerialised(cfg, run);
    AdmittedMeans(cfg, run, nonce, ts, k);
    CleanupInvisible(AtStoreAll(cfg, run), cfg.window, k);
  }

  /** One admission's arithmetic: it begins when the one before is over, and reads
      the clock last when the old expiry has passed. */
  lemma OneMoreAdmission(w: int, d: nat, c: nat, start: int, x: Clocks, oldExpiry: int)
    requires w > 0 && x.processing <= x.expiry <= x.checking <= x.processing + d && x.processing >= start
    requires c > 0 ==> x.processing >= start + Over(w, d, c)
    requires c > 0 ==> x.checking >= oldExpiry >= start + Earliest(w, d, c - 1) + w
    ensures x.processing >= start + Earliest(w, d, c)
    ensures x.checking >= start + Over(w, d, c + 1)
  {
  }

  lemma AdmissionAdvances(cfg: Config, run: seq<Arrival>, nonce: string, ts: int, k: nat, d: nat)
    requires InOrder(run) && DelayedAtMost(run, d) && cfg.policy == "require" && cfg.window > 0 && k < |run|
    requires Advanced(cfg, run, nonce, ts, k, d) && Admitted(cfg, run, nonce, ts, k)
    ensures Advanced(cfg, run, nonce, ts, k + 1, d)
    ensures Earliest(cfg.window, d, Admissions(cfg, run, nonce, ts, k)) <= cfg.window + cfg.clockSkew
  {
    var c, e := Admissions(cfg, run, nonce, ts, k), EntriesAt(AtStoreAll(cfg, run), cfg.window, k, false);
    AdmissionAtStore(cfg, run, nonce, ts, k);
    assert Delay(run[k]) <= d;
    OneMoreAdmission(cfg.window, d, c, ts - cfg.clockSkew, run[k].clocks, if c > 0 then e[nonce] else 0);
    assert Admissions(cfg, run, nonce, ts, k + 1) == c + 1;
    assert forall i :: k + 1 <= i < |run| ==> First(run[i]) >= Last(run[k]);
  }

  lemma OtherArrivalKeeps(cfg: Config, run: seq<Arrival>, nonce: string, ts: int, k: nat, d: nat)
    requires InOrder(run) && cfg.window > 0 && k < |run|
    requires Advanced(cfg, run, nonce, ts, k, d) && !Admitted(cfg, run, nonce, ts, k)
    ensures Advanced(cfg, run, nonce, ts, k + 1, d)
  {
    var c := Admissions(cfg, run, nonce, ts, k);
    if c > 1 {
      EarliestGrows(cfg.window, d, c - 2);
    }
    if c > 0 {
      assert First(run[k]) >= ts - cfg.clockSkew + Earliest(cfg.window, d, c - 1);
    }
  }

  /** No more than n admissions if admission number n would come too late. */
  lemma {:induction false} AdmissionsAtMost(cfg: Config, run: seq<Arrival>, nonce: string, ts: int, k: nat,
                                          d: nat, n: nat)
    requires InOrder(run) && DelayedAtMost(run, d) && cfg.policy == "require" && cfg.window > 0 && k <= |run|
    requires Earliest(cfg.window, d, n) > cfg.window + cfg.clockSkew
    ensures Advanced(cfg, run, nonce, ts, k, d)
    ensures Admissions(cfg, run, nonce, ts, k) <= n
  {
    if k == 0 {
      assert Admissions(cfg, run, nonce, ts, 0) == 0;
    } else {
      var before := k - 1;
      AdmissionsAtMost(cfg, run, nonce, ts, before, d, n);
      ArrivalKeepsBound(cfg, run, nonce, ts, before, d, n);
    }
  }

  lemma ArrivalKeepsBound(cfg: Config, run: seq<Arrival>, nonce: string, ts: int, k: nat, d: nat, n: nat)
    requires InOrder(run) && DelayedAtMost(run, d) && cfg.policy == "require" && cfg.window > 0 && k < |run|
    requires Earliest(cfg.window, d, n) > cfg.window + cfg.clockSkew
    requires Advanced(cfg, run, nonce, ts, k, d) && Admissions(cfg, run, nonce, ts, k) <= n
    ensures Advanced(cfg, run, nonce, ts, k + 1, d)
    ensures Admissions(cfg, run, nonce, ts, k + 1) <= n
  {
    if Admitted(cfg, run, nonce, ts, k) {
      AdmissionAdvances(cfg, run, nonce, ts, k, d);
    } else {
      OtherArrivalKeeps(cfg, run, nonce, ts, k, d);
    }
  }

  // One request sent again and again.

  /** A request that carries the pair, inspected in require mode. */
  predicate Carries(cfg: Config, r: Request, nonce: string, ts: int) {
    && cfg.policy == "require" && cfg.window > 0 && nonce != ""
    && Inspected(cfg, r) && NonceOf(cfg, r) == Some(nonce) && r.stamp == At(ts)
  }

  function Sent(r: Request, cs: seq<Clocks>): (run: seq<Arrival>)
    ensures |run| == |cs| && forall i :: 0 <= i < |cs| ==> run[i] == Arrival(r, cs[i])
  {
    seq(|cs|, i requires 0 <= i < |cs| => Arrival(r, cs[i]))
  }

  /** Clock readings in order, each first one acceptable, and each last one when the
      entry made before has run out. */
  ghost predicate Passes(cfg: Config, ts: int, cs: seq<Clocks>) {
    && (forall i :: 0 <= i < |cs| ==> cs[i].processing <= cs[i].expiry <= cs[i].checking)
    && (forall i :: 0 <= i < |cs| ==> ts - cfg.clockSkew <= cs[i].processing <= ts + cfg.window)
    && (forall i, j :: 0 <= i < j < |cs| ==> cs[i].checking <= cs[j].processing)
    && (forall i, j :: 0 <= i && i + 1 == j < |cs| ==> cs[j].checking >= cs[i].expiry + cfg.window)
  }

  /** The store after k of them. */
  function AfterSent(w: int, nonce: string, cs: seq<Clocks>, k: nat): Entries
    requires k <= |cs|
  {
    if k == 0 then map[] else map[nonce := cs[k - 1].expiry + w]
  }

  lemma SentPasses(cfg: Config, r: Request, nonce: string, ts: int, cs: seq<Clocks>, k: nat)
    requires Carries(cfg, r, nonce, ts) && Passes(cfg, ts, cs) && k < |cs|
    ensures ReachesStore(cfg, r, cs[k].processing)
    ensures Processed(cfg, AfterSent(cfg.window, nonce, cs, k), r, cs[k])
         == (Passed, AfterSent(cfg.window, nonce, cs, k + 1))
  {
    if k > 0 {
      assert cs[k].checking >= cs[k - 1].expiry + cfg.window;
    }
    var e := cs[k].expiry + cfg.window;
    assert AfterSent(cfg.window, nonce, cs, k)[nonce := e] == map[nonce := e];
  }

  lemma SentStep(cfg: Config, r: Request, nonce: string, ts: int, cs: seq<Clocks>, k: nat)
    requires Carries(cfg, r, nonce, ts) && Passes(cfg, ts, cs) && k < |cs|
    requires EntriesAt(AtStoreAll(cfg, Sent(r, cs)), cfg.window, k, true) == AfterSent(cfg.window, nonce, cs, k)
    ensures Admitted(cfg, Sent(r, cs), nonce, ts, k)
    ensures EntriesAt(AtStoreAll(cfg, Sent(r, cs)), cfg.window, k + 1, true) == AfterSent(cfg.window, nonce, cs, k + 1)
  {
    SentPasses(cfg, r, nonce, ts, cs, k);
    assert Sent(r, cs)[k] == Arrival(r, cs[k]);
  }

  lemma {:induction false} SentStore(cfg: Config, r: Request, nonce: string, ts: int, cs: seq<Clocks>, k: nat)
    requires Carries(cfg, r, nonce, ts) && Passes(cfg, ts, cs) && k <= |cs|
    ensures EntriesAt(AtStoreAll(cfg, Sent(r, cs)), cfg.window, k, true) == AfterSent(cfg.window, nonce, cs, k)
  {
    if k > 0 {
      SentStore(cfg, r, nonce, ts, cs, k - 1);
      SentStep(cfg, r, nonce, ts, cs, k - 1);
    }
  }

  lemma SentAdmitted(cfg: Config, r: Request, nonce: string, ts: int, cs: seq<Clocks>, k: nat)
    requires Carries(cfg, r, nonce, ts) && Passes(cfg, ts, cs) && k < |cs|
    ensures Admitted(cfg, Sent(r, cs), nonce, ts, k)
  {
    SentStore(cfg, r, nonce, ts, cs, k);
    SentStep(cfg, r, nonce, ts, cs, k);
  }

  lemma {:induction false} SentCount(cfg: Config, run: seq<Arrival>, nonce: string, ts: int, k: nat)
    requires k <= |run| && forall i :: 0 <= i < k ==> Admitted(cfg, run, nonce, ts, i)
    ensures Admissions(cfg, run, nonce, ts, k) == k
  {
    if k > 0 {
      SentCount(cfg, run, nonce, ts, k - 1);
    }
  }

  lemma SentInOrder(cfg: Config, r: Request, ts: int, cs: seq<Clocks>)
    requires Passes(cfg, ts, cs)
    ensures InOrder(Sent(r, cs))
  {
  }

  /** All of them pass. */
  lemma SentAllAdmitted(cfg: Config, r: Request, nonce: string, ts: int, cs: seq<Clocks>)
    requires Carries(cfg, r, nonce, ts) && Passes(cfg, ts, cs)
    ensures InOrder(Sent(r, cs)) && Admissions(cfg, Sent(r, cs), nonce, ts, |cs|) == |cs|
    ensures forall i :: 0 <= i < |cs| ==> Admitted(cfg, Sent(r, cs), nonce, ts, i)
  {
    SentInOrder(cfg, r, ts, cs);
    var run := Sent(r, cs);
    forall i | 0 <= i < |cs|
      ensures Admitted(cfg, run, nonce, ts, i)
    {
      SentAdmitted(cfg, r, nonce, ts, cs, i);
    }
    SentCount(cfg, run, nonce, ts, |cs|);
  }

  /** The clock readings of admission i when each comes as early as it can. */
  function EarlyClocks(w: int, d: nat, start: int, i: nat): Clocks {
    var t := start + Earliest(w, d, i);
    Clocks(t, t, if i == 0 then t else Later(t, start + Earliest(w, d, i - 1) + w))
  }

  function Early(cfg: Config, ts: int, d: nat, m: nat): (cs: seq<Clocks>)
    ensures |cs| == m
    ensures forall i :: 0 <= i < m ==> cs[i] == EarlyClocks(cfg.window, d, ts - cfg.clockSkew, i)
  {
    seq(m, i requires 0 <= i < m => EarlyClocks(cfg.window, d, ts - cfg.clockSkew, i))
  }

  lemma EarlyInOrder(w: int, d: nat, start: int, i: nat, j: nat)
    requires w > 0 && i < j
    ensures EarlyClocks(w, d, start, i).checking <= EarlyClocks(w, d, start, j).processing
  {
    EarliestMonotone(w, d, i + 1, j);
    EarliestGrows(w, d, i);
  }

  lemma EarlyPasses(cfg: Config, ts: int, d: nat, m: nat)
    requires cfg.window > 0 && (m > 0 ==> Earliest(cfg.window, d, m - 1) <= cfg.window + cfg.clockSkew)
    ensures Passes(cfg, ts, Early(cfg, ts, d, m))
    ensures forall i :: 0 <= i < m ==> Early(cfg, ts, d, m)[i].checking <= Early(cfg, ts, d, m)[i].processing + d
  {
    var cs, start := Early(cfg, ts, d, m), ts - cfg.clockSkew;
    forall i | 0 <= i < m
      ensures start <= cs[i].processing <= ts + cfg.window && cs[i].checking <= cs[i].processing + d
    {
      EarliestMonotone(cfg.window, d, i, m - 1);
    }
    forall i, j | 0 <= i < j < m
      ensures cs[i].checking <= cs[j].processing
    {
      EarlyInOrder(cfg.window, d, start, i, j);
    }
  }

  /** As many admissions as are not too late. */
  lemma EarlyRun(cfg: Config, r: Request, nonce: string, ts: int, d: nat, m: nat)
    requires Carries(cfg, r, nonce, ts)
    requires m > 0 ==> Earliest(cfg.window, d, m - 1) <= cfg.window + cfg.clockSkew
    ensures var run := Sent(r, Early(cfg, ts, d, m));
      && InOrder(run) && DelayedAtMost(run, d) && Admissions(cfg, run, nonce, ts, m) == m
      && forall i :: 0 <= i < m ==> Admitted(cfg, run, nonce, ts, i)
  {
    EarlyPasses(cfg, ts, d, m);
    SentAllAdmitted(cfg, r, nonce, ts, Early(cfg, ts, d, m));
  }

  /** The exact bound, for every delay and every number: with requests delayed at
      most d one pair passes at most n times on every run exactly when admission
      number n, counted from zero, would come too late. */
  lemma AdmissionsAtMostExactlyWhen(cfg: Config, r: Request, nonce: string, ts: int, d: nat, n: nat)
    requires Carries(cfg, r, nonce, ts)
    ensures Earliest(cfg.window, d, n) > cfg.window + cfg.clockSkew <==>
      forall run :: InOrder(run) && DelayedAtMost(run, d) ==> Admissions(cfg, run, nonce, ts, |run|) <= n
  {
    if Earliest(cfg.window, d, n) > cfg.window + cfg.clockSkew {
      forall run | InOrder(run) && DelayedAtMost(run, d)
        ensures Admissions(cfg, run, nonce, ts, |run|) <= n
      {
        AdmissionsAtMost(cfg, run, nonce, ts, |run|, d, n);
      }
    } else {
      EarlyRun(cfg, r, nonce, ts, d, n + 1);
      var run := Sent(r, Early(cfg, ts, d, n + 1));
      assert InOrder(run) && DelayedAtMost(run, d) && Admissions(cfg, run, nonce, ts, |run|) > n;
    }
  }

  // The bounds in terms of the configuration.

  /** Two admissions and one more for each whole window in the clock skew; twice
      that when a request's readings may differ; none for a very negative skew. */
  function Most(w: int, skew: int, instant: bool): nat
    requires w > 0
  {
    var q := 2 + skew / w;
    if q < 0 then 0 else if instant then q else 2 * q
  }

  lemma WholeWindows(w: int, skew: int)
    requires w > 0
    ensures var q := skew / w; q * w <= skew < (q + 1) * w
  {
    assert (skew / w + 1) * w == skew / w * w + w;
  }

  /** The first admission that comes too late: number 2 + floor(skew / w) when no
      request is delayed, twice that when one may be delayed for a window. */
  lemma MostIsExact(w: int, skew: int, d: nat, instant: bool)
    requires w > 0 && if instant then d == 0 else d >= w
    ensures Earliest(w, d, Most(w, skew, instant)) > w + skew
    ensures Most(w, skew, instant) > 0 ==> Earliest(w, d, Most(w, skew, instant) - 1) <= w + skew
  {
    var q, m := 2 + skew / w, Most(w, skew, instant);
    WholeWindows(w, skew);
    assert q * w == skew / w * w + 2 * w && (q - 1) * w == q * w - w;
    EarliestInClosedForm(w, d, m);
    if q < 0 {
      Multiples(w, q, -1);
    } else if m > 0 {
      EarliestInClosedForm(w, d, m - 1);
    }
  }

  lemma Multiples(w: int, a: int, b: int)
    requires w >= 0 && a <= b
    ensures a * w <= b * w
  {
  }

  lemma {:induction false} SomeDelay(run: seq<Arrival>, least: nat) returns (d: nat)
    ensures d >= least && DelayedAtMost(run, d)
  {
    d := least;
    if run != [] {
      d := SomeDelay(run[..|run| - 1], least);
      var last := run[|run| - 1];
      if last.Arrival? && Delay(last) > d {
        d := Delay(last);
      }
    }
  }

  /** How often one (nonce, timestamp) pair passes in require mode, over any run:
      at most 2 + floor(clockSkew / window) times when requests take no time, and
      at most twice that however late a request's later clock readings are. */
  lemma AdmissionsBounded(cfg: Config, run: seq<Arrival>, nonce: string, ts: int, k: nat, instant: bool)
    requires InOrder(run) && cfg.policy == "require" && cfg.window > 0 && k <= |run| && (instant ==> Instant(run))
    ensures Admissions(cfg, run, nonce, ts, k) <= Most(cfg.window, cfg.clockSkew, instant)
  {
    var d := 0;
    if !instant {
      d := SomeDelay(run, cfg.window);
    }
    MostIsExact(cfg.window, cfg.clockSkew, d, instant);
    AdmissionsAtMost(cfg, run, nonce, ts, k, d, Most(cfg.window, cfg.clockSkew, instant));
  }

  /** Both bounds are reached, for every window and every skew. */
  lemma BoundIsTight(cfg: Config, r: Request, nonce: string, ts: int, instant: bool) returns (run: seq<Arrival>)
    requires Carries(cfg, r, nonce, ts)
    ensures InOrder(run) && (instant ==> Instant(run))
    ensures Admissions(cfg, run, nonce, ts, |run|) == |run| == Most(cfg.window, cfg.clockSkew, instant)
  {
    var d, m := if instant then 0 else cfg.window, Most(cfg.window, cfg.clockSkew, instant);
    MostIsExact(cfg.window, cfg.clockSkew, d, instant);
    EarlyRun(cfg, r, nonce, ts, d, m);
    run := Sent(r, Early(cfg, ts, d, m));
    if instant {
      forall i | 0 <= i < |run|
        ensures run[i].clocks.processing == run[i].clocks.expiry == run[i].clocks.checking
      {
        assert Delay(run[i]) <= 0;
      }
    }
  }

  /** The bound for instant requests holds with requests delayed up to d exactly
      while bound * (window - d) exceeds window + clockSkew. */
  lemma SingleBoundExactlyWhen(cfg: Config, r: Request, nonce: string, ts: int, d: nat)
    requires Carries(cfg, r, nonce, ts) && cfg.window + cfg.clockSkew >= 0
    ensures var bound := 2 + cfg.clockSkew / cfg.window;
      bound * (cfg.window - d) > cfg.window + cfg.clockSkew <==>
      forall run :: InOrder(run) && DelayedAtMost(run, d) ==> Admissions(cfg, run, nonce, ts, |run|) <= bound
  {
    SingleBoundTime(cfg.window, cfg.clockSkew, d);
    AdmissionsAtMostExactlyWhen(cfg, r, nonce, ts, d, 2 + cfg.clockSkew / cfg.window);
  }

  lemma SingleBoundTime(w: int, skew: int, d: nat)
    requires w > 0 && w + skew >= 0
    ensures var bound := 2 + skew / w;
      bound >= 1 && (bound * (w - d) > w + skew <==> Earliest(w, d, bound) > w + skew)
  {
    var b := 2 + skew / w;
    WholeWindows(w, skew);
    assert (b - 1) * w == (skew / w + 1) * w == skew / w * w + w;
    if b < 1 {
      Multiples(w, b - 1, -1);
    }
    EarliestInClosedForm(w, d, b);
    if 2 * d > w && b >= 2 {
      HalfTheWindows(w, d, b);
    }
  }

  /** With delays of more than half a window both sides fail for two or more. */
  lemma HalfTheWindows(w: int, d: nat, b: nat)
    requires w > 0 && 2 * d > w && b >= 2
    ensures b * (w - d) <= (b - 1) * w
    ensures (b / 2) * w + (if b % 2 == 1 && d < w then w - d else 0) <= (b - 1) * w
  {
    assert b * (w - d) == b * w - b * d;
    Multiples(d, 2, b);
    assert (b - 1) * w == b * w - w;
    if b % 2 == 1 {
      Multiples(w, b / 2 + 1, b - 1);
      assert (b / 2 + 1) * w == (b / 2) * w + w;
    } else {
      Multiples(w, b / 2, b - 1);
    }
  }

  /** For one: with delays of a window the pair passes twice as often as instant
      requests do, the last two times after its timestamp. */
  lemma DelayedRequestsExceed(cfg: Config, r: Request, nonce: string, ts: int) returns (run: seq<Arrival>)
    requires Carries(cfg, r, nonce, ts) && cfg.window + cfg.clockSkew >= 0
    ensures InOrder(run) && |run| >= 2
    ensures Admissions(cfg, run, nonce, ts, |run|) == 2 * Most(cfg.window, cfg.clockSkew, true)
    ensures forall i :: |run| - 2 <= i < |run| ==> Admitted(cfg, run, nonce, ts, i) && First(run[i]) > ts
  {
    var w, skew := cfg.window, cfg.clockSkew;
    var m := Most(w, skew, false);
    SingleBoundTime(w, skew, w);
    MostIsExact(w, skew, w, false);
    EarlyRun(cfg, r, nonce, ts, w, m);
    run := Sent(r, Early(cfg, ts, w, m));
    LastTwoAreLate(w, skew, m);
    forall i | m - 2 <= i < m
      ensures First(run[i]) > ts
    {
      EarliestMonotone(w, w, m - 2, i);
    }
  }

  lemma LastTwoAreLate(w: int, skew: int, m: nat)
    requires w > 0 && m == Most(w, skew, false) && m >= 2
    ensures Earliest(w, w, m - 2) > skew
  {
    WholeWindows(w, skew);
    EarliestInClosedForm(w, w, m - 2);
    assert (m - 2) / 2 == skew / w + 1;
  }

  // Late admissions.

  /** A pair let through `late` after its timestamp can pass again in a request
      that takes `delay` between its readings, exactly when `late` is not before
      the first acceptable time, at most a window, and at most the delay. */
  lemma LateRepeatExactlyWhen(cfg: Config, r: Request, nonce: string, ts: int, late: int, delay: nat)
    requires Carries(cfg, r, nonce, ts)
    ensures -cfg.clockSkew <= late <= cfg.window && late <= delay <==>
      exists run, i, j :: LateRepeat(cfg, run, nonce, ts, i, j, late, delay)
  {
    if -cfg.clockSkew <= late <= cfg.window && late <= delay {
      var t, u := ts + late, ts + cfg.window;
      var cs := [Clocks(t, t, t), Clocks(u, u, u + delay)];
      SentAllAdmitted(cfg, r, nonce, ts, cs);
      assert LateRepeat(cfg, Sent(r, cs), nonce, ts, 0, 1, late, delay);
    }
    forall run, i, j | LateRepeat(cfg, run, nonce, ts, i, j, late, delay)
      ensures -cfg.clockSkew <= late <= cfg.window && late <= delay
    {
      LateAdmissionIsLast(cfg, run, nonce, ts, i, j);
      AdmittedMeans(cfg, run, nonce, ts, i);
      AdmittedMeans(cfg, run, nonce, ts, j);
      assert Last(run[i]) <= First(run[j]);
    }
  }

  ghost predicate LateRepeat(cfg: Config, run: seq<Arrival>, nonce: string, ts: int, i: nat, j: nat,
                             late: int, delay: nat) {
    && InOrder(run) && i < j < |run|
    && Admitted(cfg, run, nonce, ts, i) && Lateness(run[i], ts) == late
    && Admitted(cfg, run, nonce, ts, j) && Delay(run[j]) == delay
  }
}
