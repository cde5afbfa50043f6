/** The ABAC policy engine (internal/security/policy_engine.go). Addresses are
    bit strings, so that containment in a CIDR block is the prefix test of
    section 3.1 of RFC 4632 and an exact address is a full-length block; time
    ranges are minutes of the day. */
module PolicyEngines {
  import opened Wrappers

  type Address = seq<bool>

  /** An entry of a policy's address list: "!" or not, and its block; None when it does not parse. */
  datatype IpPattern = IpPattern(negated: bool, block: Option<seq<bool>>)

  /** A time range in its zone; no bounds when one of them does not parse. */
  datatype TimeRange = TimeRange(zone: string, bounds: Option<(nat, nat)>)

  datatype PolicyMatch = PolicyMatch(agents: seq<string>, methods: seq<string>, users: seq<string>, ips: seq<IpPattern>,
                                     headers: map<string, string>, timeRange: Option<TimeRange>)

  datatype Policy = Policy(name: string, description: string, match_: PolicyMatch, action: string, priority: int)

  /** A request; its address is None when it does not parse, headers is None for
      a nil header set, and a missing header reads as "". Its time is the minute
      of the day in UTC and in every zone that can be loaded. */
  datatype PolicyRequest = PolicyRequest(agent: string, method_: string, user: string, ip: Option<Address>,
                                         headers: Option<map<string, string>>,
                                         utcMinute: nat, zoneMinutes: map<string, nat>)

  datatype PolicyDecision = PolicyDecision(action: string, matchedPolicy: string, description: Option<string>)

  const DEFAULT_DECISION := PolicyDecision("allow", "", None)

  // Matching one policy.

  predicate MatchStringList(list: seq<string>, value: string) {
    list == [] || value in list
  }

  predicate InBlock(p: IpPattern, ip: Address) {
    p.block.Some? && p.block.value <= ip
  }

  predicate FirstHit(patterns: seq<IpPattern>, ip: Address, k: int) {
    0 <= k < |patterns| && InBlock(patterns[k], ip) && forall j :: 0 <= j < k ==> !InBlock(patterns[j], ip)
  }

  /** The first entry whose block contains the address decides; when none does,
      the address passes a list of exclusions only. */
  ghost predicate IpAllowed(patterns: seq<IpPattern>, ip: Address) {
    || (exists k :: FirstHit(patterns, ip, k) && !patterns[k].negated)
    || forall k :: 0 <= k < |patterns| ==> patterns[k].negated && !InBlock(patterns[k], ip)
  }

  method MatchIPs(patterns: seq<IpPattern>, ip: Option<Address>) returns (ok: bool)
    ensures patterns == [] ==> ok
    ensures patterns != [] && ip.None? ==> !ok
    ensures ip.Some? ==> (ok <==> IpAllowed(patterns, ip.value))
  {
    if |patterns| == 0 {
      return true;
    }
    if ip.None? {
      return false;
    }
    var i := 0;
    while i < |patterns|
      invariant 0 <= i <= |patterns|
      invariant forall j :: 0 <= j < i ==> !InBlock(patterns[j], ip.value)
    {
      if InBlock(patterns[i], ip.value) {
        assert FirstHit(patterns, ip.value, i);
        assert forall k :: FirstHit(patterns, ip.value, k) ==> k == i;
        return !patterns[i].negated;
      }
      i := i + 1;
    }
    i := 0;
    while i < |patterns|
      invariant 0 <= i <= |patterns|
      invariant forall j :: 0 <= j < i ==> patterns[j].negated
    {
      if !patterns[i].negated {
        return false;
      }
      i := i + 1;
    }
    ok := true;
  }

  /** An exclusion holds for an address it covers exactly when no earlier entry
      allows that address: the order of the list matters. */
  lemma ExclusionHoldsExactlyWhenFirst(patterns: seq<IpPattern>, ip: Address, k: nat)
    requires k < |patterns| && patterns[k].negated && InBlock(patterns[k], ip)
    ensures !IpAllowed(patterns, ip) <==>
      forall j :: 0 <= j < k && !patterns[j].negated && InBlock(patterns[j], ip) ==>
        exists i :: 0 <= i < j && patterns[i].negated && InBlock(patterns[i], ip)
  {
    var first := FirstInBlock(patterns, ip, k);
    assert forall i :: FirstHit(patterns, ip, i) ==> i == first;
    if patterns[first].negated {
      forall j | 0 <= j < k && !patterns[j].negated && InBlock(patterns[j], ip)
        ensures exists i :: 0 <= i < j && patterns[i].negated && InBlock(patterns[i], ip)
      {
        assert first < j;
      }
    }
  }

  lemma {:induction false} FirstInBlock(patterns: seq<IpPattern>, ip: Address, k: nat) returns (first: nat)
    requires k < |patterns| && InBlock(patterns[k], ip)
    ensures first <= k && FirstHit(patterns, ip, first)
  {
    if j :| 0 <= j < k && InBlock(patterns[j], ip) {
      first := FirstInBlock(patterns, ip, j);
    } else {
      first := k;
    }
  }

  /** Any exclusion fails for any address it covers once an entry allowing every
      address stands before it; put before that entry it holds. */
  lemma ExclusionCanFail(p: IpPattern, ip: Address)
    requires p.negated && InBlock(p, ip)
    ensures var everything := IpPattern(false, Some([]));
      IpAllowed([everything, p], ip) && !IpAllowed([p, everything], ip)
  {
    var everything := IpPattern(false, Some([]));
    assert FirstHit([everything, p], ip, 0);
    ExclusionHoldsExactlyWhenFirst([p, everything], ip, 0);
  }

  predicate MatchHeaders(expected: map<string, string>, actual: Option<map<string, string>>) {
    expected == map[] || (actual.Some? && forall k :: k in expected ==>
      expected[k] == if k in actual.value then actual.value[k] else "")
  }

  predicate InRange(start: nat, end: nat, now: nat) {
    if start <= end then now >= start && now < end else now >= start || now < end
  }

  /** The minute of the day in a zone, in UTC when the zone is unset or unknown. */
  function MinuteIn(r: PolicyRequest, zone: string): nat {
    if zone != "" && zone in r.zoneMinutes then r.zoneMinutes[zone] else r.utcMinute
  }

  predicate MatchTimeRange(tr: Option<TimeRange>, r: PolicyRequest) {
    || tr.None? || tr.value.bounds.None?
    || InRange(tr.value.bounds.value.0, tr.value.bounds.value.1, MinuteIn(r, tr.value.zone))
  }

  ghost predicate Matches(p: Policy, r: PolicyRequest) {
    && MatchStringList(p.match_.agents, r.agent)
    && MatchStringList(p.match_.methods, r.method_)
    && MatchStringList(p.match_.users, r.user)
    && (p.match_.ips == [] || (r.ip.Some? && IpAllowed(p.match_.ips, r.ip.value)))
    && MatchHeaders(p.match_.headers, r.headers)
    && MatchTimeRange(p.match_.timeRange, r)
  }

  method MatchPolicy(p: Policy, r: PolicyRequest) returns (ok: bool)
    ensures ok <==> Matches(p, r)
  {
    if !MatchStringList(p.match_.agents, r.agent) {
      return false;
    }
    if !MatchStringList(p.match_.methods, r.method_) {
      return false;
    }
    if !MatchStringList(p.match_.users, r.user) {
      return false;
    }
    var ips := MatchIPs(p.match_.ips, r.ip);
    if !ips {
      return false;
    }
    if !MatchHeaders(p.match_.headers, r.headers) {
      return false;
    }
    ok := MatchTimeRange(p.match_.timeRange, r);
  }

  // Time ranges around the clock.

  const DAY := 1440

  /** The normal, the overnight and the empty range are one rule on the cyclic day. */
  lemma RangeIsCyclic(start: nat, end: nat, now: nat)
    requires start < DAY && end < DAY && now < DAY
    ensures InRange(start, end, now) <==> (now - start) % DAY < (end - start) % DAY
  {
  }

  ghost predicate Cuts(cuts: seq<nat>) {
    && (forall i :: 0 <= i < |cuts| ==> cuts[i] < DAY)
    && (forall i, j :: 0 <= i < j < |cuts| ==> cuts[i] < cuts[j])
  }

  /** The i-th range between consecutive cut points, the last one overnight. */
  predicate InPiece(cuts: seq<nat>, i: nat, now: nat)
    requires i < |cuts|
  {
    InRange(cuts[i], cuts[if i + 1 < |cuts| then i + 1 else 0], now)
  }

  lemma {:induction false} LastCutBefore(cuts: seq<nat>, now: nat, n: nat) returns (i: nat)
    requires n < |cuts| && cuts[0] <= now
    ensures i <= n && cuts[i] <= now && (i < n ==> now < cuts[i + 1])
  {
    if cuts[n] <= now {
      i := n;
    } else {
      i := LastCutBefore(cuts, now, n - 1);
    }
  }

  /** Two or more cut points divide the day: each minute is in exactly one piece.
      A single cut point leaves the empty range. */
  lemma CutsPartitionTheDay(cuts: seq<nat>, now: nat)
    requires Cuts(cuts) && now < DAY && |cuts| > 0
    ensures (exists i :: 0 <= i < |cuts| && InPiece(cuts, i, now)) <==> |cuts| >= 2
    ensures forall i, j :: 0 <= i < j < |cuts| ==> !(InPiece(cuts, i, now) && InPiece(cuts, j, now))
  {
    if |cuts| >= 2 {
      if cuts[0] <= now {
        var i := LastCutBefore(cuts, now, |cuts| - 1);
        assert InPiece(cuts, i, now);
      } else {
        assert InPiece(cuts, |cuts| - 1, now);
      }
    }
  }

  // What each condition of a policy is held against.

  const ANYTHING := PolicyMatch([], [], [], [], map[], None)

  /** The policy with these conditions instead of its own. */
  function With(p: Policy, conditions: PolicyMatch): Policy {
    p.(match_ := conditions)
  }

  /** A policy without conditions matches every request, one with a single list
      exactly by the request's own agent, method or user. */
  lemma ListsMatch(p: Policy, r: PolicyRequest, list: seq<string>)
    ensures Matches(With(p, ANYTHING), r)
    ensures Matches(With(p, ANYTHING.(agents := list)), r) <==> list == [] || r.agent in list
    ensures Matches(With(p, ANYTHING.(methods := list)), r) <==> list == [] || r.method_ in list
    ensures Matches(With(p, ANYTHING.(users := list)), r) <==> list == [] || r.user in list
  {
  }

  /** The block's bits are the first of the address; an unparsable block covers none. */
  predicate Covers(p: IpPattern, ip: Address) {
    p.block.Some? && |p.block.value| <= |ip| && ip[..|p.block.value|] == p.block.value
  }

  /** A policy with addresses only: no request without an address matches; the
      first entry that covers the address decides; and if none does, a list
      matches exactly when it consists of exclusions. */
  lemma AddressesMatch(p: Policy, r: PolicyRequest, ips: seq<IpPattern>, k: nat)
    requires ips != []
    ensures var q := With(p, ANYTHING.(ips := ips));
      if r.ip.None? then !Matches(q, r)
      else if forall j :: 0 <= j < |ips| ==> !Covers(ips[j], r.ip.value) then
        Matches(q, r) <==> forall j :: 0 <= j < |ips| ==> ips[j].negated
      else
        k < |ips| && Covers(ips[k], r.ip.value) && (forall j :: 0 <= j < k ==> !Covers(ips[j], r.ip.value)) ==>
          (Matches(q, r) <==> !ips[k].negated)
  {
    if r.ip.Some? {
      var ip := r.ip.value;
      assert forall j :: 0 <= j < |ips| ==> (Covers(ips[j], ip) <==> InBlock(ips[j], ip));
      if k < |ips| && Covers(ips[k], ip) && forall j :: 0 <= j < k ==> !Covers(ips[j], ip) {
        assert FirstHit(ips, ip, k);
        assert forall j :: FirstHit(ips, ip, j) ==> j == k;
      }
    }
  }

  /** A policy with headers only: each has its value, and "" where the request has none. */
  lemma HeadersMatch(p: Policy, r: PolicyRequest, expected: map<string, string>)
    requires expected != map[]
    ensures Matches(With(p, ANYTHING.(headers := expected)), r) <==>
      r.headers.Some? && forall k :: k in expected ==>
        (k in r.headers.value && r.headers.value[k] == expected[k]) || (k !in r.headers.value && expected[k] == "")
  {
  }

  /** A policy with a time range only: by the minute of its zone, of UTC when the
      zone is unset or unknown; a range that does not parse matches always. */
  lemma TimeMatches(p: Policy, r: PolicyRequest, zone: string, start: nat, end: nat, now: nat)
    requires start < DAY && end < DAY && now < DAY
    requires now == if zone == "" || zone !in r.zoneMinutes then r.utcMinute else r.zoneMinutes[zone]
    ensures Matches(With(p, ANYTHING.(timeRange := Some(TimeRange(zone, Some((start, end)))))), r)
      <==> (now - start) % DAY < (end - start) % DAY
    ensures Matches(With(p, ANYTHING.(timeRange := Some(TimeRange(zone, None)))), r)
  {
    RangeIsCyclic(start, end, now);
  }

  /** A policy matches exactly when each of its conditions alone does. */
  lemma MatchesByParts(p: Policy, r: PolicyRequest)
    ensures Matches(p, r) <==>
      && Matches(With(p, ANYTHING.(agents := p.match_.agents)), r)
      && Matches(With(p, ANYTHING.(methods := p.match_.methods)), r)
      && Matches(With(p, ANYTHING.(users := p.match_.users)), r)
      && Matches(With(p, ANYTHING.(ips := p.match_.ips)), r)
      && Matches(With(p, ANYTHING.(headers := p.match_.headers)), r)
      && Matches(With(p, ANYTHING.(timeRange := p.match_.timeRange)), r)
  {
  }

  // Evaluation.

  function DecisionOf(p: Policy): PolicyDecision {
    PolicyDecision(p.action, p.name, Some(p.description))
  }

  /** The first matching policy decides. */
  ghost function Decide(policies: seq<Policy>, r: PolicyRequest): PolicyDecision {
    if policies == [] then DEFAULT_DECISION
    else if Matches(policies[0], r) then DecisionOf(policies[0])
    else Decide(policies[1..], r)
  }

  ghost predicate ByPriority(policies: seq<Policy>) {
    forall i, j :: 0 <= i < j < |policies| ==> policies[i].priority >= policies[j].priority
  }

  /** What sort.Slice may leave: sort.Slice is not stable, so any arrangement of
      the given policies in priority order. */
  ghost predicate IsSortOf(sorted: seq<Policy>, given: seq<Policy>) {
    ByPriority(sorted) && multiset(sorted) == multiset(given)
  }

  /** A matching policy that no matching policy outranks. */
  ghost predicate IsBest(p: Policy, policies: seq<Policy>, r: PolicyRequest) {
    p in policies && Matches(p, r) && forall q :: q in policies && Matches(q, r) ==> q.priority <= p.priority
  }

  lemma {:induction false} DecideFindsBest(sorted: seq<Policy>, r: PolicyRequest)
    requires ByPriority(sorted)
    ensures (exists p :: p in sorted && Matches(p, r)) ==>
      exists p :: IsBest(p, sorted, r) && Decide(sorted, r) == DecisionOf(p)
    ensures (forall p :: p in sorted ==> !Matches(p, r)) ==> Decide(sorted, r) == DEFAULT_DECISION
  {
    if sorted != [] {
      if Matches(sorted[0], r) {
        assert IsBest(sorted[0], sorted, r);
      } else {
        var rest := sorted[1..];
        DecideFindsBest(rest, r);
        assert sorted == [sorted[0]] + rest;
        if p :| p in rest && Matches(p, r) {
          var best :| IsBest(best, rest, r) && Decide(rest, r) == DecisionOf(best);
          assert IsBest(best, sorted, r);
        }
      }
    }
  }

  lemma SameElements(xs: seq<Policy>, ys: seq<Policy>)
    requires multiset(xs) == multiset(ys)
    ensures forall p :: p in xs <==> p in ys
  {
    forall p
      ensures p in xs <==> p in ys
    {
      assert p in multiset(xs) <==> p in multiset(ys);
    }
  }

  lemma SortFindsBest(given: seq<Policy>, sorted: seq<Policy>, r: PolicyRequest)
    requires IsSortOf(sorted, given)
    ensures (exists p :: p in given && Matches(p, r)) ==>
      exists p :: IsBest(p, given, r) && Decide(sorted, r) == DecisionOf(p)
    ensures (forall p :: p in given ==> !Matches(p, r)) ==> Decide(sorted, r) == DEFAULT_DECISION
  {
    SameElements(sorted, given);
    DecideFindsBest(sorted, r);
    if p :| p in given && Matches(p, r) {
      var best :| IsBest(best, sorted, r) && Decide(sorted, r) == DecisionOf(best);
      assert IsBest(best, given, r);
    }
  }

  /** Whatever the sort does, the decision is that of a best matching policy of
      the given ones, or to allow when none matches. */
  lemma EvaluationFindsBest(given: seq<Policy>, sorted: seq<Policy>, r: PolicyRequest)
    requires IsSortOf(sorted, given)
    ensures (exists p :: p in given && Matches(p, r)) ==>
      exists p :: IsBest(p, given, r) && Decide(sorted, r) == PolicyDecision(p.action, p.name, Some(p.description))
    ensures (forall p :: p in given ==> !Matches(p, r)) ==> Decide(sorted, r) == PolicyDecision("allow", "", None)
  {
    SortFindsBest(given, sorted, r);
    if p :| p in given && Matches(p, r) {
      var best :| IsBest(best, given, r) && Decide(sorted, r) == DecisionOf(best);
      assert Decide(sorted, r) == PolicyDecision(best.action, best.name, Some(best.description));
    }
  }

  // How far the decision depends on the sort.

  lemma TailMultiset(s: seq<Policy>)
    requires s != []
    ensures multiset(s[1..]) == multiset(s) - multiset{s[0]}
  {
    assert s == [s[0]] + s[1..];
  }

  lemma SameFirst(xs: seq<Policy>, ys: seq<Policy>)
    requires ByPriority(xs) && ByPriority(ys) && xs != [] && ys != []
    requires forall p :: p in xs <==> p in ys
    requires forall i, j :: 0 <= i < j < |xs| ==> xs[i].priority != xs[j].priority
    ensures xs[0] == ys[0]
  {
    assert ys[0] in xs;
    var i :| 0 <= i < |xs| && xs[i] == ys[0];
    assert xs[0] in ys;
    var j :| 0 <= j < |ys| && ys[j] == xs[0];
    assert ys[0].priority >= ys[j].priority;
  }

  /** Policies in two priority orders that differ pairwise in priority are in the same order. */
  lemma {:induction false} DistinctPrioritiesFixTheOrder(xs: seq<Policy>, ys: seq<Policy>)
    requires ByPriority(xs) && ByPriority(ys) && multiset(xs) == multiset(ys)
    requires forall i, j :: 0 <= i < j < |xs| ==> xs[i].priority != xs[j].priority
    ensures xs == ys
  {
    SameElements(xs, ys);
    assert |xs| == |multiset(xs)| == |multiset(ys)| == |ys|;
    if xs != [] {
      SameFirst(xs, ys);
      TailMultiset(xs);
      TailMultiset(ys);
      DistinctPrioritiesFixTheOrder(xs[1..], ys[1..]);
    }
  }

  /** The i-th element moved to position k. */
  function MovedUp(s: seq<Policy>, k: nat, i: nat): seq<Policy>
    requires k <= i < |s|
  {
    s[..k] + [s[i]] + s[k..i] + s[i + 1..]
  }

  lemma SwapMiddle(a: seq<Policy>, b: seq<Policy>, c: seq<Policy>, d: seq<Policy>)
    ensures multiset(a + c + b + d) == multiset(a + b + c + d)
  {
  }

  lemma MovedUpIsSorted(s: seq<Policy>, k: nat, i: nat)
    requires ByPriority(s) && k <= i < |s| && s[k].priority == s[i].priority
    ensures IsSortOf(MovedUp(s, k, i), s)
  {
    SwapMiddle(s[..k], s[k..i], [s[i]], s[i + 1..]);
    assert s == s[..k] + s[k..i] + [s[i]] + s[i + 1..];
    var m := MovedUp(s, k, i);
    assert |m| == |s|;
    forall j | 0 <= j < |m|
      ensures m[j] == s[if j == k then i else if k < j <= i then j - 1 else j]
    {
    }
    forall x, y | 0 <= x < y < |m|
      ensures m[x].priority >= m[y].priority
    {
    }
  }

  lemma {:induction false} DecideSkips(xs: seq<Policy>, ys: seq<Policy>, r: PolicyRequest)
    requires forall p :: p in xs ==> !Matches(p, r)
    ensures Decide(xs + ys, r) == Decide(ys, r)
  {
    if xs == [] {
      assert xs + ys == ys;
    } else {
      assert (xs + ys)[1..] == xs[1..] + ys;
      assert (xs + ys)[0] == xs[0] && xs[0] in xs;
      DecideSkips(xs[1..], ys, r);
    }
  }

  lemma {:induction false} StartOfPriority(s: seq<Policy>, i: nat) returns (k: nat)
    requires ByPriority(s) && i < |s|
    ensures k <= i && s[k].priority == s[i].priority && forall j :: 0 <= j < k ==> s[j].priority > s[i].priority
  {
    if i > 0 && s[i - 1].priority == s[i].priority {
      k := StartOfPriority(s, i - 1);
    } else {
      k := i;
    }
  }

  /** Some sort makes any given best policy the deciding one. */
  lemma BestCanDecide(given: seq<Policy>, sorted: seq<Policy>, r: PolicyRequest, p: Policy)
      returns (sorted': seq<Policy>)
    requires IsSortOf(sorted, given) && IsBest(p, given, r)
    ensures IsSortOf(sorted', given) && Decide(sorted', r) == DecisionOf(p)
  {
    SameElements(sorted, given);
    var i :| 0 <= i < |sorted| && sorted[i] == p;
    var k := StartOfPriority(sorted, i);
    sorted' := MovedUp(sorted, k, i);
    MovedUpIsSorted(sorted, k, i);
    MovedUpDecides(sorted, k, i, r);
  }

  lemma MovedUpDecides(s: seq<Policy>, k: nat, i: nat, r: PolicyRequest)
    requires k <= i < |s| && Matches(s[i], r) && forall j :: 0 <= j < k ==> !Matches(s[j], r)
    ensures Decide(MovedUp(s, k, i), r) == DecisionOf(s[i])
  {
    var rest := [s[i]] + (s[k..i] + s[i + 1..]);
    assert MovedUp(s, k, i) == s[..k] + rest;
    DecideSkips(s[..k], rest, r);
  }

  /** The decision is the same for every sort exactly when the best matching
      policies all decide alike; with distinct priorities there is only one. */
  lemma DecisionFixedExactlyWhen(given: seq<Policy>, sorted: seq<Policy>, r: PolicyRequest)
    requires IsSortOf(sorted, given)
    ensures (forall s :: IsSortOf(s, given) ==> Decide(s, r) == Decide(sorted, r)) <==>
      forall p, q :: IsBest(p, given, r) && IsBest(q, given, r) ==> DecisionOf(p) == DecisionOf(q)
  {
    if forall s :: IsSortOf(s, given) ==> Decide(s, r) == Decide(sorted, r) {
      forall p, q | IsBest(p, given, r) && IsBest(q, given, r)
        ensures DecisionOf(p) == DecisionOf(q)
      {
        var sp := BestCanDecide(given, sorted, r, p);
        var sq := BestCanDecide(given, sorted, r, q);
      }
    }
    if forall p, q :: IsBest(p, given, r) && IsBest(q, given, r) ==> DecisionOf(p) == DecisionOf(q) {
      forall s | IsSortOf(s, given)
        ensures Decide(s, r) == Decide(sorted, r)
      {
        SortFindsBest(given, s, r);
        SortFindsBest(given, sorted, r);
      }
    }
  }

  method InsertByPriority(sorted: seq<Policy>, p: Policy) returns (r: seq<Policy>)
    requires ByPriority(sorted)
    ensures ByPriority(r) && multiset(r) == multiset(sorted) + multiset{p}
  {
    var k := 0;
    while k < |sorted| && sorted[k].priority >= p.priority
      invariant 0 <= k <= |sorted| && forall j :: 0 <= j < k ==> sorted[j].priority >= p.priority
    {
      k := k + 1;
    }
    assert sorted == sorted[..k] + sorted[k..];
    r := sorted[..k] + [p] + sorted[k..];
    InsertedIsSorted(sorted, k, p);
  }

  lemma InsertedIsSorted(sorted: seq<Policy>, k: nat, p: Policy)
    requires ByPriority(sorted) && k <= |sorted|
    requires forall j :: 0 <= j < k ==> sorted[j].priority >= p.priority
    requires k < |sorted| ==> sorted[k].priority < p.priority
    ensures ByPriority(sorted[..k] + [p] + sorted[k..])
  {
    var r := sorted[..k] + [p] + sorted[k..];
    forall j | 0 <= j < |r|
      ensures r[j] == if j < k then sorted[j] else if j == k then p else sorted[j - 1]
    {
    }
  }

  /** sort.Slice stands outside this model. This insertion sort takes its place;
      everything about the engine is proved from its contract alone. */
  method SortPolicies(policies: array<Policy>)
    modifies policies
    ensures IsSortOf(policies[..], old(policies[..]))
  {
    var sorted: seq<Policy> := [];
    var i := 0;
    while i < policies.Length
      invariant 0 <= i <= policies.Length && policies[..] == old(policies[..])
      invariant ByPriority(sorted) && multiset(sorted) == multiset(policies[..i])
    {
      sorted := InsertByPriority(sorted, policies[i]);
      assert policies[..i + 1] == policies[..i] + [policies[i]];
      i := i + 1;
    }
    assert policies[..i] == policies[..];
    CopyInto(policies, sorted);
  }

  method CopyInto(policies: array<Policy>, sorted: seq<Policy>)
    requires multiset(sorted) == multiset(policies[..])
    modifies policies
    ensures policies[..] == sorted
  {
    assert |sorted| == |multiset(sorted)| == |multiset(policies[..])| == policies.Length;
    forall j | 0 <= j < policies.Length {
      policies[j] := sorted[j];
    }
  }

  class PolicyEngine {
    var policies: array<Policy>

    constructor (given: array<Policy>)
      ensures fresh(policies) && IsSortOf(policies[..], given[..])
    {
      var sorted := SortedCopy(given);
      policies := sorted;
    }

    static method SortedCopy(given: array<Policy>) returns (sorted: array<Policy>)
      ensures fresh(sorted) && IsSortOf(sorted[..], given[..])
    {
      sorted := new Policy[given.Length](i requires 0 <= i < given.Length reads given => given[i]);
      assert sorted[..] == given[..];
      SortPolicies(sorted);
    }

    /** Sorts a copy and swaps it in: neither the caller's array nor the array
        installed before is written to. */
    method UpdatePolicies(given: array<Policy>)
      modifies this
      ensures fresh(policies) && IsSortOf(policies[..], given[..])
    {
      var sorted := SortedCopy(given);
      policies := sorted;
    }

    /** The part of Evaluate under the read lock. */
    method Snapshot() returns (snapshot: array<Policy>)
      ensures snapshot == policies
    {
      snapshot := policies;
    }

    /** Several updates by others, one after the other. */
    method InstallAll(sets: seq<array<Policy>>)
      modifies this
      ensures sets == [] ==> policies == old(policies)
      ensures sets != [] ==> fresh(policies) && IsSortOf(policies[..], old(sets[|sets| - 1][..]))
    {
      var i := 0;
      while i < |sets|
        invariant 0 <= i <= |sets|
        invariant i == 0 ==> policies == old(policies)
        invariant i > 0 ==> fresh(policies) && IsSortOf(policies[..], sets[i - 1][..])
      {
        UpdatePolicies(sets[i]);
        i := i + 1;
      }
    }

    method InstallNext(groups: seq<seq<array<Policy>>>, k: nat) returns (next: nat)
      requires k < |groups| && Installed(groups[..k])
      modifies this
      ensures next == k + 1 && Installed(groups[..next])
    {
      InstallAll(groups[k]);
      assert groups[..k + 1][..k] == groups[..k];
      next := k + 1;
    }

    /** The part of Evaluate after the lock is released, with updates by others
        before each iteration. */
    method EvaluateSnapshot(snapshot: array<Policy>, r: PolicyRequest, during: seq<seq<array<Policy>>>)
        returns (decision: PolicyDecision, rounds: nat)
      modifies this
      ensures decision == Decide(old(snapshot[..]), r) && rounds <= |during|
      ensures Installed(during[..rounds])
    {
      decision, rounds := DEFAULT_DECISION, 0;
      var i := 0;
      while i < snapshot.Length
        invariant 0 <= i <= snapshot.Length && rounds <= |during| && rounds <= i
        invariant snapshot[..] == old(snapshot[..]) && decision == DEFAULT_DECISION
        invariant Decide(snapshot[..], r) == Decide(snapshot[i..], r)
        invariant Installed(during[..rounds])
        invariant rounds < i ==> rounds == |during|
      {
        if rounds < |during| {
          rounds := InstallNext(during, rounds);
        }
        var ok := MatchPolicy(snapshot[i], r);
        if ok {
          decision := DecisionOf(snapshot[i]);
          return;
        }
        assert snapshot[i..][1..] == snapshot[i + 1..];
        i := i + 1;
      }
    }

    /** The set of the last of these updates, if any, is the one installed. */
    ghost predicate Installed(groups: seq<seq<array<Policy>>>)
      reads this, policies, set g, k | 0 <= g < |groups| && 0 <= k < |groups[g]| :: groups[g][k]
    {
      LastOf(groups).Some? ==> IsSortOf(policies[..], LastOf(groups).value[..])
    }

    /** Evaluate with updates by others before its snapshot, before each iteration
        of its loop, and after: the decision is that of one whole policy set, the
        one installed when the snapshot was taken. */
    method Evaluate(r: PolicyRequest, before: seq<array<Policy>>, during: seq<seq<array<Policy>>>)
        returns (decision: PolicyDecision)
      modifies this
      ensures before == [] ==> decision == Decide(old(policies[..]), r)
      ensures before != [] ==> exists s :: IsSortOf(s, old(before[|before| - 1][..])) && decision == Decide(s, r)
      ensures Installed(during)
    {
      InstallAll(before);
      var snapshot := Snapshot();
      var rounds;
      decision, rounds := EvaluateSnapshot(snapshot, r, during);
      while rounds < |during|
        invariant rounds <= |during| && Installed(during[..rounds])
      {
        rounds := InstallNext(during, rounds);
      }
      assert during[..rounds] == during;
    }
  }

  /** The last update of all the groups. */
  function LastOf(groups: seq<seq<array<Policy>>>): (last: Option<array<Policy>>)
    ensures last.Some? ==>
      exists g, k :: 0 <= g < |groups| && 0 <= k < |groups[g]| && last.value == groups[g][k]
  {
    if groups == [] then None
    else
      var group := groups[|groups| - 1];
      if group != [] then Some(group[|group| - 1]) else LastOf(groups[..|groups| - 1])
  }
}
