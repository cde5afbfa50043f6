/** The configuration diff (internal/config/diff.go) as a patch: what the list of
    changes says, applied to the old configuration, gives the new one on
    everything that is compared. */
module ConfigDiffs {

  /** A setting's value under reflect.DeepEqual; a nil slice differs from an empty one. */
  datatype Value = Text(s: string) | Number(n: int) | Fraction(r: real)
    | Flag(b: bool) | Strings(isNil: bool, items: seq<string>)

  datatype AgentKey = Url | Timeout | MaxStreams | Default | CardChangePolicy | PollInterval

  /** An agent: its compared settings, and `rest` for what is not compared. */
  datatype Agent = Agent(name: string, url: string, timeout: int, maxStreams: int, isDefault: bool,
                         cardChangePolicy: string, pollInterval: int, rest: string)

  /** A configuration: the compared settings in the order of FIELDS, agents, and
      `rest` for what Diff never looks at, security.policies among it. */
  datatype Config = Config(settings: seq<Value>, agents: seq<Agent>, rest: string)

  /** The compared fields in the order they are compared, with whether a change
      of one can take effect without a restart. */
  const FIELDS: seq<(string, bool)> := [
    ("listen.host", false), ("listen.port", false), ("listen.grpc_port", false), ("listen.max_connections", false),
    ("listen.global_rate_limit", false), ("listen.tls.cert_file", false), ("listen.tls.key_file", false),
    ("listen.trusted_proxies", false), ("external_url", false), ("mcp.enabled", false), ("mcp.host", false),
    ("mcp.port", false), ("security.auth.mode", true), ("security.auth.allow_unauthenticated", true),
    ("security.rate_limit.enabled", true),
    ("security.rate_limit.ip.per_ip", true), ("security.rate_limit.ip.burst", true),
    ("security.rate_limit.ip.cleanup_interval", true), ("security.rate_limit.user.per_user", true),
    ("security.rate_limit.user.burst", true), ("security.rate_limit.user.cleanup_interval", true),
    ("security.rate_limit.per_agent", true), ("security.card_signature.require", true),
    ("security.card_signature.trusted_jwks_urls", true), ("security.card_signature.cache_ttl", true),
    ("security.replay.enabled", true), ("security.replay.window", true), ("security.replay.nonce_policy", true),
    ("security.replay.nonce_source", true), ("security.replay.clock_skew", true),
    ("security.push.block_private_networks", true), ("security.push.require_https", true),
    ("security.push.require_challenge", true), ("security.push.allowed_domains", true),
    ("security.push.dns_fail_policy", true), ("logging.level", true), ("logging.format", true),
    ("logging.audit.sampling_rate", true), ("logging.audit.error_sampling_rate", true),
    ("logging.audit.max_body_log_size", true), ("routing.mode", false), ("card.mode", false),
    ("health.readiness_mode", false), ("body_inspection.max_size", false), ("shutdown.timeout", false),
    ("shutdown.drain_timeout", false)]

  /** The agents are compared after this many of the fields. */
  const AGENTS_AT := 12

  function Reloadable(): (flags: seq<bool>)
    ensures |flags| == |FIELDS|
  {
    seq(|FIELDS|, i requires 0 <= i < |FIELDS| => FIELDS[i].1)
  }

  /** Every compared field has a value. */
  predicate WellFormed(c: Config) {
    |c.settings| == |FIELDS|
  }

  datatype Path = Setting(field: nat) | WholeAgent(name: string) | AgentSetting(name: string, key: AgentKey)

  datatype Content = Nothing | Whole(agent: Agent) | Plain(value: Value)

  datatype Change = Change(path: Path, oldValue: Content, newValue: Content, reloadable: bool)

  // What is compared.

  /** The fields of one agent that are compared, and no others. */
  lemma SameViewExactlyWhen(a: Agent, b: Agent)
    ensures ViewOf(a) == ViewOf(b) <==>
      && a.url == b.url && a.timeout == b.timeout && a.maxStreams == b.maxStreams && a.isDefault == b.isDefault
      && a.cardChangePolicy == b.cardChangePolicy && a.pollInterval == b.pollInterval
  {
    var v, w := ViewOf(a), ViewOf(b);
    if v == w {
      assert v[Url] == w[Url] && v[Timeout] == w[Timeout] && v[MaxStreams] == w[MaxStreams];
      assert v[Default] == w[Default] && v[CardChangePolicy] == w[CardChangePolicy];
      assert v[PollInterval] == w[PollInterval];
    }
  }

  /** Setting one field changes what is compared under its own key, and nothing else. */
  lemma SettingsAreOwn(a: Agent, text: string, number: int, flag: bool)
    ensures ViewOf(a.(url := text)) == ViewOf(a)[Url := Text(text)]
    ensures ViewOf(a.(timeout := number)) == ViewOf(a)[Timeout := Number(number)]
    ensures ViewOf(a.(maxStreams := number)) == ViewOf(a)[MaxStreams := Number(number)]
    ensures ViewOf(a.(isDefault := flag)) == ViewOf(a)[Default := Flag(flag)]
    ensures ViewOf(a.(cardChangePolicy := text)) == ViewOf(a)[CardChangePolicy := Text(text)]
    ensures ViewOf(a.(pollInterval := number)) == ViewOf(a)[PollInterval := Number(number)]
  {
    OneSetting(a, a.(url := text), Url);
    OneSetting(a, a.(timeout := number), Timeout);
    OneSetting(a, a.(maxStreams := number), MaxStreams);
    OneSetting(a, a.(isDefault := flag), Default);
    OneSetting(a, a.(cardChangePolicy := text), CardChangePolicy);
    OneSetting(a, a.(pollInterval := number), PollInterval);
  }

  lemma OneSetting(a: Agent, b: Agent, k: AgentKey)
    requires forall j :: j != k ==> SettingOf(a, j) == SettingOf(b, j)
    ensures ViewOf(b) == ViewOf(a)[k := SettingOf(b, k)]
  {
  }

  predicate LastNamed(agents: seq<Agent>, name: string, i: nat) {
    i < |agents| && agents[i].name == name && forall j :: i < j < |agents| ==> agents[j].name != name
  }

  /** An agent is compared exactly when it is the last of its name. */
  lemma {:induction false} LastOfNameCounts(agents: seq<Agent>, name: string)
    ensures name in ByName(agents) <==> exists i: nat :: LastNamed(agents, name, i)
    ensures forall i: nat :: LastNamed(agents, name, i) ==> ByName(agents)[name] == agents[i]
  {
    if agents != [] {
      var front, last := agents[..|agents| - 1], |agents| - 1;
      LastOfNameCounts(front, name);
      if agents[last].name == name {
        assert LastNamed(agents, name, last);
      } else {
        assert forall i: nat :: LastNamed(agents, name, i) <==> LastNamed(front, name, i);
      }
    }
  }

  type AgentView = map<AgentKey, Value>

  function SettingOf(a: Agent, k: AgentKey): Value {
    match k
    case Url => Text(a.url)
    case Timeout => Number(a.timeout)
    case MaxStreams => Number(a.maxStreams)
    case Default => Flag(a.isDefault)
    case CardChangePolicy => Text(a.cardChangePolicy)
    case PollInterval => Number(a.pollInterval)
  }

  function ViewOf(a: Agent): AgentView {
    map k | k in {Url, Timeout, MaxStreams, Default, CardChangePolicy, PollInterval} :: SettingOf(a, k)
  }

  /** Agents by name; of two with one name the later counts. */
  function ByName(agents: seq<Agent>): map<string, Agent> {
    if agents == [] then map[] else ByName(agents[..|agents| - 1])[agents[|agents| - 1].name := agents[|agents| - 1]]
  }

  function Views(agents: map<string, Agent>): map<string, AgentView> {
    map n | n in agents :: ViewOf(agents[n])
  }

  datatype View = View(settings: seq<Value>, agents: map<string, AgentView>)

  function Compared(c: Config): View {
    View(c.settings, Views(ByName(c.agents)))
  }

  // Changes as a patch.

  function ApplyOne(v: View, c: Change): View {
    match c.path
    case Setting(f) =>
      if f < |v.settings| && c.newValue.Plain? then v.(settings := v.settings[f := c.newValue.value]) else v
    case WholeAgent(n) =>
      (match c.newValue
       case Nothing => v.(agents := v.agents - {n})
       case Whole(a) => v.(agents := v.agents[n := ViewOf(a)])
       case Plain(_) => v)
    case AgentSetting(n, k) =>
      if n in v.agents && c.newValue.Plain? then v.(agents := v.agents[n := v.agents[n][k := c.newValue.value]]) else v
  }

  function Apply(v: View, changes: seq<Change>): View {
    if changes == [] then v else ApplyOne(Apply(v, changes[..|changes| - 1]), changes[|changes| - 1])
  }

  function Inverse(c: Change): Change {
    c.(oldValue := c.newValue, newValue := c.oldValue)
  }

  /** The inverses, last change first. */
  function Undo(v: View, changes: seq<Change>): View
    decreases |changes|
  {
    if changes == [] then v
    else Undo(ApplyOne(v, Inverse(changes[|changes| - 1])), changes[..|changes| - 1])
  }

  /** The change says truly what it replaces, and by something else. */
  predicate Accurate(v: View, c: Change) {
    && c.oldValue != c.newValue
    && match c.path
       case Setting(f) => f < |v.settings| && c.oldValue == Plain(v.settings[f]) && c.newValue.Plain?
       case WholeAgent(n) =>
         if n in v.agents then c.oldValue.Whole? && ViewOf(c.oldValue.agent) == v.agents[n] && c.newValue == Nothing
         else c.oldValue == Nothing && c.newValue.Whole?
       case AgentSetting(n, k) =>
         n in v.agents && k in v.agents[n] && c.oldValue == Plain(v.agents[n][k]) && c.newValue.Plain?
  }

  predicate AllAccurate(v: View, changes: seq<Change>) {
    changes == [] ||
    (AllAccurate(v, changes[..|changes| - 1]) && Accurate(Apply(v, changes[..|changes| - 1]), changes[|changes| - 1]))
  }

  lemma InverseUndoes(v: View, c: Change)
    requires Accurate(v, c)
    ensures ApplyOne(ApplyOne(v, c), Inverse(c)) == v
  {
    match c.path
    case Setting(f) =>
      assert ApplyOne(ApplyOne(v, c), Inverse(c)).settings == v.settings;
    case WholeAgent(n) =>
      assert ApplyOne(ApplyOne(v, c), Inverse(c)).agents == v.agents;
    case AgentSetting(n, k) =>
      assert v.agents[n][k := c.newValue.value][k := c.oldValue.value] == v.agents[n];
      assert ApplyOne(ApplyOne(v, c), Inverse(c)).agents == v.agents;
  }

  /** A list of accurate changes can be taken back. */
  lemma {:induction false} UndoAppliesBack(v: View, changes: seq<Change>)
    requires AllAccurate(v, changes)
    ensures Undo(Apply(v, changes), changes) == v
  {
    if changes != [] {
      var front, last := changes[..|changes| - 1], changes[|changes| - 1];
      InverseUndoes(Apply(v, front), last);
      UndoAppliesBack(v, front);
    }
  }

  lemma Record(v: View, changes: seq<Change>, c: Change)
    requires AllAccurate(v, changes) && Accurate(Apply(v, changes), c)
    ensures AllAccurate(v, changes + [c]) && Apply(v, changes + [c]) == ApplyOne(Apply(v, changes), c)
  {
    assert (changes + [c])[..|changes|] == changes;
  }

  /** Every change of a setting carries the restart flag of its field; changes
      of agents never need a restart. */
  predicate FlagsRight(changes: seq<Change>, flags: seq<bool>) {
    forall i :: 0 <= i < |changes| ==>
      match changes[i].path
      case Setting(f) => f < |flags| && changes[i].reloadable == flags[f]
      case _ => changes[i].reloadable
  }

  // The code.

  method DiffField(changes: seq<Change>, path: Path, oldValue: Value, newValue: Value, reloadable: bool)
      returns (changes': seq<Change>)
    ensures changes' == if oldValue == newValue then changes
                        else changes + [Change(path, Plain(oldValue), Plain(newValue), reloadable)]
  {
    changes' := changes;
    if oldValue != newValue {
      changes' := changes + [Change(path, Plain(oldValue), Plain(newValue), reloadable)];
    }
  }

  /** What a stretch of the comparison leaves: v patched so far to `to`, and more
      changes than before only if something differed. */
  ghost predicate Progress(v: View, changes: seq<Change>, changes': seq<Change>, to: View, flags: seq<bool>) {
    && AllAccurate(v, changes') && FlagsRight(changes', flags)
    && Apply(v, changes') == to && changes <= changes'
    && (changes' != changes ==> to != Apply(v, changes))
  }

  /** The settings with the first i as in n. */
  function Spliced(o: seq<Value>, n: seq<Value>, i: nat): seq<Value>
    requires |o| == |n| && i <= |o|
  {
    seq(|o|, j requires 0 <= j < |o| => if j < i then n[j] else o[j])
  }

  lemma SplicedNext(o: seq<Value>, n: seq<Value>, i: nat)
    requires |o| == |n| && i < |o|
    ensures Spliced(o, n, i + 1) == Spliced(o, n, i)[i := n[i]]
    ensures Spliced(o, n, i)[i] == o[i]
  {
  }

  lemma {:induction false} SplicedDiffers(o: seq<Value>, n: seq<Value>, from: nat, until: nat, j: nat)
    requires |o| == |n| && from <= j < until <= |o| && o[j] != n[j]
    ensures Spliced(o, n, until) != Spliced(o, n, from)
  {
    assert Spliced(o, n, until)[j] != Spliced(o, n, from)[j];
  }

  /** The fields from one index to another. */
  method DiffFields(changes: seq<Change>, o: seq<Value>, n: seq<Value>, from: nat, until: nat,
      flags: seq<bool>, ghost v: View)
      returns (changes': seq<Change>)
    requires |o| == |n| == |flags| && from <= until <= |flags|
    requires AllAccurate(v, changes) && FlagsRight(changes, flags)
    requires Apply(v, changes).settings == Spliced(o, n, from)
    ensures Progress(v, changes, changes', Apply(v, changes).(settings := Spliced(o, n, until)), flags)
  {
    changes' := changes;
    ghost var start := Apply(v, changes);
    ghost var differs := from;
    var i := from;
    while i < until
      invariant from <= i <= until && AllAccurate(v, changes') && FlagsRight(changes', flags)
      invariant Apply(v, changes') == start.(settings := Spliced(o, n, i)) && changes <= changes'
      invariant changes' != changes ==> from <= differs < i && o[differs] != n[differs]
    {
      StepSetting(v, changes', o, n, i, flags);
      if o[i] != n[i] {
        differs := i;
      }
      changes' := DiffField(changes', Setting(i), o[i], n[i], flags[i]);
      i := i + 1;
    }
    if changes' != changes {
      SplicedDiffers(o, n, from, until, differs);
    }
  }

  lemma StepSetting(v: View, changes: seq<Change>, o: seq<Value>, n: seq<Value>, i: nat, flags: seq<bool>)
    requires |o| == |n| == |flags| && i < |flags|
    requires AllAccurate(v, changes) && FlagsRight(changes, flags)
    requires Apply(v, changes).settings == Spliced(o, n, i)
    ensures var c := Change(Setting(i), Plain(o[i]), Plain(n[i]), flags[i]);
      if o[i] == n[i] then Spliced(o, n, i) == Spliced(o, n, i + 1)
      else
        AllAccurate(v, changes + [c]) && FlagsRight(changes + [c], flags)
        && Apply(v, changes + [c]) == Apply(v, changes).(settings := Spliced(o, n, i + 1))
  {
    SplicedNext(o, n, i);
    if o[i] != n[i] {
      Record(v, changes, Change(Setting(i), Plain(o[i]), Plain(n[i]), flags[i]));
    }
  }

  /** The agents half way: those in `gone` dropped, those in `done` as in the new
      configuration, the others as in the old one. */
  function HalfWay(om: map<string, Agent>, nm: map<string, Agent>, gone: set<string>, done: set<string>):
      map<string, AgentView> {
    map name | name in om.Keys + nm.Keys && name !in gone && (name in om || name in done)
      && (name in done ==> name in nm)
      :: if name in done then ViewOf(nm[name]) else ViewOf(om[name])
  }

  lemma StepAgent(v: View, changes: seq<Change>, c: Change, to: View, flags: seq<bool>)
    requires AllAccurate(v, changes) && FlagsRight(changes, flags)
    requires Accurate(Apply(v, changes), c) && c.reloadable && !c.path.Setting?
    requires ApplyOne(Apply(v, changes), c) == to
    ensures AllAccurate(v, changes + [c]) && FlagsRight(changes + [c], flags) && Apply(v, changes + [c]) == to
  {
    Record(v, changes, c);
  }

  lemma HalfWayDone(om: map<string, Agent>, nm: map<string, Agent>, gone: set<string>, done: set<string>, name: string)
    requires name in nm && name !in gone
    ensures HalfWay(om, nm, gone, done)[name := ViewOf(nm[name])] == HalfWay(om, nm, gone, done + {name})
  {
  }

  lemma HalfWayOld(om: map<string, Agent>, nm: map<string, Agent>, gone: set<string>, done: set<string>, name: string)
    requires name in om && name !in gone && name !in done
    ensures name in HalfWay(om, nm, gone, done) && HalfWay(om, nm, gone, done)[name] == ViewOf(om[name])
  {
  }

  lemma HalfWayEnd(om: map<string, Agent>, nm: map<string, Agent>)
    ensures HalfWay(om, nm, om.Keys - nm.Keys, nm.Keys) == Views(nm)
  {
  }

  lemma AddStep(v: View, changes: seq<Change>, om: map<string, Agent>, nm: map<string, Agent>,
                gone: set<string>, done: set<string>, name: string, flags: seq<bool>)
    requires AllAccurate(v, changes) && FlagsRight(changes, flags)
    requires Apply(v, changes).agents == HalfWay(om, nm, gone, done)
    requires name in nm && name !in om && name !in gone && name !in done
    ensures var changes' := changes + [Change(WholeAgent(name), Nothing, Whole(nm[name]), true)];
      && AllAccurate(v, changes') && FlagsRight(changes', flags)
      && Apply(v, changes') == Apply(v, changes).(agents := HalfWay(om, nm, gone, done + {name}))
  {
    HalfWayDone(om, nm, gone, done, name);
    StepAgent(v, changes, Change(WholeAgent(name), Nothing, Whole(nm[name]), true),
              Apply(v, changes).(agents := HalfWay(om, nm, gone, done + {name})), flags);
  }

  lemma RemoveStep(v: View, changes: seq<Change>, om: map<string, Agent>, nm: map<string, Agent>,
                   gone: set<string>, name: string, flags: seq<bool>)
    requires AllAccurate(v, changes) && FlagsRight(changes, flags)
    requires Apply(v, changes).agents == HalfWay(om, nm, gone, {})
    requires name in om && name !in gone
    ensures var changes' := changes + [Change(WholeAgent(name), Whole(om[name]), Nothing, true)];
      && AllAccurate(v, changes') && FlagsRight(changes', flags)
      && Apply(v, changes') == Apply(v, changes).(agents := HalfWay(om, nm, gone + {name}, {}))
  {
    HalfWayOld(om, nm, gone, {}, name);
    assert HalfWay(om, nm, gone, {}) - {name} == HalfWay(om, nm, gone + {name}, {});
    StepAgent(v, changes, Change(WholeAgent(name), Whole(om[name]), Nothing, true),
              Apply(v, changes).(agents := HalfWay(om, nm, gone + {name}, {})), flags);
  }

  method DiffRemoved(changes: seq<Change>, om: map<string, Agent>, nm: map<string, Agent>,
      ghost v: View, ghost flags: seq<bool>)
      returns (changes': seq<Change>)
    requires AllAccurate(v, changes) && FlagsRight(changes, flags) && Apply(v, changes).agents == Views(om)
    ensures AllAccurate(v, changes') && FlagsRight(changes', flags) && changes <= changes'
    ensures Apply(v, changes') == Apply(v, changes).(agents := HalfWay(om, nm, om.Keys - nm.Keys, {}))
    ensures changes' != changes ==> om.Keys - nm.Keys != {}
  {
    changes' := changes;
    ghost var start := Apply(v, changes);
    var todo := om.Keys;
    assert HalfWay(om, nm, {}, {}) == Views(om);
    while todo != {}
      invariant todo <= om.Keys && AllAccurate(v, changes') && FlagsRight(changes', flags) && changes <= changes'
      invariant Apply(v, changes') == start.(agents := HalfWay(om, nm, om.Keys - nm.Keys - todo, {}))
      invariant changes' != changes ==> om.Keys - nm.Keys != {}
      decreases todo
    {
      var name :| name in todo;
      ghost var gone, gone' := om.Keys - nm.Keys - todo, om.Keys - nm.Keys - (todo - {name});
      if name !in nm {
        RemoveStep(v, changes', om, nm, gone, name, flags);
        changes' := changes' + [Change(WholeAgent(name), Whole(om[name]), Nothing, true)];
        assert gone' == gone + {name};
      } else {
        assert gone' == gone;
      }
      todo := todo - {name};
    }
    assert om.Keys - nm.Keys - todo == om.Keys - nm.Keys;
  }

  method DiffAdded(changes: seq<Change>, om: map<string, Agent>, nm: map<string, Agent>,
      ghost v: View, ghost flags: seq<bool>)
      returns (changes': seq<Change>)
    requires AllAccurate(v, changes) && FlagsRight(changes, flags)
    requires Apply(v, changes).agents == HalfWay(om, nm, om.Keys - nm.Keys, {})
    ensures AllAccurate(v, changes') && FlagsRight(changes', flags) && changes <= changes'
    ensures Apply(v, changes') == Apply(v, changes).(agents := HalfWay(om, nm, om.Keys - nm.Keys, nm.Keys - om.Keys))
    ensures changes' != changes ==> nm.Keys - om.Keys != {}
  {
    changes' := changes;
    ghost var start, gone := Apply(v, changes), om.Keys - nm.Keys;
    var todo := nm.Keys;
    assert nm.Keys - om.Keys - todo == {};
    while todo != {}
      invariant todo <= nm.Keys && AllAccurate(v, changes') && FlagsRight(changes', flags) && changes <= changes'
      invariant Apply(v, changes') == start.(agents := HalfWay(om, nm, gone, nm.Keys - om.Keys - todo))
      invariant changes' != changes ==> nm.Keys - om.Keys != {}
      decreases todo
    {
      var name :| name in todo;
      ghost var done := nm.Keys - om.Keys - todo;
      if name !in om {
        AddStep(v, changes', om, nm, gone, done, name, flags);
        changes' := changes' + [Change(WholeAgent(name), Nothing, Whole(nm[name]), true)];
        assert nm.Keys - om.Keys - (todo - {name}) == done + {name};
      } else {
        assert nm.Keys - om.Keys - (todo - {name}) == done;
      }
      todo := todo - {name};
    }
    assert nm.Keys - om.Keys - todo == nm.Keys - om.Keys;
  }

  /** The first i keys of one agent as in n, the others as in o. */
  function MixedView(o: Agent, n: Agent, i: nat): AgentView {
    map k | k in {Url, Timeout, MaxStreams, Default, CardChangePolicy, PollInterval}
      :: SettingOf(if KeyIndex(k) < i then n else o, k)
  }

  function KeyIndex(k: AgentKey): nat {
    match k
    case Url => 0 case Timeout => 1 case MaxStreams => 2
    case Default => 3 case CardChangePolicy => 4 case PollInterval => 5
  }

  function KeyAt(i: nat): (k: AgentKey)
    requires i < 6
    ensures KeyIndex(k) == i
  {
    match i case 0 => Url case 1 => Timeout case 2 => MaxStreams
    case 3 => Default case 4 => CardChangePolicy case _ => PollInterval
  }

  /** The agents with one of them half compared. */
  function WithMixed(start: View, name: string, o: Agent, n: Agent, i: nat): View {
    start.(agents := start.agents[name := MixedView(o, n, i)])
  }

  lemma KeyStep(v: View, changes: seq<Change>, start: View, name: string, o: Agent, n: Agent, i: nat, flags: seq<bool>)
    requires AllAccurate(v, changes) && FlagsRight(changes, flags) && i < 6
    requires Apply(v, changes) == WithMixed(start, name, o, n, i)
    ensures var k := KeyAt(i);
      var c := Change(AgentSetting(name, k), Plain(SettingOf(o, k)), Plain(SettingOf(n, k)), true);
      if SettingOf(o, k) == SettingOf(n, k) then WithMixed(start, name, o, n, i + 1) == WithMixed(start, name, o, n, i)
      else
        && AllAccurate(v, changes + [c]) && FlagsRight(changes + [c], flags)
        && Apply(v, changes + [c]) == WithMixed(start, name, o, n, i + 1)
        && ViewOf(o) != ViewOf(n)
  {
    var k := KeyAt(i);
    var mixed, mixed' := MixedView(o, n, i), MixedView(o, n, i + 1);
    assert mixed[k] == SettingOf(o, k) && mixed[k := SettingOf(n, k)] == mixed';
    if SettingOf(o, k) == SettingOf(n, k) {
      assert mixed == mixed';
    } else {
      assert ViewOf(o)[k] != ViewOf(n)[k];
      assert start.agents[name := mixed][name := mixed'] == start.agents[name := mixed'];
      StepAgent(v, changes, Change(AgentSetting(name, k), Plain(SettingOf(o, k)), Plain(SettingOf(n, k)), true),
                WithMixed(start, name, o, n, i + 1), flags);
    }
  }

  lemma MixedEnds(start: View, name: string, o: Agent, n: Agent)
    requires name in start.agents && start.agents[name] == ViewOf(o)
    ensures WithMixed(start, name, o, n, 0) == start
    ensures WithMixed(start, name, o, n, 6) == start.(agents := start.agents[name := ViewOf(n)])
  {
    assert MixedView(o, n, 0) == ViewOf(o) && MixedView(o, n, 6) == ViewOf(n);
    assert start.agents[name := ViewOf(o)] == start.agents;
  }

  lemma CommonAgent(om: map<string, Agent>, nm: map<string, Agent>, gone: set<string>, done: set<string>, name: string)
    requires name in om && name in nm && name !in gone && name !in done
    ensures var half := HalfWay(om, nm, gone, done);
      && name in half && half[name] == ViewOf(om[name])
      && half[name := ViewOf(nm[name])] == HalfWay(om, nm, gone, done + {name})
    ensures ViewOf(om[name]) != ViewOf(nm[name]) ==> Views(om) != Views(nm)
  {
    HalfWayOld(om, nm, gone, done, name);
    HalfWayDone(om, nm, gone, done, name);
    assert Views(om)[name] == ViewOf(om[name]) && Views(nm)[name] == ViewOf(nm[name]);
  }

  /** The six comparisons of one agent present on both sides. */
  method DiffOneAgent(changes: seq<Change>, name: string, o: Agent, n: Agent,
      ghost v: View, ghost flags: seq<bool>)
      returns (changes': seq<Change>)
    requires AllAccurate(v, changes) && FlagsRight(changes, flags)
    requires name in Apply(v, changes).agents && Apply(v, changes).agents[name] == ViewOf(o)
    ensures AllAccurate(v, changes') && FlagsRight(changes', flags) && changes <= changes'
    ensures Apply(v, changes') == Apply(v, changes).(agents := Apply(v, changes).agents[name := ViewOf(n)])
    ensures changes' != changes ==> ViewOf(o) != ViewOf(n)
  {
    changes' := changes;
    ghost var start := Apply(v, changes);
    MixedEnds(start, name, o, n);
    var i := 0;
    while i < 6
      invariant 0 <= i <= 6 && AllAccurate(v, changes') && FlagsRight(changes', flags) && changes <= changes'
      invariant Apply(v, changes') == WithMixed(start, name, o, n, i)
      invariant changes' != changes ==> ViewOf(o) != ViewOf(n)
    {
      var k := KeyAt(i);
      KeyStep(v, changes', start, name, o, n, i, flags);
      changes' := DiffField(changes', AgentSetting(name, k), SettingOf(o, k), SettingOf(n, k), true);
      i := i + 1;
    }
  }

  method DiffModified(changes: seq<Change>, om: map<string, Agent>, nm: map<string, Agent>,
      ghost v: View, ghost flags: seq<bool>)
      returns (changes': seq<Change>)
    requires AllAccurate(v, changes) && FlagsRight(changes, flags)
    requires Apply(v, changes).agents == HalfWay(om, nm, om.Keys - nm.Keys, nm.Keys - om.Keys)
    ensures AllAccurate(v, changes') && FlagsRight(changes', flags) && changes <= changes'
    ensures Apply(v, changes') == Apply(v, changes).(agents := Views(nm))
    ensures changes' != changes ==> Views(om) != Views(nm)
  {
    changes' := changes;
    ghost var start, gone := Apply(v, changes), om.Keys - nm.Keys;
    var todo := om.Keys;
    assert nm.Keys - todo == nm.Keys - om.Keys;
    while todo != {}
      invariant todo <= om.Keys && AllAccurate(v, changes') && FlagsRight(changes', flags) && changes <= changes'
      invariant Apply(v, changes') == start.(agents := HalfWay(om, nm, gone, nm.Keys - todo))
      invariant changes' != changes ==> Views(om) != Views(nm)
      decreases todo
    {
      var name :| name in todo;
      ghost var done := nm.Keys - todo;
      if name in nm {
        CommonAgent(om, nm, gone, done, name);
        changes' := DiffOneAgent(changes', name, om[name], nm[name], v, flags);
        assert nm.Keys - (todo - {name}) == done + {name};
      } else {
        assert nm.Keys - (todo - {name}) == done;
      }
      todo := todo - {name};
    }
    assert nm.Keys - todo == nm.Keys;
    HalfWayEnd(om, nm);
  }

  /** In whatever order the maps are walked, the agents' changes patch the old
      agents into the new ones, and there are none if there is no difference. */
  method DiffAgents(changes: seq<Change>, oldAgents: seq<Agent>, newAgents: seq<Agent>,
      ghost v: View, ghost flags: seq<bool>)
      returns (changes': seq<Change>)
    requires AllAccurate(v, changes) && FlagsRight(changes, flags)
      && Apply(v, changes).agents == Views(ByName(oldAgents))
    ensures Progress(v, changes, changes', Apply(v, changes).(agents := Views(ByName(newAgents))), flags)
  {
    var om := Collect(oldAgents);
    var nm := Collect(newAgents);
    changes' := DiffRemoved(changes, om, nm, v, flags);
    changes' := DiffAdded(changes', om, nm, v, flags);
    changes' := DiffModified(changes', om, nm, v, flags);
    assert Views(om).Keys == om.Keys && Views(nm).Keys == nm.Keys;
    if om.Keys == nm.Keys {
      assert om.Keys - nm.Keys == {} && nm.Keys - om.Keys == {};
    }
  }

  method Collect(agents: seq<Agent>) returns (m: map<string, Agent>)
    ensures m == ByName(agents)
  {
    m := map[];
    for i := 0 to |agents|
      invariant m == ByName(agents[..i])
    {
      assert agents[..i + 1][..i] == agents[..i];
      m := m[agents[i].name := agents[i]];
    }
    assert agents[..|agents|] == agents;
  }

  /** The list of changes is a faithful, reversible patch on everything compared;
      it is empty exactly when nothing compared differs. */
  method Diff(o: Config, n: Config) returns (changes: seq<Change>)
    requires WellFormed(o) && WellFormed(n)
    ensures Apply(Compared(o), changes) == Compared(n) && Undo(Compared(n), changes) == Compared(o)
    ensures AllAccurate(Compared(o), changes) && FlagsRight(changes, Reloadable())
    ensures changes == [] <==> Compared(o) == Compared(n)
  {
    ghost var v := Compared(o);
    var flags := Reloadable();
    FieldCount();
    assert Spliced(o.settings, n.settings, 0) == o.settings;
    changes := DiffFields([], o.settings, n.settings, 0, AGENTS_AT, flags, v);
    changes := DiffAgents(changes, o.agents, n.agents, v, flags);
    changes := DiffFields(changes, o.settings, n.settings, AGENTS_AT, |o.settings|, flags, v);
    assert Spliced(o.settings, n.settings, |o.settings|) == n.settings;
    UndoAppliesBack(v, changes);
    if changes != [] && Compared(o) == Compared(n) {
      EqualSplice(o.settings, n.settings, AGENTS_AT);
    }
  }

  lemma EqualSplice(o: seq<Value>, n: seq<Value>, k: nat)
    requires o == n && k <= |o|
    ensures Spliced(o, n, k) == o
  {
  }

  lemma FieldCount()
    ensures |FIELDS| == 46
  {
  }
}
