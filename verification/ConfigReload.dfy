/** Hot reload (internal/config/reload.go): what one reload does to the current
    configuration, and when the debounced file watcher reloads. */
module ConfigReloads {
  import opened Wrappers
  import opened ConfigDiffs

  /** The current configuration after loading the file: unchanged when loading
      fails, and also when nothing that Diff compares differs. */
  function Reloaded(current: Config, loaded: Option<Config>): Config {
    if loaded.None? || Compared(current) == Compared(loaded.value) then current else loaded.value
  }

  class ConfigReloader {
    var currentCfg: Config
    var subscribers: seq<nat>

    constructor (initialCfg: Config)
      ensures currentCfg == initialCfg && subscribers == []
    {
      currentCfg, subscribers := initialCfg, [];
    }

    method Register(sub: nat)
      modifies this`subscribers
      ensures subscribers == old(subscribers) + [sub]
    {
      subscribers := subscribers + [sub];
    }

    /** Subscribers in `failing` return an error, which stops nobody else from
        being notified. */
    method Reload(loaded: Option<Config>, failing: set<nat>) returns (ok: bool, notified: seq<nat>, errors: seq<nat>)
      requires WellFormed(currentCfg) && (loaded.Some? ==> WellFormed(loaded.value))
      modifies this`currentCfg
      ensures ok <==> loaded.Some?
      ensures currentCfg == Reloaded(old(currentCfg), loaded) && WellFormed(currentCfg)
      ensures ok ==> Compared(currentCfg) == Compared(loaded.value)
      ensures notified == if ok && Compared(old(currentCfg)) != Compared(loaded.value) then subscribers else []
      ensures forall s :: s in errors <==> s in notified && s in failing
    {
      notified, errors := [], [];
      if loaded.None? {
        return false, [], [];
      }
      var newCfg := loaded.value;
      var changes := Diff(currentCfg, newCfg);
      if |changes| == 0 {
        return true, [], [];
      }
      currentCfg := newCfg;
      var subs := subscribers;
      for i := 0 to |subs|
        invariant notified == subs[..i]
        invariant forall s :: s in errors <==> s in notified && s in failing
      {
        notified := notified + [subs[i]];
        if subs[i] in failing {
          errors := errors + [subs[i]];
        }
      }
      ok := true;
    }
  }

  /** The current configuration after a series of reloads. */
  function AfterReloads(initial: Config, loads: seq<Option<Config>>): Config {
    if loads == [] then initial
    else Reloaded(AfterReloads(initial, loads[..|loads| - 1]), loads[|loads| - 1])
  }

  function LastLoaded(initial: Config, loads: seq<Option<Config>>): Config {
    if loads == [] then initial
    else if loads[|loads| - 1].Some? then loads[|loads| - 1].value
    else LastLoaded(initial, loads[..|loads| - 1])
  }

  /** After any series of reloads the current configuration is one of those that
      were loaded, whole, and agrees with the last one loaded on all that is compared. */
  lemma {:induction false} CurrentAgreesWithLastLoaded(initial: Config, loads: seq<Option<Config>>)
    ensures Compared(AfterReloads(initial, loads)) == Compared(LastLoaded(initial, loads))
    ensures AfterReloads(initial, loads) == initial || Some(AfterReloads(initial, loads)) in loads
  {
    if loads != [] {
      var front := loads[..|loads| - 1];
      CurrentAgreesWithLastLoaded(initial, front);
      assert loads == front + [loads[|loads| - 1]];
    }
  }

  /** The initial configuration and those loaded, in order. */
  function History(initial: Config, loads: seq<Option<Config>>): (h: seq<Config>)
    ensures h != []
  {
    if loads == [] then [initial]
    else
      History(initial, loads[..|loads| - 1])
      + if loads[|loads| - 1].Some? then [loads[|loads| - 1].value] else []
  }

  /** The configuration in force is the first of the latest stretch of loaded
      ones that agree on all that is compared: later edits of the rest alone, of
      the policies for one, are dropped although their reloads report success. */
  lemma {:induction false} InForceSince(initial: Config, loads: seq<Option<Config>>) returns (j: nat)
    ensures var h := History(initial, loads);
      && j < |h| && AfterReloads(initial, loads) == h[j] && LastLoaded(initial, loads) == h[|h| - 1]
      && (j > 0 ==> Compared(h[j - 1]) != Compared(h[j]))
      && forall m :: j <= m < |h| ==> Compared(h[m]) == Compared(h[j])
  {
    if loads == [] {
      j := 0;
    } else {
      j := InForceSince(initial, loads[..|loads| - 1]);
      var h := History(initial, loads);
      if Compared(h[|h| - 1]) != Compared(h[j]) {
        j := |h| - 1;
      }
    }
  }

  /** Loading b after a takes effect: they are the same or differ in something compared. */
  predicate TakesEffect(a: Config, b: Config) {
    a == b || Compared(a) != Compared(b)
  }

  ghost predicate AlwaysInForce(initial: Config, loads: seq<Option<Config>>) {
    forall k :: 0 <= k <= |loads| ==> AfterReloads(initial, loads[..k]) == LastLoaded(initial, loads[..k])
  }

  ghost predicate AllTakeEffect(h: seq<Config>) {
    forall m, n :: 0 <= m && m + 1 == n < |h| ==> TakesEffect(h[m], h[n])
  }

  /** The configuration last loaded is in force after every reload of a series
      exactly when each one loaded is the one before it or differs from it in
      something compared. */
  lemma {:induction false} LoadedInForceExactlyWhen(initial: Config, loads: seq<Option<Config>>)
    ensures AlwaysInForce(initial, loads) <==> AllTakeEffect(History(initial, loads))
  {
    if loads == [] {
      assert loads[..0] == loads;
    } else {
      var front := loads[..|loads| - 1];
      LoadedInForceExactlyWhen(initial, front);
      var j := InForceSince(initial, front);
      InForceStep(initial, loads);
      TakeEffectStep(initial, loads);
      assert front[..|front|] == front;
    }
  }

  /** Such an edit of the rest alone is dropped. */
  lemma EditOfRestIsDropped(c: Config, rest: string)
    requires rest != c.rest
    ensures var loads := [Some(c.(rest := rest))];
      AfterReloads(c, loads) == c && !AlwaysInForce(c, loads)
  {
    var edited := c.(rest := rest);
    var loads, none: seq<Option<Config>> := [Some(edited)], [];
    assert loads[..0] == none && loads[..1] == loads;
    assert Compared(edited) == Compared(c);
    assert LastLoaded(c, loads) == edited;
  }

  lemma InForceStep(initial: Config, loads: seq<Option<Config>>)
    requires loads != []
    ensures AlwaysInForce(initial, loads) <==>
      AlwaysInForce(initial, loads[..|loads| - 1]) && AfterReloads(initial, loads) == LastLoaded(initial, loads)
  {
    var front := loads[..|loads| - 1];
    assert forall k :: 0 <= k <= |front| ==> front[..k] == loads[..k];
    assert loads[..|loads|] == loads;
    if AlwaysInForce(initial, loads) {
      forall k | 0 <= k <= |front|
        ensures AfterReloads(initial, front[..k]) == LastLoaded(initial, front[..k])
      {
        assert AfterReloads(initial, loads[..k]) == LastLoaded(initial, loads[..k]);
      }
    }
  }

  lemma TakeEffectStep(initial: Config, loads: seq<Option<Config>>)
    requires loads != []
    ensures var h, last := History(initial, loads[..|loads| - 1]), loads[|loads| - 1];
      AllTakeEffect(History(initial, loads)) <==>
        AllTakeEffect(h) && (last.Some? ==> TakesEffect(h[|h| - 1], last.value))
  {
    if loads[|loads| - 1].Some? {
      AllTakeEffectSnoc(History(initial, loads[..|loads| - 1]), loads[|loads| - 1].value);
    } else {
      assert History(initial, loads) == History(initial, loads[..|loads| - 1]);
    }
  }

  lemma AllTakeEffectSnoc(h: seq<Config>, c: Config)
    requires h != []
    ensures AllTakeEffect(h + [c]) <==> AllTakeEffect(h) && TakesEffect(h[|h| - 1], c)
  {
    var h' := h + [c];
    if AllTakeEffect(h') {
      forall m, n | 0 <= m && m + 1 == n < |h|
        ensures TakesEffect(h[m], h[n])
      {
        assert TakesEffect(h'[m], h'[n]);
      }
      assert TakesEffect(h'[|h| - 1], h'[|h|]);
    }
  }

  // The watch loop.

  datatype Op = Write | Create | Rename | Remove | Chmod

  /** What the select receives. A timer may fire only when armed and due. */
  datatype Input =
    | Signal(time: int)
    | File(time: int, ops: set<Op>)
    | WatcherError(time: int)
    | TimerFires(time: int)
    | Closed(time: int)
    | Canceled(time: int)

  predicate Relevant(i: Input) {
    i.File? && (Write in i.ops || Create in i.ops || Rename in i.ops)
  }

  datatype Entry = Handled(time: int) | TimerReload(time: int) | SignalReload(time: int)

  predicate Timed(inputs: seq<Input>) {
    forall i, j :: 0 <= i < j < |inputs| ==> inputs[i].time <= inputs[j].time
  }

  /** What the log says about the timer: armed by the latest event since the last
      timer reload, due `debounce` after it. */
  function Due(log: seq<Entry>, debounce: int): Option<int> {
    if log == [] then None
    else
      match log[|log| - 1]
      case Handled(t) => Some(t + debounce)
      case TimerReload(_) => None
      case SignalReload(_) => Due(log[..|log| - 1], debounce)
  }

  /** A log in time order in which every timer reload was due. */
  predicate Legal(log: seq<Entry>, debounce: int) {
    && (forall i, j :: 0 <= i < j < |log| ==> log[i].time <= log[j].time)
    && (forall i :: 0 <= i < |log| && log[i].TimerReload? ==>
          Due(log[..i], debounce).Some? && Due(log[..i], debounce).value <= log[i].time)
  }

  /** One input's entry in the log; a timer firing before it is due has none. */
  function EntriesFor(log: seq<Entry>, debounce: int, i: Input): seq<Entry> {
    match i
    case Signal(t) => [SignalReload(t)]
    case File(t, _) => if Relevant(i) then [Handled(t)] else []
    case TimerFires(t) =>
      if Due(log, debounce).Some? && Due(log, debounce).value <= t then [TimerReload(t)] else []
    case _ => []
  }

  function LogOf(inputs: seq<Input>, debounce: int): seq<Entry> {
    if inputs == [] then []
    else
      var log := LogOf(inputs[..|inputs| - 1], debounce);
      log + EntriesFor(log, debounce, inputs[|inputs| - 1])
  }

  predicate Ends(i: Input) {
    i.Closed? || i.Canceled?
  }

  /** After the first k inputs: the log, and the timer it implies. */
  predicate Logged(inputs: seq<Input>, k: nat, debounce: int, log: seq<Entry>, timer: Option<int>)
    requires k <= |inputs|
  {
    log == LogOf(inputs[..k], debounce) && timer == Due(log, debounce)
  }

  lemma LogStep(inputs: seq<Input>, k: nat, debounce: int, log: seq<Entry>, timer: Option<int>)
    requires k < |inputs| && Logged(inputs, k, debounce, log, timer)
    ensures var i := inputs[k];
      if i.Signal? then Logged(inputs, k + 1, debounce, log + [SignalReload(i.time)], timer)
      else if Relevant(i) then Logged(inputs, k + 1, debounce, log + [Handled(i.time)], Some(i.time + debounce))
      else if i.TimerFires? && timer.Some? && timer.value <= i.time then
        Logged(inputs, k + 1, debounce, log + [TimerReload(i.time)], None)
      else Logged(inputs, k + 1, debounce, log, timer)
  {
    assert inputs[..k + 1][..k] == inputs[..k];
    var entries := EntriesFor(log, debounce, inputs[k]);
    if entries == [] {
      assert log + entries == log;
    } else {
      assert (log + entries)[..|log|] == log;
    }
  }

  /** run: the log, how many inputs were taken before the loop ended, and the
      armed timer's deadline. */
  method Run(inputs: seq<Input>, debounce: int) returns (log: seq<Entry>, taken: nat, timer: Option<int>)
    ensures taken <= |inputs| && forall i :: 0 <= i < taken ==> !inputs[i].Closed? && !inputs[i].Canceled?
    ensures taken < |inputs| ==> inputs[taken].Closed? || inputs[taken].Canceled?
    ensures log == LogOf(inputs[..taken], debounce) && timer == Due(log, debounce)
  {
    log, timer, taken := [], None, 0;
    while taken < |inputs| && !Ends(inputs[taken])
      invariant taken <= |inputs| && forall i :: 0 <= i < taken ==> !Ends(inputs[i])
      invariant Logged(inputs, taken, debounce, log, timer)
    {
      var input := inputs[taken];
      LogStep(inputs, taken, debounce, log, timer);
      match input {
        case Signal(t) =>
          log := log + [SignalReload(t)];
        case File(t, ops) =>
          if Write in ops || Create in ops || Rename in ops {
            timer := Some(t + debounce);
            log := log + [Handled(t)];
          }
        case TimerFires(t) =>
          if timer.Some? && timer.value <= t {
            timer := None;
            log := log + [TimerReload(t)];
          }
        case _ =>
      }
      taken := taken + 1;
    }
  }

  /** On a clock that never goes back the log is legal, and none of its entries
      is later than the inputs. */
  lemma {:induction false} LogIsLegal(inputs: seq<Input>, debounce: int)
    requires Timed(inputs)
    ensures Legal(LogOf(inputs, debounce), debounce)
    ensures forall i :: 0 <= i < |LogOf(inputs, debounce)| ==>
      inputs != [] && LogOf(inputs, debounce)[i].time <= inputs[|inputs| - 1].time
  {
    if inputs != [] {
      var front := inputs[..|inputs| - 1];
      LogIsLegal(front, debounce);
      var log := LogOf(front, debounce);
      var entries := EntriesFor(log, debounce, inputs[|inputs| - 1]);
      if entries == [] {
        assert log + entries == log;
      } else {
        LegalStep(log, entries[0], debounce);
        assert entries == [entries[0]];
      }
    }
  }

  lemma LegalStep(log: seq<Entry>, e: Entry, debounce: int)
    requires Legal(log, debounce)
    requires forall i :: 0 <= i < |log| ==> log[i].time <= e.time
    requires e.TimerReload? ==> Due(log, debounce).Some? && Due(log, debounce).value <= e.time
    ensures Legal(log + [e], debounce)
  {
    forall i | 0 <= i <= |log|
      ensures (log + [e])[..i] == log[..i]
    {
    }
    assert log[..|log|] == log;
  }

  /** The timer is armed exactly when an event came after the last timer reload,
      for the latest such event. */
  lemma {:induction false} DueIsLatestEvent(log: seq<Entry>, debounce: int) returns (j: nat)
    requires Due(log, debounce).Some?
    ensures j < |log| && log[j].Handled? && Due(log, debounce).value == log[j].time + debounce
    ensures forall m :: j < m < |log| ==> log[m].SignalReload?
  {
    var last := log[|log| - 1];
    if last.Handled? {
      j := |log| - 1;
    } else {
      j := DueIsLatestEvent(log[..|log| - 1], debounce);
    }
  }

  /** A timer reload comes at least `debounce` after every event before it. */
  lemma TimerReloadAfterQuiet(log: seq<Entry>, debounce: int, i: nat, e: nat)
    requires Legal(log, debounce) && e < i < |log| && log[i].TimerReload? && log[e].Handled?
    ensures log[i].time >= log[e].time + debounce
  {
    var j := DueIsLatestEvent(log[..i], debounce);
  }

  /** Between two timer reloads there is an event, so they are `debounce` apart. */
  lemma TimerReloadsApart(log: seq<Entry>, debounce: int, i: nat, k: nat) returns (e: nat)
    requires Legal(log, debounce) && i < k < |log| && log[i].TimerReload? && log[k].TimerReload?
    ensures i < e < k && log[e].Handled? && log[k].time >= log[i].time + debounce
  {
    e := DueIsLatestEvent(log[..k], debounce);
  }

  function Count(log: seq<Entry>, events: bool): nat {
    if log == [] then 0
    else
      var last := log[|log| - 1];
      Count(log[..|log| - 1], events) + if (if events then last.Handled? else last.TimerReload?) then 1 else 0
  }

  /** Timer reloads, with the one still to come, are no more than events. */
  lemma {:induction false} ReloadsNoMoreThanEvents(log: seq<Entry>, debounce: int)
    requires Legal(log, debounce)
    ensures Count(log, false) + (if Due(log, debounce).Some? then 1 else 0) <= Count(log, true)
  {
    if log != [] {
      var front := log[..|log| - 1];
      forall i | 0 <= i < |front|
        ensures front[..i] == log[..i]
      {
      }
      ReloadsNoMoreThanEvents(front, debounce);
    }
  }

  /** A timer reload follows event e. */
  ghost predicate Covered(log: seq<Entry>, e: nat) {
    exists i :: e < i < |log| && log[i].TimerReload?
  }

  ghost predicate AllCovered(log: seq<Entry>) {
    forall e :: 0 <= e < |log| && log[e].Handled? ==> Covered(log, e)
  }

  lemma CoveredStep(log: seq<Entry>)
    requires log != []
    ensures AllCovered(log) <==>
      log[|log| - 1].TimerReload? || (log[|log| - 1].SignalReload? && AllCovered(log[..|log| - 1]))
  {
    var front, last := log[..|log| - 1], |log| - 1;
    match log[last] {
      case Handled(_) =>
        assert log[last].Handled? && !Covered(log, last);
      case TimerReload(_) =>
        assert forall e :: 0 <= e < last ==> Covered(log, e);
      case SignalReload(_) =>
        forall e | 0 <= e < last
          ensures Covered(front, e) <==> Covered(log, e)
        {
          if Covered(front, e) {
            var i :| e < i < |front| && front[i].TimerReload?;
            assert log[i].TimerReload?;
          }
          if Covered(log, e) {
            var i :| e < i < |log| && log[i].TimerReload?;
            assert front[i].TimerReload?;
          }
        }
    }
  }

  /** Once the timer is unarmed every event has been followed by a timer reload,
      and an event not followed by one keeps the timer armed. */
  lemma {:induction false} EventsCoveredExactlyWhenUnarmed(log: seq<Entry>, debounce: int)
    ensures Due(log, debounce).None? <==> AllCovered(log)
  {
    if log != [] {
      CoveredStep(log);
      EventsCoveredExactlyWhenUnarmed(log[..|log| - 1], debounce);
    }
  }

  // The watch loop and its reloads together, in terms of the inputs.

  /** An editor wrote, created or replaced the file. */
  predicate ChangesFile(i: Input) {
    i.File? && i.ops * {Write, Create, Rename} != {}
  }

  /** Input j armed the timer that runs after k inputs: the file was not changed
      since, and the timer has not fired when due. */
  ghost predicate ArmedBy(inputs: seq<Input>, debounce: int, j: nat, k: nat)
    requires k <= |inputs|
  {
    && j < k && ChangesFile(inputs[j])
    && forall m :: j < m < k ==>
         !ChangesFile(inputs[m]) && !(inputs[m].TimerFires? && inputs[m].time >= inputs[j].time + debounce)
  }

  lemma ArmedNext(inputs: seq<Input>, debounce: int, k: nat)
    requires k < |inputs|
    ensures forall j: nat :: ArmedBy(inputs, debounce, j, k + 1) <==>
      if ChangesFile(inputs[k]) then j == k
      else ArmedBy(inputs, debounce, j, k)
           && !(inputs[k].TimerFires? && inputs[k].time >= inputs[j].time + debounce)
  {
  }

  /** Write, create and rename events and no other inputs arm the timer, due
      `debounce` after the latest of them; it runs until it fires when due. */
  lemma {:induction false} TimerExactlyWhen(inputs: seq<Input>, debounce: int, k: nat)
    requires k <= |inputs|
    ensures var timer := Due(LogOf(inputs[..k], debounce), debounce);
      && (timer.Some? <==> exists j: nat :: ArmedBy(inputs, debounce, j, k))
      && forall j: nat :: ArmedBy(inputs, debounce, j, k) ==> timer == Some(inputs[j].time + debounce)
  {
    if k > 0 {
      TimerExactlyWhen(inputs, debounce, k - 1);
      ArmedNext(inputs, debounce, k - 1);
      var log := LogOf(inputs[..k - 1], debounce);
      LogStep(inputs, k - 1, debounce, log, Due(log, debounce));
      OpsChangeFile(inputs[k - 1]);
      if ChangesFile(inputs[k - 1]) {
        assert ArmedBy(inputs, debounce, k - 1, k);
      }
    }
  }

  lemma OpsChangeFile(i: Input)
    ensures ChangesFile(i) <==> Relevant(i)
  {
    if Relevant(i) {
      var op := if Write in i.ops then Write else if Create in i.ops then Create else Rename;
      assert op in i.ops * {Write, Create, Rename};
    }
  }

  /** Input i makes the loop reload: a signal, or a timer that fires when due. */
  ghost predicate ReloadsAt(inputs: seq<Input>, debounce: int, i: nat)
    requires i < |inputs|
  {
    inputs[i].Signal? || (inputs[i].TimerFires? && exists j: nat :: DueFrom(inputs, debounce, j, i))
  }

  ghost predicate DueFrom(inputs: seq<Input>, debounce: int, j: nat, i: nat)
    requires i < |inputs|
  {
    ArmedBy(inputs, debounce, j, i) && inputs[j].time + debounce <= inputs[i].time
  }

  /** What an input leaves in the log: every signal and every timer that fires when
      due a reload, every change of the file an event, other inputs nothing. */
  lemma InputIsLogged(inputs: seq<Input>, debounce: int, k: nat)
    requires k < |inputs|
    ensures var log, t := LogOf(inputs[..k], debounce), inputs[k].time;
      LogOf(inputs[..k + 1], debounce) ==
        if inputs[k].Signal? then log + [SignalReload(t)]
        else if ReloadsAt(inputs, debounce, k) then log + [TimerReload(t)]
        else if ChangesFile(inputs[k]) then log + [Handled(t)]
        else log
  {
    var log := LogOf(inputs[..k], debounce);
    TimerExactlyWhen(inputs, debounce, k);
    LogStep(inputs, k, debounce, log, Due(log, debounce));
    OpsChangeFile(inputs[k]);
    if exists j: nat :: ArmedBy(inputs, debounce, j, k) {
      var j: nat :| ArmedBy(inputs, debounce, j, k);
      assert DueFrom(inputs, debounce, j, k) <==> inputs[j].time + debounce <= inputs[k].time;
    }
  }

  /** The current configuration after the first k inputs, when a reload at input i
      finds loads[i]. */
  ghost function InForce(initial: Config, inputs: seq<Input>, loads: seq<Option<Config>>, debounce: int, k: nat): Config
    requires k <= |inputs| == |loads|
  {
    if k == 0 then initial
    else
      var before := InForce(initial, inputs, loads, debounce, k - 1);
      if ReloadsAt(inputs, debounce, k - 1) then Reloaded(before, loads[k - 1]) else before
  }

  /** Input i makes the loop reload, and the file loads. */
  ghost predicate Succeeds(inputs: seq<Input>, loads: seq<Option<Config>>, debounce: int, i: nat)
    requires i < |inputs| == |loads|
  {
    ReloadsAt(inputs, debounce, i) && loads[i].Some?
  }

  ghost predicate LastSuccess(inputs: seq<Input>, loads: seq<Option<Config>>, debounce: int, k: nat, i: nat)
    requires k <= |inputs| == |loads|
  {
    && i < k && Succeeds(inputs, loads, debounce, i)
    && forall m :: i < m < k ==> !Succeeds(inputs, loads, debounce, m)
  }

  lemma {:induction false} InForceIsLastSuccess(initial: Config, inputs: seq<Input>, loads: seq<Option<Config>>,
                                              debounce: int, k: nat, i: nat)
    requires k <= |inputs| == |loads| && LastSuccess(inputs, loads, debounce, k, i)
    ensures Compared(InForce(initial, inputs, loads, debounce, k)) == Compared(loads[i].value)
  {
    if i < k - 1 {
      InForceIsLastSuccess(initial, inputs, loads, debounce, k - 1, i);
      assert !Succeeds(inputs, loads, debounce, k - 1);
    }
  }

  lemma {:induction false} SomeLastSuccess(inputs: seq<Input>, loads: seq<Option<Config>>, debounce: int,
                                         k: nat, i: nat) returns (j: nat)
    requires i < k <= |inputs| == |loads| && Succeeds(inputs, loads, debounce, i)
    ensures i <= j && LastSuccess(inputs, loads, debounce, k, j)
  {
    if Succeeds(inputs, loads, debounce, k - 1) {
      j := k - 1;
    } else {
      j := SomeLastSuccess(inputs, loads, debounce, k - 1, i);
    }
  }

  /** A change of the file either left the timer running or was followed by a timer
      reload at least `debounce` later. */
  lemma {:induction false} ChangeIsReloaded(inputs: seq<Input>, debounce: int, e: nat, k: nat) returns (i: nat)
    requires Timed(inputs) && e < k <= |inputs| && ChangesFile(inputs[e])
    requires forall j: nat :: !ArmedBy(inputs, debounce, j, k)
    ensures e < i < k && inputs[i].TimerFires? && ReloadsAt(inputs, debounce, i)
    ensures inputs[i].time >= inputs[e].time + debounce
  {
    var last := k - 1;
    ArmedNext(inputs, debounce, last);
    assert !ChangesFile(inputs[last]) by {
      if ChangesFile(inputs[last]) {
        assert ArmedBy(inputs, debounce, last, k);
      }
    }
    if exists j: nat :: ArmedBy(inputs, debounce, j, last) {
      var j: nat :| ArmedBy(inputs, debounce, j, last);
      assert !ArmedBy(inputs, debounce, j, k);
      assert DueFrom(inputs, debounce, j, last);
      assert j >= e;
      i := last;
    } else {
      i := ChangeIsReloaded(inputs, debounce, e, last);
    }
  }

  /** Once the timer is unarmed every change of the file has been followed by a
      timer reload at least `debounce` later; if that reload or one since then
      succeeded, the configuration in force agrees on all that is compared with
      the last one loaded, and that load too came `debounce` after the change. */
  lemma QuietMeansReloaded(initial: Config, inputs: seq<Input>, loads: seq<Option<Config>>, debounce: int, e: nat)
      returns (i: nat)
    requires Timed(inputs) && |loads| == |inputs| && e < |inputs| && ChangesFile(inputs[e])
    requires Due(LogOf(inputs, debounce), debounce) == None
    ensures e < i < |inputs| && inputs[i].TimerFires? && ReloadsAt(inputs, debounce, i)
    ensures inputs[i].time >= inputs[e].time + debounce
    ensures (exists m :: i <= m < |inputs| && Succeeds(inputs, loads, debounce, m)) ==>
      exists j :: i <= j < |inputs| && LastSuccess(inputs, loads, debounce, |inputs|, j)
                  && inputs[j].time >= inputs[e].time + debounce
                  && Compared(InForce(initial, inputs, loads, debounce, |inputs|)) == Compared(loads[j].value)
  {
    assert inputs[..|inputs|] == inputs;
    TimerExactlyWhen(inputs, debounce, |inputs|);
    i := ChangeIsReloaded(inputs, debounce, e, |inputs|);
    if m :| i <= m < |inputs| && Succeeds(inputs, loads, debounce, m) {
      var j := SomeLastSuccess(inputs, loads, debounce, |inputs|, m);
      InForceIsLastSuccess(initial, inputs, loads, debounce, |inputs|, j);
      assert i == j || inputs[i].time <= inputs[j].time;
    }
  }
}
