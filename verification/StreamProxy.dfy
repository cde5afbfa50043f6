/** The SSE proxy (internal/proxy/sse.go): the reader goroutine, the channel
    between it and the select loop, what the client receives, and the stream slot. */
module StreamProxying {
  import opened Wrappers
  import opened EventStreams
  import opened StreamProtocol
  import opened StreamManagers

  /** Who moves next: the reader goroutine, or one ready branch of the select. */
  datatype Choice = Reader | ClientGone | IdleTimeout | Receive

  datatype Ending = Open | Disconnected | TimedOut | BackendEnded | BackendFailed

  /** An item of the channel: a line, or the scanner's error. */
  datatype Item = Line(line: string) | Failure

  function ErrorMessage(e: Ending): string {
    "{" + (if e.TimedOut? then "\"code\":408,\"message\":\"Stream idle timeout\""
           else "\"code\":502,\"message\":\"Backend stream error\"") + "}"
  }

  /** The lines of the error event written for an ending. */
  function ErrorLines(e: Ending): seq<string> {
    if e.TimedOut? || e.BackendFailed? then ["event: " + "error", "data: " + ErrorMessage(e), ""] else []
  }

  /** The reader's and the loop's variables: lines put into the channel, the
      channel, whether the failure was put there and the channel closed, lines
      written to the client, and how the loop ended. */
  datatype Loop = Loop(read: nat, channel: Option<Item>, failed: bool, closed: bool, sent: nat, ending: Ending)

  const START := Loop(0, None, false, false, 0, Open)

  /** One move of an open loop; a move that is not ready changes nothing. */
  function Moved(backend: seq<string>, readFails: bool, s: Loop, choice: Choice): Loop {
    match choice
    case ClientGone => s.(ending := Disconnected)
    case IdleTimeout => s.(ending := TimedOut)
    case Reader =>
      if s.read < |backend| then
        if s.channel.None? then s.(channel := Some(Line(backend[s.read])), read := s.read + 1) else s
      else if readFails && !s.failed then
        if s.channel.None? then s.(channel := Some(Failure), failed := true) else s
      else s.(closed := true)
    case Receive =>
      if s.channel.None? then (if s.closed then s.(ending := BackendEnded) else s)
      else if s.channel.value.Failure? then s.(channel := None, ending := BackendFailed)
      else s.(channel := None, sent := s.sent + 1)
  }

  function After(backend: seq<string>, readFails: bool, schedule: seq<Choice>): Loop {
    if schedule == [] then START
    else
      var s := After(backend, readFails, schedule[..|schedule| - 1]);
      if s.ending == Open then Moved(backend, readFails, s, schedule[|schedule| - 1]) else s
  }

  /** The forwarding part of ProxyStream under a schedule of moves: the scanner
      yields the backend's lines and then ends, with an error or not. The channel
      holds one item. */
  method Forward(backend: seq<string>, readFails: bool, schedule: seq<Choice>)
      returns (body: seq<string>, sent: nat, ending: Ending)
    ensures sent == After(backend, readFails, schedule).sent && ending == After(backend, readFails, schedule).ending
    ensures sent <= |backend| && body == backend[..sent] + ErrorLines(ending)
  {
    body, sent, ending := [], 0, Open;
    var read := 0;
    var channel: Option<Item> := None;
    var failed, closed := false, false;
    var k := 0;
    while k < |schedule| && ending == Open
      invariant 0 <= k <= |schedule|
      invariant Forwarded(backend, readFails, schedule, k, Loop(read, channel, failed, closed, sent, ending), body)
    {
      ForwardedNext(backend, readFails, schedule, k, Loop(read, channel, failed, closed, sent, ending), body);
      var choice := schedule[k];
      match choice {
        case Reader =>
          if read < |backend| {
            if channel.None? {
              channel := Some(Line(backend[read]));
              read := read + 1;
            }
          } else if readFails && !failed {
            if channel.None? {
              channel, failed := Some(Failure), true;
            }
          } else {
            closed := true;
          }
        case ClientGone =>
          ending := Disconnected;
        case IdleTimeout =>
          ending := TimedOut;
          body := body + ErrorLines(TimedOut);
        case Receive =>
          if channel.Some? {
            var item := channel.value;
            channel := None;
            if item.Failure? {
              ending := BackendFailed;
              body := body + ErrorLines(BackendFailed);
            } else {
              body := body + [item.line];
              sent := sent + 1;
            }
          } else if closed {
            ending := BackendEnded;
          }
      }
      k := k + 1;
    }
    EndedStaysEnded(backend, readFails, schedule, k);
  }

  /** After k moves: the variables, and what has been written. */
  ghost predicate Forwarded(backend: seq<string>, readFails: bool, schedule: seq<Choice>, k: nat, s: Loop,
                          body: seq<string>)
    requires k <= |schedule|
  {
    && s == After(backend, readFails, schedule[..k])
    && s.sent <= |backend| && body == backend[..s.sent] + ErrorLines(s.ending)
  }

  /** The lines a move writes to the client. */
  function WrittenBy(s: Loop, choice: Choice): seq<string> {
    match choice
    case IdleTimeout => ErrorLines(TimedOut)
    case Receive =>
      if s.channel.None? then []
      else if s.channel.value.Failure? then ErrorLines(BackendFailed) else [s.channel.value.line]
    case _ => []
  }

  lemma ForwardedNext(backend: seq<string>, readFails: bool, schedule: seq<Choice>, k: nat, s: Loop, body: seq<string>)
    requires k < |schedule| && Forwarded(backend, readFails, schedule, k, s, body) && s.ending == Open
    ensures s.channel.Some? && s.channel.value.Line? ==> s.sent < |backend|
    ensures Forwarded(backend, readFails, schedule, k + 1, Moved(backend, readFails, s, schedule[k]),
                    body + WrittenBy(s, schedule[k]))
  {
    LoopInv(backend, readFails, schedule[..k]);
    assert schedule[..k + 1][..k] == schedule[..k];
    assert ErrorLines(Open) == [] && backend[..s.sent] + [] == backend[..s.sent];
    MoveWrites(backend, readFails, s, schedule[k]);
  }

  lemma MoveWrites(backend: seq<string>, readFails: bool, s: Loop, choice: Choice)
    requires Consistent(backend, readFails, s) && s.ending == Open
    ensures var s' := Moved(backend, readFails, s, choice);
      s'.sent <= |backend| && backend[..s'.sent] + ErrorLines(s'.ending) == backend[..s.sent] + WrittenBy(s, choice)
  {
    if choice == Receive && s.channel.Some? && s.channel.value.Line? {
      assert backend[..s.sent + 1] == backend[..s.sent] + [backend[s.sent]];
      assert backend[..s.sent + 1] + [] == backend[..s.sent + 1];
    }
  }

  lemma {:induction false} EndedStaysEnded(backend: seq<string>, readFails: bool, schedule: seq<Choice>, k: nat)
    requires k <= |schedule|
    requires k == |schedule| || After(backend, readFails, schedule[..k]).ending != Open
    ensures After(backend, readFails, schedule) == After(backend, readFails, schedule[..k])
    decreases |schedule|
  {
    if k == |schedule| {
      assert schedule[..k] == schedule;
    } else {
      var front := schedule[..|schedule| - 1];
      assert front[..k] == schedule[..k];
      EndedStaysEnded(backend, readFails, front, k);
    }
  }

  /** The line in the channel is the next one to write; a failure comes after all
      lines; the channel is closed only when everything has gone into it. */
  predicate Consistent(backend: seq<string>, readFails: bool, s: Loop) {
    && s.sent <= s.read <= |backend|
    && (s.channel.Some? && s.channel.value.Line? ==> s.read == s.sent + 1 && s.channel.value.line == backend[s.sent])
    && (s.channel == None || s.channel == Some(Failure) ==> s.sent == s.read)
    && (s.channel == Some(Failure) ==> s.failed)
    && (s.failed ==> readFails && s.read == |backend| && (s.channel == Some(Failure) || s.ending != Open))
    && (s.closed ==> s.read == |backend| && (s.failed || !readFails))
    && (s.ending.BackendEnded? ==> s.sent == |backend| && !readFails)
    && (s.ending.BackendFailed? ==> s.sent == |backend| && readFails)
  }

  lemma MoveKeepsConsistent(backend: seq<string>, readFails: bool, s: Loop, choice: Choice)
    requires Consistent(backend, readFails, s) && s.ending == Open
    ensures Consistent(backend, readFails, Moved(backend, readFails, s, choice))
  {
  }

  lemma {:induction false} LoopInv(backend: seq<string>, readFails: bool, schedule: seq<Choice>)
    ensures Consistent(backend, readFails, After(backend, readFails, schedule))
  {
    if schedule != [] {
      var front := schedule[..|schedule| - 1];
      LoopInv(backend, readFails, front);
      if After(backend, readFails, front).ending == Open {
        MoveKeepsConsistent(backend, readFails, After(backend, readFails, front), schedule[|schedule| - 1]);
      }
    }
  }

  /** What each ending tells about the backend and about who moved. */
  lemma {:induction false} EndingMeans(backend: seq<string>, readFails: bool, schedule: seq<Choice>)
    ensures var s := After(backend, readFails, schedule);
      && s.sent <= |backend|
      && (s.ending.BackendEnded? ==> s.sent == |backend| && !readFails)
      && (s.ending.BackendFailed? ==> s.sent == |backend| && readFails)
      && (s.ending.Disconnected? ==> ClientGone in schedule)
      && (s.ending.TimedOut? ==> IdleTimeout in schedule)
      && (s.ending == Open ==> ClientGone !in schedule && IdleTimeout !in schedule)
  {
    LoopInv(backend, readFails, schedule);
    if schedule != [] {
      var front := schedule[..|schedule| - 1];
      EndingMeans(backend, readFails, front);
      assert schedule == front + [schedule[|schedule| - 1]];
    }
  }

  /** The moves of reader and loop that can still have an effect. */
  function Work(backend: seq<string>, readFails: bool, s: Loop): nat
    requires s.read <= |backend|
  {
    2 * (|backend| - s.read) + (if s.channel.Some? then 1 else 0) + (if readFails && !s.failed then 2 else 0)
    + (if s.closed then 0 else 1) + (if s.ending == Open then 1 else 0)
  }

  /** No deadlock: the reader or the loop can move, and each real move is work done. */
  lemma RoundDoesWork(backend: seq<string>, readFails: bool, s: Loop)
    requires Consistent(backend, readFails, s) && s.ending == Open
    ensures var r := Moved(backend, readFails, s, Reader);
      && Consistent(backend, readFails, r) && r.ending == Open
      && Work(backend, readFails, r) <= Work(backend, readFails, s)
      && var t := Moved(backend, readFails, r, Receive);
         Consistent(backend, readFails, t) && Work(backend, readFails, t) < Work(backend, readFails, s)
  {
    MoveKeepsConsistent(backend, readFails, s, Reader);
    MoveKeepsConsistent(backend, readFails, Moved(backend, readFails, s, Reader), Receive);
  }

  lemma MoveMakesNoWork(backend: seq<string>, readFails: bool, s: Loop, choice: Choice)
    requires Consistent(backend, readFails, s) && s.ending == Open
    ensures Moved(backend, readFails, s, choice).read <= |backend|
    ensures Work(backend, readFails, Moved(backend, readFails, s, choice)) <= Work(backend, readFails, s)
  {
  }

  /** How often the reader's move is directly followed by a receive. */
  function Rounds(schedule: seq<Choice>): nat {
    if |schedule| < 2 then 0
    else Rounds(schedule[..|schedule| - 1])
         + if schedule[|schedule| - 2] == Reader && schedule[|schedule| - 1] == Receive then 1 else 0
  }

  lemma {:induction false} RoundsDoWork(backend: seq<string>, readFails: bool, schedule: seq<Choice>)
    ensures var s := After(backend, readFails, schedule);
      && s.read <= |backend|
      && (s.ending == Open ==> Work(backend, readFails, s) + Rounds(schedule) <= 2 * |backend| + 4)
  {
    LoopInv(backend, readFails, schedule);
    var n := |schedule|;
    if n > 0 {
      var front := schedule[..n - 1];
      LoopInv(backend, readFails, front);
      if n > 1 && schedule[n - 2] == Reader && schedule[n - 1] == Receive {
        var start := schedule[..n - 2];
        assert front[..n - 2] == start;
        RoundsDoWork(backend, readFails, start);
        LoopInv(backend, readFails, start);
        if After(backend, readFails, start).ending == Open {
          RoundDoesWork(backend, readFails, After(backend, readFails, start));
        }
      } else {
        RoundsDoWork(backend, readFails, front);
        if After(backend, readFails, front).ending == Open {
          MoveMakesNoWork(backend, readFails, After(backend, readFails, front), schedule[n - 1]);
        }
      }
    }
  }

  /** Every line arrives: on any schedule without disconnect and timeout that gives
      reader and loop enough turns, all lines are written and the loop ends as the
      backend did. */
  lemma EverythingArrives(backend: seq<string>, readFails: bool, schedule: seq<Choice>)
    requires ClientGone !in schedule && IdleTimeout !in schedule
    requires Rounds(schedule) >= 2 * |backend| + 4
    ensures var s := After(backend, readFails, schedule);
      s.sent == |backend| && s.ending == if readFails then BackendFailed else BackendEnded
  {
    RoundsDoWork(backend, readFails, schedule);
    EndingMeans(backend, readFails, schedule);
  }

  /** How the response starts: what can go wrong before the stream, or a stream. */
  datatype Setup = BadRequest | BackendUnreachable | NoFlusher | Streaming(backend: seq<string>, readFails: bool)

  /** How the call ends; InProgress when the schedule stops before the loop does. */
  datatype Response =
    | LimitExceeded
    | AgentUnavailable
    | InProgress(body: seq<string>)
    | Stream(body: seq<string>, ending: Ending)

  lemma RefusedAcquireKeepsCounts(sh: Shared, a: string, limit: int)
    requires SharedInv(sh) && !Acquired(sh, a, limit, []).0
    ensures var sh' := Acquired(sh, a, limit, []).1;
      SharedInv(sh') && (sh.draining || Count(sh, a) >= limit) && forall b :: Count(sh', b) == Count(sh, b)
  {
  }

  /** What the client has been sent. */
  function Written(backend: seq<string>, readFails: bool, schedule: seq<Choice>): seq<string> {
    var s := After(backend, readFails, schedule);
    LoopInv(backend, readFails, schedule);
    backend[..s.sent] + ErrorLines(s.ending)
  }

  lemma AcquireAddsOne(sh: Shared, a: string, limit: int, b: string)
    requires SharedInv(sh) && Acquired(sh, a, limit, []).0
    ensures var sh' := Acquired(sh, a, limit, []).1;
      SharedInv(sh') && Count(sh', b) == Count(sh, b) + (if b == a then 1 else 0)
      && SharedInv(Released(sh', a)) && Count(Released(sh', a), b) == Count(sh, b)
  {
    ReleaseUndoesAcquire(sh, a, limit, [], b);
  }

  /** ProxyStream with nobody else using the manager meanwhile: the slot it took
      is kept exactly as long as the loop runs and given back on every path that
      ends it; other agents are untouched. */
  method ProxyStream(streams: StreamManager, agentName: string, maxStreams: int, setup: Setup, schedule: seq<Choice>)
      returns (response: Response)
    requires streams.Valid()
    modifies streams, streams.arena
    ensures streams.Valid() && streams.shared.draining == old(streams.shared.draining)
    ensures forall a ::
      Count(streams.shared, a) == Count(old(streams.shared), a)
        + (if response.InProgress? && a == agentName then 1 else 0)
    ensures response.LimitExceeded? <==>
      old(streams.shared.draining) || Count(old(streams.shared), agentName) >= maxStreams
    ensures !response.LimitExceeded? ==> (response.AgentUnavailable? <==> !setup.Streaming?)
    ensures !response.LimitExceeded? && setup.Streaming? ==>
      var end := After(setup.backend, setup.readFails, schedule);
      var body := Written(setup.backend, setup.readFails, schedule);
      response == if end.ending == Open then InProgress(body) else Stream(body, end.ending)
  {
    ghost var before := streams.shared;
    var ok := streams.AcquireStream(agentName, maxStreams, []);
    if !ok {
      RefusedAcquireKeepsCounts(before, agentName, maxStreams);
      return LimitExceeded;
    }
    forall a
      ensures Count(streams.shared, a) == Count(before, a) + (if a == agentName then 1 else 0)
      ensures Count(Released(streams.shared, agentName), a) == Count(before, a)
    {
      AcquireAddsOne(before, agentName, maxStreams, a);
    }
    if setup.Streaming? {
      var body, sent, ending := Forward(setup.backend, setup.readFails, schedule);
      if ending == Open {
        return InProgress(body);
      }
      response := Stream(body, ending);
    } else {
      response := AgentUnavailable;
    }
    streams.ReleaseStream(agentName);
  }

  // What the client parses.

  lemma MessageIsTrimmed(e: Ending)
    ensures IsTrimmed(ErrorMessage(e))
  {
    var s := ErrorMessage(e);
    assert s[0] == '{' && s[|s| - 1] == '}';
  }

  /** The error event ends up in the last event, even when the stream is cut in
      the middle of one: it takes over the type and adds its data line. */
  lemma ErrorBecomesLastEvent(lines: seq<string>, e: Ending)
    requires ErrorLines(e) != []
    ensures var (p, events) := Run(NOTHING, lines);
      Parse(lines + ErrorLines(e)) == events + [Event("error", Join(p.dataLines + [ErrorMessage(e)]))]
  {
    var p, msg := Run(NOTHING, lines).0, ErrorMessage(e);
    var q := p.(eventType := "error");
    MessageIsTrimmed(e);
    FeedEventField(p, "error");
    FeedDataField(q, msg);
    AppendEvent(lines, "event: " + "error", q, "data: " + msg, q.(dataLines := q.dataLines + [msg]));
  }

  lemma AppendEvent(lines: seq<string>, first: string, q: Partial, second: string, q': Partial)
    requires Run(Run(NOTHING, lines).0, [first]) == (q, []) && Run(q, [second]) == (q', [])
    requires q'.dataLines != []
    ensures Parse(lines + [first, second, ""]) == Run(NOTHING, lines).1 + [Event(q'.eventType, Join(q'.dataLines))]
  {
    var xs := lines + [first];
    AppendQuietLine(lines, first, q);
    AppendQuietLine(xs, second, q');
    assert lines + [first, second, ""] == (xs + [second]) + [""];
    EndActsAsBlankLine(xs + [second]);
  }

  lemma AppendQuietLine(lines: seq<string>, line: string, q: Partial)
    requires Run(Run(NOTHING, lines).0, [line]) == (q, [])
    ensures Run(NOTHING, lines + [line]) == (q, Run(NOTHING, lines).1)
  {
    var events := Run(NOTHING, lines).1;
    assert events + [] == events;
    RunConcat(NOTHING, lines, [line]);
  }

  /** After whole events the error event is one of its own, saying what happened. */
  lemma ErrorSaysWhy(lines: seq<string>)
    requires Run(NOTHING, lines).0.dataLines == []
    ensures Parse(lines + ErrorLines(TimedOut))
         == Parse(lines) + [Event("error", "{" + "\"code\":408,\"message\":\"Stream idle timeout\"" + "}")]
    ensures Parse(lines + ErrorLines(BackendFailed))
         == Parse(lines) + [Event("error", "{" + "\"code\":502,\"message\":\"Backend stream error\"" + "}")]
  {
    ErrorBecomesLastEvent(lines, TimedOut);
    ErrorBecomesLastEvent(lines, BackendFailed);
    OneLineJoined(ErrorMessage(TimedOut));
    OneLineJoined(ErrorMessage(BackendFailed));
  }

  lemma OneLineJoined(line: string)
    ensures Join([] + [line]) == line
  {
  }

  /** The client's view of any forwarded stream, as guaranteed by Forward: all
      events but the last are the backend's first ones; a timeout or read error
      makes the last event an error; a normal end gives exactly the backend's events. */
  lemma ClientSees(backend: seq<string>, sent: nat, ending: Ending)
    requires sent <= |backend|
    ensures var seen := Parse(backend[..sent] + ErrorLines(ending));
      && (seen != [] ==> seen[..|seen| - 1] <= Parse(backend))
      && (ending.TimedOut? || ending.BackendFailed? ==> seen != [] && seen[|seen| - 1].eventType == "error")
      && (!ending.TimedOut? && !ending.BackendFailed? && sent == |backend| ==> seen == Parse(backend))
  {
    var lines := backend[..sent];
    var (p, events) := Run(NOTHING, lines);
    CompletedIsPrefix(backend, sent);
    if ErrorLines(ending) != [] {
      ErrorBecomesLastEvent(lines, ending);
      var last := Event("error", Join(p.dataLines + [ErrorMessage(ending)]));
      assert (events + [last])[..|events|] == events;
    } else {
      assert lines + ErrorLines(ending) == lines;
      if p.dataLines != [] {
        assert (events + Emit(p))[..|events|] == events;
      } else if events != [] {
        assert events + Emit(p) == events;
        assert events[..|events| - 1] <= events;
      }
      if sent == |backend| {
        assert lines == backend;
      }
    }
  }

  /** ForwardSSEToStream on the forwarded body, as events the gRPC client gets.
      Error events carry no message, so a stream cut with an error event delivers
      a prefix of the messages of the whole one. Without one the parser completes
      the event that was cut, so all messages but the last are such a prefix, and
      all are when nothing of that event is deliverable. */
  lemma DeliveredIsPrefix(backend: seq<string>, sent: nat, ending: Ending, decodes: Event -> bool)
    requires sent <= |backend|
    ensures var all, got := Deliverable(Parse(backend), decodes),
                            Deliverable(Parse(backend[..sent] + ErrorLines(ending)), decodes);
      && (got == [] || got[..|got| - 1] <= all)
      && (ending.TimedOut? || ending.BackendFailed? || Leftover(backend[..sent], decodes) == [] ==> got <= all)
  {
    var lines := backend[..sent];
    var (p, events) := Run(NOTHING, lines);
    CompletedIsPrefix(backend, sent);
    if ErrorLines(ending) != [] {
      ErrorBecomesLastEvent(lines, ending);
      SkippedLastEvent(events, Event("error", Join(p.dataLines + [ErrorMessage(ending)])), Parse(backend), decodes);
    } else {
      assert lines + ErrorLines(ending) == lines;
      CutDelivers(backend, sent, decodes);
    }
  }

  /** The message made of what the lines leave unfinished, if it is deliverable. */
  function Leftover(lines: seq<string>, decodes: Event -> bool): seq<Event> {
    Deliverable(Emit(Run(NOTHING, lines).0), decodes)
  }

  /** The forwarder itself reading only the first k lines before its read fails:
      all sends but the last are a prefix of the messages of all lines, and all
      are when the cut leaves nothing deliverable behind. */
  lemma CutDelivers(lines: seq<string>, k: nat, decodes: Event -> bool)
    requires k <= |lines|
    ensures var all, got := Deliverable(Parse(lines), decodes), Deliverable(Parse(lines[..k]), decodes);
      && (got == [] || got[..|got| - 1] <= all)
      && (Leftover(lines[..k], decodes) == [] ==> got <= all)
  {
    var (p, events) := Run(NOTHING, lines[..k]);
    CompletedIsPrefix(lines, k);
    DeliverablePrefix(events, Parse(lines), decodes);
    DeliverableConcat(events, Emit(p), decodes);
    AtMostOneMore(Deliverable(events, decodes), Leftover(lines[..k], decodes), Deliverable(Parse(lines), decodes));
  }

  /** What is sent after a cut is a prefix of the whole stream's messages, however
      the stream would have gone on, exactly when the cut leaves nothing
      deliverable behind. */
  lemma CutIsPrefixExactlyWhen(cut: seq<string>, decodes: Event -> bool)
    ensures (forall more: seq<string> :: Deliverable(Parse(cut), decodes) <= Deliverable(Parse(cut + more), decodes))
      <==> Leftover(cut, decodes) == []
  {
    if Leftover(cut, decodes) == [] {
      forall more: seq<string>
        ensures Deliverable(Parse(cut), decodes) <= Deliverable(Parse(cut + more), decodes)
      {
        assert (cut + more)[..|cut|] == cut;
        CutDelivers(cut + more, |cut|, decodes);
      }
    } else {
      MoreDataChangesTheLast(cut, decodes);
      var more := ["data:"];
      assert !(Deliverable(Parse(cut), decodes) <= Deliverable(Parse(cut + more), decodes));
    }
  }

  /** One more empty data line gives the unfinished event other data. */
  lemma MoreDataChangesTheLast(cut: seq<string>, decodes: Event -> bool)
    requires Leftover(cut, decodes) != []
    ensures !(Deliverable(Parse(cut), decodes) <= Deliverable(Parse(cut + ["data:"]), decodes))
  {
    var (p, events) := Run(NOTHING, cut);
    var q := p.(dataLines := p.dataLines + [""]);
    RunOne(p, "data:");
    assert Run(p, ["data:"]) == (q, []);
    AppendQuietLine(cut, "data:", q);
    LongerJoin(p.dataLines);
    var e, e' := Event(p.eventType, Join(p.dataLines)), Event(q.eventType, Join(q.dataLines));
    DeliverableConcat(events, [e], decodes);
    DeliverableConcat(events, [e'], decodes);
    DeliveredExactlyWhen(e, decodes);
    DeliveredExactlyWhen(e', decodes);
    OtherLast(Deliverable(events, decodes), e, Deliverable([e'], decodes));
  }

  lemma LongerJoin(parts: seq<string>)
    requires parts != []
    ensures |Join(parts + [""])| == |Join(parts)| + 1
  {
    assert (parts + [""])[..|parts|] == parts;
  }

  lemma OtherLast(some: seq<Event>, e: Event, more: seq<Event>)
    requires |more| <= 1 && more != [e]
    ensures !(some + [e] <= some + more)
  {
    if more != [] {
      assert (some + more)[|some|] == more[0] && (some + [e])[|some|] == e;
    }
  }

  lemma AtMostOneMore(some: seq<Event>, more: seq<Event>, all: seq<Event>)
    requires some <= all && |more| <= 1
    ensures var got := some + more; (got == [] || got[..|got| - 1] <= all) && (more == [] ==> got <= all)
  {
    if more == [] {
      assert some + more == some;
    } else {
      assert (some + more)[..|some|] == some;
    }
  }

  /** That last message can be one that the whole stream does not carry. */
  lemma CutDataIsFlushed(a: string, b: string, decodes: Event -> bool)
    requires IsTrimmed(a) && IsTrimmed(b) && decodes(Event("", a))
    ensures var lines := ["data: " + a, "data: " + b];
      Deliverable(Parse(lines[..1]), decodes) == [Event("", a)] && Parse(lines) == [Event("", a + "\n" + b)]
  {
    var x, y := "data: " + a, "data: " + b;
    assert [x, y][..1] == [x] && [x, y] == [x] + [y];
    OneDataLine(a);
    DeliveredExactlyWhen(Event("", a), decodes);
    TwoDataLines(a, b, x, y);
  }

  lemma TwoDataLines(a: string, b: string, x: string, y: string)
    requires IsTrimmed(a) && IsTrimmed(b) && x == "data: " + a && y == "data: " + b
    ensures Parse([x] + [y]) == [Event("", a + "\n" + b)]
  {
    FeedDataField(NOTHING, a);
    FeedDataField(Partial("", [a]), b);
    assert [] + [a] == [a] && [a] + [b] == [a, b];
    RunConcat(NOTHING, [x], [y]);
    JoinTwo(a, b);
  }

  lemma JoinTwo(a: string, b: string)
    ensures Join([a, b]) == a + "\n" + b
  {
    var parts := [a, b];
    assert parts[..1] == [a];
  }

  lemma SkippedLastEvent(events: seq<Event>, last: Event, all: seq<Event>, decodes: Event -> bool)
    requires events <= all && !HasMessage(last)
    ensures Deliverable(events + [last], decodes) <= Deliverable(all, decodes)
  {
    assert (events + [last])[..|events|] == events;
    DeliverablePrefix(events, all, decodes);
  }

  // From lines to text and back.

  /** The text written for the lines. */
  function Render(lines: seq<string>): string {
    if lines == [] then "" else Render(lines[..|lines| - 1]) + lines[|lines| - 1] + "\n"
  }

  function DropCR(line: string): string {
    if line != [] && line[|line| - 1] == '\r' then line[..|line| - 1] else line
  }

  function DropCRs(lines: seq<string>): (r: seq<string>)
    ensures |r| == |lines| && forall i :: 0 <= i < |lines| ==> r[i] == DropCR(lines[i])
  {
    seq(|lines|, i requires 0 <= i < |lines| => DropCR(lines[i]))
  }

  /** bufio.ScanLines over a whole text. */
  function Scan(text: string): seq<string> {
    var parts := Split(text);
    DropCRs(if parts[|parts| - 1] == "" then parts[..|parts| - 1] else parts)
  }

  lemma {:induction false} SplitRender(lines: seq<string>)
    requires forall i :: 0 <= i < |lines| ==> '\n' !in lines[i]
    ensures Split(Render(lines)) == lines + [""]
  {
    if lines != [] {
      var front, last := lines[..|lines| - 1], lines[|lines| - 1];
      SplitRender(front);
      SplitAppend(Render(front), last);
      var s := Render(front) + last;
      assert (front + [""])[..|front|] == front && "" + last == last;
      assert Split(s) == front + [last] == lines;
      SplitNewLine(s, "");
      assert Render(lines) == s + "\n" + "";
    }
  }

  /** Scanning the written text gives the lines back, one trailing carriage return less. */
  lemma ScanRender(lines: seq<string>)
    requires forall i :: 0 <= i < |lines| ==> '\n' !in lines[i]
    ensures Scan(Render(lines)) == DropCRs(lines)
  {
    SplitRender(lines);
    assert (lines + [""])[..|lines|] == lines;
  }

  lemma TrimIgnoresFinalCR(s: string)
    ensures TrimSpace(DropCR(s)) == TrimSpace(s)
  {
    if s != [] && s[|s| - 1] == '\r' {
      TrimLeftSnoc(s[..|s| - 1], '\r');
      assert s == s[..|s| - 1] + ['\r'];
    }
  }

  lemma {:induction false} TrimLeftSnoc(s: string, c: char)
    requires IsSpace(c)
    ensures TrimRight(TrimLeft(s + [c])) == TrimRight(TrimLeft(s))
  {
    if s == [] {
      assert s + [c] == [c] && [c][1..] == "";
    } else if IsSpace(s[0]) {
      assert (s + [c])[1..] == s[1..] + [c];
      TrimLeftSnoc(s[1..], c);
    } else {
      assert (s + [c])[..|s|] == s;
    }
  }

  lemma FieldIgnoresFinalCR(p: Partial, line: string)
    requires line != "\r"
    ensures Feed(p, DropCR(line)) == Feed(p, line)
  {
    var l := DropCR(line);
    if "event:" <= line {
      assert "event:" <= l && l[6..] == DropCR(line[6..]);
      TrimIgnoresFinalCR(line[6..]);
    } else if "data:" <= line {
      assert "data:" <= l && l[5..] == DropCR(line[5..]);
      TrimIgnoresFinalCR(line[5..]);
    }
  }

  lemma {:induction false} RunIgnoresFinalCRs(p: Partial, lines: seq<string>)
    requires "\r" !in lines
    ensures Run(p, DropCRs(lines)) == Run(p, lines)
  {
    if lines != [] {
      var front, last := lines[..|lines| - 1], lines[|lines| - 1];
      RunIgnoresFinalCRs(p, front);
      FieldIgnoresFinalCR(Run(p, front).0, last);
      assert DropCRs(lines)[..|lines| - 1] == DropCRs(front);
    }
  }

  /** So the client reads from the text the same events as from the lines,
      unless a line is a lone carriage return. */
  lemma TextKeepsEvents(lines: seq<string>)
    requires forall i :: 0 <= i < |lines| ==> '\n' !in lines[i]
    requires "\r" !in lines
    ensures Parse(Scan(Render(lines))) == Parse(lines)
  {
    ScanRender(lines);
    RunIgnoresFinalCRs(NOTHING, lines);
  }

  /** A line that loses its carriage return on the way is harmless in every
      context exactly when it is not a lone carriage return: that one becomes a
      blank line and splits an event in two. */
  lemma LoneCarriageReturnSplits(line: string)
    ensures line != "\r" <==>
      forall xs, ys :: Parse(xs + [DropCR(line)] + ys) == Parse(xs + [line] + ys)
  {
    if line != "\r" {
      forall xs: seq<string>, ys: seq<string>
        ensures Parse(xs + [DropCR(line)] + ys) == Parse(xs + [line] + ys)
      {
        RunOne(Run(NOTHING, xs).0, line);
        RunOne(Run(NOTHING, xs).0, DropCR(line));
        FieldIgnoresFinalCR(Run(NOTHING, xs).0, line);
        RunConcat(NOTHING, xs, [line]);
        RunConcat(NOTHING, xs, [DropCR(line)]);
        RunConcat(NOTHING, xs + [line], ys);
        RunConcat(NOTHING, xs + [DropCR(line)], ys);
      }
    } else {
      var x := "data: " + "a";
      BlankSplits("a", "a");
      CarriageReturnJoins("a", "a");
      assert Parse([x] + [DropCR(line)] + [x]) != Parse([x] + [line] + [x]);
    }
  }

  lemma OneDataLine(part: string)
    requires IsTrimmed(part)
    ensures Parse(["data: " + part]) == [Event("", part)]
  {
    FeedDataField(NOTHING, part);
  }

  lemma TwoEvents(x: string, y: string, e: Event, f: Event)
    requires Parse([x]) == [e] && Parse([y]) == [f]
    ensures |Parse([x] + [""] + [y])| == 2
  {
    ParseAtBlankLine([x], [y]);
  }

  lemma BlankSplits(a: string, b: string)
    requires IsTrimmed(a) && IsTrimmed(b)
    ensures |Parse(["data: " + a] + [""] + ["data: " + b])| == 2
  {
    OneDataLine(a);
    OneDataLine(b);
    TwoEvents("data: " + a, "data: " + b, Event("", a), Event("", b));
  }

  lemma CarriageReturnJoins(a: string, b: string)
    requires IsTrimmed(a) && IsTrimmed(b)
    ensures |Parse(["data: " + a] + ["\r"] + ["data: " + b])| == 1
  {
    FeedDataField(NOTHING, a);
    var p := NOTHING.(dataLines := NOTHING.dataLines + [a]);
    RunOne(p, "\r");
    RunConcat(NOTHING, ["data: " + a], ["\r"]);
    FeedDataField(p, b);
    RunConcat(NOTHING, ["data: " + a] + ["\r"], ["data: " + b]);
  }
}
