/** The event-stream line parser of the gRPC server (internal/grpc/server.go).
    It reads the format of sections 9.2.5 and 9.2.6 of the WHATWG HTML Standard
    with two differences of its own: field values are trimmed, and the end of
    input completes the last event. */
module EventStreams {
  import opened Wrappers

  datatype Event = Event(eventType: string, data: string)

  /** What the parser has collected since the last blank line. */
  datatype Partial = Partial(eventType: string, dataLines: seq<string>)

  const NOTHING := Partial("", [])

  /** The white space of strings.TrimSpace. */
  predicate IsSpace(c: char) {
    || c == ' ' || '\t' <= c <= '\r' || c == '\U{85}' || c == '\U{A0}' || c == '\U{1680}'
    || '\U{2000}' <= c <= '\U{200A}' || c == '\U{2028}' || c == '\U{2029}' || c == '\U{202F}'
    || c == '\U{205F}' || c == '\U{3000}'
  }

  function TrimLeft(s: string): string {
    if s != [] && IsSpace(s[0]) then TrimLeft(s[1..]) else s
  }

  function TrimRight(s: string): string {
    if s != [] && IsSpace(s[|s| - 1]) then TrimRight(s[..|s| - 1]) else s
  }

  function TrimSpace(s: string): string {
    TrimRight(TrimLeft(s))
  }

  predicate IsTrimmed(s: string) {
    s != [] ==> !IsSpace(s[0]) && !IsSpace(s[|s| - 1])
  }

  /** strings.Join with a newline between the parts. */
  function Join(parts: seq<string>): string {
    if parts == [] then ""
    else if |parts| == 1 then parts[0]
    else Join(parts[..|parts| - 1]) + "\n" + parts[|parts| - 1]
  }

  /** A non-blank line: an event type, a data line, or something to ignore. */
  function Field(p: Partial, line: string): Partial {
    if "event:" <= line then p.(eventType := TrimSpace(line[6..]))
    else if "data:" <= line then p.(dataLines := p.dataLines + [TrimSpace(line[5..])])
    else p
  }

  function Emit(p: Partial): seq<Event> {
    if p.dataLines == [] then [] else [Event(p.eventType, Join(p.dataLines))]
  }

  function Feed(p: Partial, line: string): (Partial, seq<Event>) {
    if line == "" then (NOTHING, Emit(p)) else (Field(p, line), [])
  }

  /** The collected part and the completed events after the lines. */
  function Run(p: Partial, lines: seq<string>): (Partial, seq<Event>) {
    if lines == [] then (p, [])
    else
      var (q, events) := Run(p, lines[..|lines| - 1]);
      var (q', more) := Feed(q, lines[|lines| - 1]);
      (q', events + more)
  }

  /** The events of a complete input. */
  function Parse(lines: seq<string>): seq<Event> {
    var (p, events) := Run(NOTHING, lines);
    events + Emit(p)
  }

  lemma {:induction false} RunConcat(p: Partial, xs: seq<string>, ys: seq<string>)
    ensures var (q, events) := Run(p, xs);
      Run(p, xs + ys) == (Run(q, ys).0, events + Run(q, ys).1)
  {
    if ys == [] {
      assert xs + ys == xs;
      assert Run(p, xs).1 + [] == Run(p, xs).1;
    } else {
      var front, last := ys[..|ys| - 1], ys[|ys| - 1];
      assert (xs + ys)[..|xs + ys| - 1] == xs + front;
      RunConcat(p, xs, front);
      var (q, events) := Run(p, xs);
      var (q', more) := Run(q, front);
      assert events + (more + Feed(q', last).1) == (events + more) + Feed(q', last).1;
    }
  }

  lemma RunOne(p: Partial, line: string)
    ensures Run(p, [line]) == Feed(p, line)
  {
    var lines, none: seq<string> := [line], [];
    assert lines[..0] == none;
    assert [] + Feed(p, line).1 == Feed(p, line).1;
  }

  lemma RunStep(p: Partial, lines: seq<string>, k: nat)
    requires k < |lines|
    ensures var (q, events) := Run(p, lines[..k]);
      Run(p, lines[..k + 1]) == (Feed(q, lines[k]).0, events + Feed(q, lines[k]).1)
  {
    assert lines[..k + 1][..k] == lines[..k];
  }

  /** Blank lines separate: parsing is a homomorphism at them. */
  lemma ParseAtBlankLine(xs: seq<string>, ys: seq<string>)
    ensures Parse(xs + [""] + ys) == Parse(xs) + Parse(ys)
  {
    RunBlank(xs);
    ParseAfter(xs + [""], Parse(xs), ys);
  }

  lemma ParseAfter(lines: seq<string>, events: seq<Event>, ys: seq<string>)
    requires Run(NOTHING, lines) == (NOTHING, events)
    ensures Parse(lines + ys) == events + Parse(ys)
  {
    RunConcat(NOTHING, lines, ys);
    var (q, more) := Run(NOTHING, ys);
    assert (events + more) + Emit(q) == events + (more + Emit(q));
  }

  lemma RunBlank(xs: seq<string>)
    ensures Run(NOTHING, xs + [""]) == (NOTHING, Parse(xs))
  {
    RunConcat(NOTHING, xs, [""]);
    RunOne(Run(NOTHING, xs).0, "");
  }

  /** The end of input acts as a blank line. */
  lemma EndActsAsBlankLine(xs: seq<string>)
    ensures Parse(xs + [""]) == Parse(xs)
  {
    ParseAtBlankLine(xs, []);
    assert xs + [""] + [] == xs + [""];
  }

  predicate Matters(line: string) {
    line == "" || "event:" <= line || "data:" <= line
  }

  function Relevant(lines: seq<string>): seq<string> {
    if lines == [] then []
    else Relevant(lines[..|lines| - 1]) + if Matters(lines[|lines| - 1]) then [lines[|lines| - 1]] else []
  }

  lemma {:induction false} RunIgnoresTheRest(p: Partial, lines: seq<string>)
    ensures Run(p, Relevant(lines)) == Run(p, lines)
  {
    if lines != [] {
      var front, last := lines[..|lines| - 1], lines[|lines| - 1];
      RunIgnoresTheRest(p, front);
      if Matters(last) {
        assert Relevant(lines)[..|Relevant(lines)| - 1] == Relevant(front);
      } else {
        assert Relevant(lines) == Relevant(front);
        assert Run(p, front).1 + [] == Run(p, front).1;
      }
    }
  }

  /** Comments, ids, retries and unknown fields change nothing. */
  lemma ParseIgnoresTheRest(lines: seq<string>)
    ensures Parse(Relevant(lines)) == Parse(lines)
  {
    RunIgnoresTheRest(NOTHING, lines);
  }

  /** A lone data line is an event without a type; a type line before it gives its
      type, trimmed like the data, and of two the later counts. */
  lemma LinesMean(s: string, t: string, u: string)
    ensures Parse(["data:" + s]) == [Event("", TrimSpace(s))]
    ensures Parse(["event:" + t] + ["data:" + s]) == [Event(TrimSpace(t), TrimSpace(s))]
    ensures Parse(["event:" + u] + ["event:" + t] + ["data:" + s]) == [Event(TrimSpace(t), TrimSpace(s))]
  {
    var none: seq<string> := [];
    ThenData(none, NOTHING, s);
    assert none + ["data:" + s] == ["data:" + s];
    TypeLine(NOTHING, t);
    ThenData(["event:" + t], Partial(TrimSpace(t), []), s);
    TypeLine(NOTHING, u);
    TypeLine(Partial(TrimSpace(u), []), t);
    RunConcat(NOTHING, ["event:" + u], ["event:" + t]);
    ThenData(["event:" + u] + ["event:" + t], Partial(TrimSpace(t), []), s);
  }

  lemma ThenData(lines: seq<string>, q: Partial, s: string)
    requires Run(NOTHING, lines) == (q, []) && q.dataLines == []
    ensures Parse(lines + ["data:" + s]) == [Event(q.eventType, TrimSpace(s))]
  {
    DataLine(q, s);
    RunConcat(NOTHING, lines, ["data:" + s]);
  }

  lemma DataLine(p: Partial, s: string)
    ensures Run(p, ["data:" + s]) == (p.(dataLines := p.dataLines + [TrimSpace(s)]), [])
  {
    var line := "data:" + s;
    RunOne(p, line);
    assert line[0] == 'd' && line[5..] == s;
  }

  lemma TypeLine(p: Partial, t: string)
    ensures Run(p, ["event:" + t]) == (p.(eventType := TrimSpace(t)), [])
  {
    var line := "event:" + t;
    RunOne(p, line);
    assert line[6..] == t;
  }

  /** Without a data line there is no event. */
  lemma NoDataNoEvent(lines: seq<string>)
    requires forall i :: 0 <= i < |lines| ==> !("data:" <= lines[i])
    ensures Parse(lines) == []
  {
    NoDataYet(lines);
  }

  lemma {:induction false} NoDataYet(lines: seq<string>)
    requires forall i :: 0 <= i < |lines| ==> !("data:" <= lines[i])
    ensures Run(NOTHING, lines).0.dataLines == [] && Run(NOTHING, lines).1 == []
  {
    if lines != [] {
      NoDataYet(lines[..|lines| - 1]);
    }
  }

  // Printing and reading back.

  function Split(s: string): (parts: seq<string>)
    ensures parts != []
  {
    if s == [] then [""]
    else
      var parts, last := Split(s[..|s| - 1]), s[|s| - 1];
      if last == '\n' then parts + [""]
      else parts[..|parts| - 1] + [parts[|parts| - 1] + [last]]
  }

  lemma {:induction false} JoinSplit(s: string)
    ensures Join(Split(s)) == s
    ensures forall i :: 0 <= i < |Split(s)| ==> '\n' !in Split(s)[i]
  {
    if s != [] {
      var front, last := s[..|s| - 1], s[|s| - 1];
      JoinSplit(front);
      var parts := Split(front);
      if last == '\n' {
        assert (parts + [""])[..|parts|] == parts;
      } else {
        assert Split(s)[..|parts| - 1] == parts[..|parts| - 1];
      }
      assert s == front + [last];
    }
  }

  lemma {:induction false} SplitAppend(s: string, t: string)
    requires '\n' !in t
    ensures Split(s + t) == Split(s)[..|Split(s)| - 1] + [Split(s)[|Split(s)| - 1] + t]
  {
    var parts := Split(s);
    var n := |parts| - 1;
    if t == [] {
      assert s + t == s && parts[n] + t == parts[n];
    } else {
      var front, last := t[..|t| - 1], t[|t| - 1];
      assert (s + t)[..|s + t| - 1] == s + front;
      SplitAppend(s, front);
      assert (parts[n] + front) + [last] == parts[n] + t;
      assert (parts[..n] + [parts[n] + front])[..n] == parts[..n];
    }
  }

  lemma SplitNewLine(s: string, line: string)
    requires '\n' !in line
    ensures Split(s + "\n" + line) == Split(s) + [line]
  {
    var t := s + "\n";
    assert t[..|t| - 1] == s;
    SplitAppend(t, line);
    assert (Split(s) + [""])[..|Split(s)|] == Split(s) && "" + line == line;
  }

  lemma {:induction false} SplitJoin(parts: seq<string>)
    requires parts != [] && forall i :: 0 <= i < |parts| ==> '\n' !in parts[i]
    ensures Split(Join(parts)) == parts
  {
    var front, last := parts[..|parts| - 1], parts[|parts| - 1];
    assert parts == front + [last];
    if front == [] {
      SplitAppend("", last);
      assert "" + last == last;
    } else {
      SplitJoin(front);
      SplitNewLine(Join(front), last);
    }
  }

  function DataFields(parts: seq<string>): seq<string> {
    if parts == [] then [] else DataFields(parts[..|parts| - 1]) + ["data: " + parts[|parts| - 1]]
  }

  function Print(e: Event): seq<string> {
    ["event: " + e.eventType] + DataFields(Split(e.data))
  }

  /** Each event followed by a blank line. */
  function PrintAll(events: seq<Event>): seq<string> {
    if events == [] then [] else PrintAll(events[..|events| - 1]) + Print(events[|events| - 1]) + [""]
  }

  /** The events that can be written down: trimmed type and data lines. */
  ghost predicate Printable(e: Event) {
    IsTrimmed(e.eventType) && forall i :: 0 <= i < |Split(e.data)| ==> IsTrimmed(Split(e.data)[i])
  }

  lemma TrimAfterSpace(s: string)
    requires IsTrimmed(s)
    ensures TrimSpace(" " + s) == s
  {
    assert (" " + s)[1..] == s;
    assert TrimLeft(" " + s) == TrimLeft(s) == s;
  }

  lemma FeedDataField(p: Partial, part: string)
    requires IsTrimmed(part)
    ensures Run(p, ["data: " + part]) == (p.(dataLines := p.dataLines + [part]), [])
  {
    RunOne(p, "data: " + part);
    TrimAfterSpace(part);
    assert ("data: " + part)[5..] == " " + part;
  }

  lemma FeedEventField(p: Partial, eventType: string)
    requires IsTrimmed(eventType)
    ensures Run(p, ["event: " + eventType]) == (p.(eventType := eventType), [])
  {
    RunOne(p, "event: " + eventType);
    TrimAfterSpace(eventType);
    assert ("event: " + eventType)[6..] == " " + eventType;
  }

  lemma {:induction false} ReadDataFields(p: Partial, parts: seq<string>)
    requires forall i :: 0 <= i < |parts| ==> IsTrimmed(parts[i])
    ensures Run(p, DataFields(parts)) == (p.(dataLines := p.dataLines + parts), [])
  {
    if parts == [] {
      assert p.dataLines + parts == p.dataLines;
    } else {
      var front, last := parts[..|parts| - 1], parts[|parts| - 1];
      assert p.dataLines + front + [last] == p.dataLines + parts;
      ReadDataFields(p, front);
      var q, line := p.(dataLines := p.dataLines + front), "data: " + last;
      FeedDataField(q, last);
      RunConcat(p, DataFields(front), [line]);
      assert DataFields(parts) == DataFields(front) + [line];
    }
  }

  lemma ReadPrinted(e: Event)
    requires Printable(e)
    ensures Parse(Print(e)) == [e]
  {
    var field, parts := "event: " + e.eventType, Split(e.data);
    FeedEventField(NOTHING, e.eventType);
    RunConcat(NOTHING, [field], DataFields(parts));
    var typed := Partial(e.eventType, []);
    ReadDataFields(typed, parts);
    assert typed.dataLines + parts == parts;
    JoinSplit(e.data);
  }

  /** Printing any list of printable events and parsing it returns the list. */
  lemma PrintThenParse(events: seq<Event>)
    requires forall i :: 0 <= i < |events| ==> Printable(events[i])
    ensures Parse(PrintAll(events)) == events
  {
    ReadAllPrinted(events);
    NothingToEmit(events);
  }

  lemma NothingToEmit(events: seq<Event>)
    ensures events + Emit(NOTHING) == events
  {
  }

  lemma {:induction false} ReadAllPrinted(events: seq<Event>)
    requires forall i :: 0 <= i < |events| ==> Printable(events[i])
    ensures Run(NOTHING, PrintAll(events)) == (NOTHING, events)
  {
    if events != [] {
      var front, last := events[..|events| - 1], events[|events| - 1];
      ReadAllPrinted(front);
      assert events == front + [last];
      ReadOneMore(PrintAll(front), front, last);
    }
  }

  lemma ReadOneMore(printed: seq<string>, events: seq<Event>, e: Event)
    requires Run(NOTHING, printed) == (NOTHING, events) && Printable(e)
    ensures Run(NOTHING, printed + Print(e) + [""]) == (NOTHING, events + [e])
  {
    ReadPrinted(e);
    AppendClosed(printed, events, Print(e), [e]);
  }

  lemma AppendClosed(printed: seq<string>, events: seq<Event>, lines: seq<string>, more: seq<Event>)
    requires Run(NOTHING, printed) == (NOTHING, events) && Parse(lines) == more
    ensures Run(NOTHING, printed + lines + [""]) == (NOTHING, events + more)
  {
    RunBlank(lines);
    RunConcat(NOTHING, printed, lines + [""]);
    assert printed + (lines + [""]) == printed + lines + [""];
  }

  lemma {:induction false} TrimLeftProps(s: string)
    ensures TrimLeft(s) != [] ==> !IsSpace(TrimLeft(s)[0])
    ensures forall c :: c in TrimLeft(s) ==> c in s
  {
    if s != [] && IsSpace(s[0]) {
      TrimLeftProps(s[1..]);
    }
  }

  lemma {:induction false} TrimRightProps(s: string)
    ensures TrimRight(s) <= s
    ensures TrimRight(s) != [] ==> !IsSpace(TrimRight(s)[|TrimRight(s)| - 1])
  {
    if s != [] && IsSpace(s[|s| - 1]) {
      TrimRightProps(s[..|s| - 1]);
    }
  }

  lemma TrimSpaceTrims(s: string)
    ensures IsTrimmed(TrimSpace(s)) && forall c :: c in TrimSpace(s) ==> c in s
  {
    TrimLeftProps(s);
    TrimRightProps(TrimLeft(s));
  }

  ghost predicate Clean(p: Partial) {
    && IsTrimmed(p.eventType)
    && forall i :: 0 <= i < |p.dataLines| ==> IsTrimmed(p.dataLines[i]) && '\n' !in p.dataLines[i]
  }

  lemma {:induction false} RunKeepsClean(lines: seq<string>)
    requires forall i :: 0 <= i < |lines| ==> '\n' !in lines[i]
    ensures Clean(Run(NOTHING, lines).0)
    ensures forall i :: 0 <= i < |Run(NOTHING, lines).1| ==> Printable(Run(NOTHING, lines).1[i])
  {
    if lines != [] {
      var front, last := lines[..|lines| - 1], lines[|lines| - 1];
      RunKeepsClean(front);
      var p := Run(NOTHING, front).0;
      if p.dataLines != [] {
        SplitJoin(p.dataLines);
      }
      if "event:" <= last {
        TrimSpaceTrims(last[6..]);
      } else if "data:" <= last {
        TrimSpaceTrims(last[5..]);
      }
    }
  }

  /** Whatever the lines, what was parsed from them survives printing and parsing. */
  lemma ParsePrintParse(lines: seq<string>)
    requires forall i :: 0 <= i < |lines| ==> '\n' !in lines[i]
    ensures Parse(PrintAll(Parse(lines))) == Parse(lines)
  {
    RunKeepsClean(lines);
    var p := Run(NOTHING, lines).0;
    if p.dataLines != [] {
      SplitJoin(p.dataLines);
    }
    PrintThenParse(Parse(lines));
  }

  // The forwarding loop.

  /** Events of type "" or "status" and "artifact" have a message; others are skipped. */
  predicate HasMessage(e: Event) {
    e.eventType == "" || e.eventType == "status" || e.eventType == "artifact"
  }

  /** The events sent on: those with a message whose data decodes. */
  function Deliverable(events: seq<Event>, decodes: Event -> bool): seq<Event> {
    if events == [] then []
    else
      var last := events[|events| - 1];
      Deliverable(events[..|events| - 1], decodes) + if HasMessage(last) && decodes(last) then [last] else []
  }

  lemma {:induction false} DeliverableConcat(xs: seq<Event>, ys: seq<Event>, decodes: Event -> bool)
    ensures Deliverable(xs + ys, decodes) == Deliverable(xs, decodes) + Deliverable(ys, decodes)
  {
    if ys == [] {
      assert xs + ys == xs;
    } else {
      assert (xs + ys)[..|xs + ys| - 1] == xs + ys[..|ys| - 1];
      DeliverableConcat(xs, ys[..|ys| - 1], decodes);
    }
  }

  lemma DeliverablePrefix(events: seq<Event>, all: seq<Event>, decodes: Event -> bool)
    requires events <= all
    ensures Deliverable(events, decodes) <= Deliverable(all, decodes)
  {
    DeliverableConcat(events, all[|events|..], decodes);
    assert events + all[|events|..] == all;
  }

  /** Status and artifact events and those without a type are sent on if their
      data decodes; error events and all others are not. */
  lemma DeliveredExactlyWhen(e: Event, decodes: Event -> bool)
    ensures Deliverable([e], decodes) ==
      if e.eventType in ["", "status", "artifact"] && decodes(e) then [e] else []
  {
    var single, none: seq<Event> := [e], [];
    assert single[..0] == none;
  }

  /** Events completed by the first k lines come first among all the events. */
  lemma CompletedIsPrefix(lines: seq<string>, k: nat)
    requires k <= |lines|
    ensures Run(NOTHING, lines[..k]).1 <= Parse(lines)
  {
    RunConcat(NOTHING, lines[..k], lines[k..]);
    assert lines[..k] + lines[k..] == lines;
  }

  /** After the first k lines p is collected and sent is what was deliverable. */
  ghost predicate Reached(lines: seq<string>, k: nat, decodes: Event -> bool, p: Partial, sent: seq<Event>)
    requires k <= |lines|
  {
    Run(NOTHING, lines[..k]).0 == p && Deliverable(Run(NOTHING, lines[..k]).1, decodes) == sent
  }

  /** One line's effect on what is collected and what is deliverable. */
  lemma ForwardStep(lines: seq<string>, i: nat, decodes: Event -> bool, p: Partial, sent: seq<Event>)
    requires i < |lines| && Reached(lines, i, decodes, p, sent)
    ensures if lines[i] == "" then Reached(lines, i + 1, decodes, NOTHING, sent + Deliverable(Emit(p), decodes))
            else Reached(lines, i + 1, decodes, Field(p, lines[i]), sent)
  {
    var events := Run(NOTHING, lines[..i]).1;
    RunStep(NOTHING, lines, i);
    if lines[i] == "" {
      DeliverableConcat(events, Emit(p), decodes);
    } else {
      assert events + [] == events;
    }
  }

  lemma ForwardEnd(lines: seq<string>, decodes: Event -> bool, p: Partial, sent: seq<Event>)
    requires Reached(lines, |lines|, decodes, p, sent)
    ensures Deliverable(Parse(lines), decodes) == sent + Deliverable(Emit(p), decodes)
  {
    assert lines[..|lines|] == lines;
    DeliverableConcat(Run(NOTHING, lines).1, Emit(p), decodes);
  }

  /** Once more than that many are deliverable the rest of the lines does not matter. */
  lemma RefusedIsBeyond(lines: seq<string>, k: nat, decodes: Event -> bool, p: Partial, some: seq<Event>, accepts: nat)
    requires k <= |lines| && Reached(lines, k, decodes, p, some) && |some| > accepts
    ensures var all := Deliverable(Parse(lines), decodes); |all| > accepts && all[..accepts] == some[..accepts]
  {
    CompletedIsPrefix(lines, k);
    DeliverablePrefix(Run(NOTHING, lines[..k]).1, Parse(lines), decodes);
  }

  datatype ForwardError = SendFailed | ReadFailed

  /** Sends one event if it is deliverable; false when the stream refuses it. */
  method SendEvent(e: Event, decodes: Event -> bool, accepts: nat, sent: seq<Event>)
      returns (ok: bool, sent': seq<Event>)
    requires |sent| <= accepts
    ensures |sent'| <= accepts && sent' <= sent + Deliverable([e], decodes)
    ensures ok ==> sent' == sent + Deliverable([e], decodes)
    ensures !ok ==> sent' == sent && |sent| == accepts && Deliverable([e], decodes) != []
  {
    var single, none: seq<Event> := [e], [];
    assert single[..0] == none;
    ok, sent' := true, sent;
    if HasMessage(e) && decodes(e) {
      if |sent| == accepts {
        ok := false;
      } else {
        sent' := sent + [e];
      }
    }
  }

  /** forwardSSEToStream on the scanned lines. The stream accepts that many sends
      before one fails; the scanner may end with a read error. */
  method ForwardSSEToStream(lines: seq<string>, readFails: bool, decodes: Event -> bool, accepts: nat)
      returns (sent: seq<Event>, err: Option<ForwardError>)
    ensures var all := Deliverable(Parse(lines), decodes);
      && sent == (if |all| <= accepts then all else all[..accepts])
      && err == (if |all| > accepts then Some(SendFailed) else if readFails then Some(ReadFailed) else None)
  {
    sent := [];
    var eventType: string, dataLines: seq<string> := "", [];
    var i := 0;
    while i < |lines|
      invariant 0 <= i <= |lines| && |sent| <= accepts
      invariant Reached(lines, i, decodes, Partial(eventType, dataLines), sent)
    {
      var line := lines[i];
      ghost var p := Partial(eventType, dataLines);
      ForwardStep(lines, i, decodes, p, sent);
      if line == "" {
        if |dataLines| > 0 {
          ghost var due := sent + Deliverable(Emit(p), decodes);
          var ok;
          ok, sent := SendEvent(Event(eventType, Join(dataLines)), decodes, accepts, sent);
          if !ok {
            RefusedIsBeyond(lines, i + 1, decodes, NOTHING, due, accepts);
            err := Some(SendFailed);
            return;
          }
        }
        eventType, dataLines := "", [];
      } else {
        if "event:" <= line {
          eventType := TrimSpace(line[6..]);
        } else if "data:" <= line {
          dataLines := dataLines + [TrimSpace(line[5..])];
        }
      }
      i := i + 1;
    }
    ForwardEnd(lines, decodes, Partial(eventType, dataLines), sent);
    if |dataLines| > 0 {
      var ok;
      ok, sent := SendEvent(Event(eventType, Join(dataLines)), decodes, accepts, sent);
      if !ok {
        err := Some(SendFailed);
        return;
      }
    }
    err := if readFails then Some(ReadFailed) else None;
  }
}
