/** What the session sends to the server, request by request. */
module SessionWire {
  import opened Options
  import opened SessionModel
  import opened SessionLatch

  /** The zero-based line in the object of a line in the file. */
  function LineThere(line: nat, shift: int): nat {
    var n := (if line == 0 then 0 else line - 1) + shift;
    if n < 0 then 0 else n
  }

  /** One request per old breakpoint, in order. */
  function Removals(ids: seq<int>): seq<Wire> {
    seq(|ids|, i requires 0 <= i < |ids| => Sent(RemoveBreakpoint(ids[i])))
  }

  /** The reply names another object than the one asked for. */
  predicate Elsewhere(reply: AddReply, objectType: int, objectNumber: int) {
    && reply.Definition? && reply.id != 0 && reply.echo != Absent
    && reply.echo != Object(Some(objectType), Some(objectNumber))
  }

  /** One request per line, in order; a breakpoint that was placed elsewhere is removed at once. */
  function Additions(lines: seq<SourceLine>, objectType: int, objectNumber: int, shift: int, replies: seq<AddReply>):
    seq<Wire>
    requires |lines| == |replies|
  {
    if lines == [] then [] else
    var n := |lines| - 1;
    var condition := if lines[n].condition.Some? then lines[n].condition.value else "";
    Additions(lines[..n], objectType, objectNumber, shift, replies[..n])
    + [Sent(AddBreakpoint(Position(objectType, objectNumber, LineThere(lines[n].line, shift)), condition))]
    + if Elsewhere(replies[n], objectType, objectNumber) then [Sent(RemoveBreakpoint(replies[n].id))] else []
  }

  lemma {:induction false} RemovalsSent(sv: Server, ids: seq<int>, replies: seq<RemoveReply>)
    requires |ids| == |replies|
    ensures RemoveAll(sv, ids, replies).wire == sv.wire + Removals(ids)
  {
    if ids != [] {
      var n := |ids| - 1;
      RemovalsSent(sv, ids[..n], replies[..n]);
      assert Removals(ids) == Removals(ids[..n]) + [Sent(RemoveBreakpoint(ids[n]))];
    }
  }

  lemma {:induction false} AdditionsSent(w: Work, file: string, lines: seq<SourceLine>, objectType: int,
                                         objectNumber: int, shift: int, replies: seq<AddReply>)
    requires |lines| == |replies|
    ensures AddLines(w, file, lines, objectType, objectNumber, shift, replies).server.wire
            == w.server.wire + Additions(lines, objectType, objectNumber, shift, replies)
  {
    if lines != [] {
      hide AddLine;
      var n := |lines| - 1;
      AdditionsSent(w, file, lines[..n], objectType, objectNumber, shift, replies[..n]);
      AdditionSent(AddLines(w, file, lines[..n], objectType, objectNumber, shift, replies[..n]), file, lines[n],
                   objectType, objectNumber, shift, replies[n]);
    }
  }

  lemma {:induction false} AdditionSent(w: Work, file: string, source: SourceLine, objectType: int, objectNumber: int,
                                        shift: int, reply: AddReply)
    ensures var condition := if source.condition.Some? then source.condition.value else "";
            AddLine(w, file, source, objectType, objectNumber, shift, reply).server.wire
            == w.server.wire
               + [Sent(AddBreakpoint(Position(objectType, objectNumber, LineThere(source.line, shift)), condition))]
               + if Elsewhere(reply, objectType, objectNumber) then [Sent(RemoveBreakpoint(reply.id))] else []
  {
    ThereIs(source.line, shift);
    hide ServerLine, MakeInfo, LineThere;
  }

  lemma {:induction false} ThereIs(line: nat, shift: int)
    ensures ServerLine(line, shift) == LineThere(line, shift)
  {
  }

  /** Setting breakpoints removes the old ones of the file, and then adds the lines. */
  lemma {:induction false} SetBreakpointsSends(s: State, c: Command)
    requires Answered(s, c) && c.CmdSetBreakpoints?
    ensures Do(s, c).server.wire
            == s.server.wire + Removals(OldIds(s, c.file))
               + Additions(c.lines, c.objectType, c.objectNumber, c.lineShift, c.replies)
  {
    hide AddLines, RemoveAll, Additions, FreshIds;
    var f := ForgetFile(s, c.file, c.removals);
    RemovalsSent(s.server, OldIds(s, c.file), c.removals);
    AdditionsSent(Work(f.server, f.armed, [], []), c.file, c.lines, c.objectType, c.objectNumber, c.lineShift,
                  c.replies);
  }

  /** Stepping in and out and over, and continuing, are told apart by a number. */
  lemma {:induction false} StepSends(s: State, stepType: string, events: seq<Event>, config: ConfigReply,
                                     accepted: bool)
    ensures var (d, error) := Drain(s, events, config);
            var (r, e) := Resume(s, ExitReason(stepType), events, config, accepted);
            && e == error
            && r.server.wire == d.server.wire +
               (if error.Some? then []
                else if stepType == "in" then [Sent(SetBreakpointResponse(2))]
                else if stepType == "out" then [Sent(SetBreakpointResponse(3))]
                else [Sent(SetBreakpointResponse(1))])
            && (r.stopped <==> d.stopped && (error.Some? || !accepted))
  {
    hide Drain;
  }

  lemma {:induction false} ContinueSends(s: State, events: seq<Event>, config: ConfigReply, accepted: bool)
    ensures var (d, error) := Drain(s, events, config);
            var (r, e) := Resume(s, 0, events, config, accepted);
            && e == error
            && r.server.wire == d.server.wire + (if error.Some? then [] else [Sent(SetBreakpointResponse(0))])
            && (r.stopped <==> d.stopped && (error.Some? || !accepted))
  {
    hide Drain;
  }

  /** Asking for the state inspects the variables only while execution is stopped, and enters
      them into the last hit only. */
  lemma {:induction false} StateSends(s: State, events: seq<Event>, config: ConfigReply,
                                      variables: Option<seq<Variable>>)
    ensures var (d, error) := Drain(s, events, config);
            var (r, e) := GetState(s, events, config, variables);
            && e == error
            && r.server.wire == d.server.wire + (if error.None? && d.stopped then [Sent(Inspect)] else [])
            && |r.history| == |d.history|
            && (forall i :: 0 <= i < |d.history| - 1 ==> r.history[i] == d.history[i])
            && (d.history != [] ==>
                  var last := d.history[|d.history| - 1];
                  r.history[|d.history| - 1] ==
                  if error.None? && d.stopped && variables.Some? then last.(variables := variables.value) else last)
  {
    hide Drain;
  }

  /** The requests that change nothing. */
  lemma {:induction false} QuerySends(s: State, events: seq<Event>, config: ConfigReply)
    ensures var (d, error) := Drain(s, events, config);
            var (r, e) := Query(s, events, config);
            && e == error
            && r == d.(server := d.server.(wire := d.server.wire + (if error.None? then [Sent(Inspect)] else [])))
  {
    hide Drain;
  }

  /** Draining takes in the events in order, and then asks for the configuration to be finished
      if that has not been asked before and a client is attached. */
  lemma {:induction false} DrainSends(s: State, events: seq<Event>, config: ConfigReply)
    ensures var (d, error) := Drain(s, events, config);
            var received := seq(|events|, i requires 0 <= i < |events| => Received(events[i]));
            var asks := !s.configured && s.configureError.None? && AttachedBy(s.attached, events);
            && d.server.wire == s.server.wire + received
                                + (if asks then [Sent(ConfigurationDone(config.Accepted?))] else [])
            && (d.attached <==> AttachedBy(s.attached, events))
            && (d.configured <==> s.configured || (asks && config.Accepted?))
            && error == d.configureError
            && d.configureError == if asks && config.Rejected? then Some(config.message) else s.configureError
  {
    hide HandleEvents, NextSeq;
    EventsReceived(s, events, NextSeq(s.history));
  }

  /** The last event about attaching decides. */
  function AttachedBy(before: bool, events: seq<Event>): bool {
    if events == [] then before else
    var last := events[|events| - 1];
    if last.Attached? then true
    else if last.Detached? then false
    else AttachedBy(before, events[..|events| - 1])
  }

  lemma {:induction false} EventsReceived(s: State, events: seq<Event>, seqNo: nat)
    ensures var r := HandleEvents(s, events, seqNo).0;
            && r.server.wire == s.server.wire + seq(|events|, i requires 0 <= i < |events| => Received(events[i]))
            && r.attached == AttachedBy(s.attached, events)
            && r.configured == s.configured && r.configureError == s.configureError
  {
    if events != [] {
      hide HandleEvent, SeqAfter;
      var n := |events| - 1;
      EventsReceived(s, events[..n], seqNo);
      var (before, k) := HandleEvents(s, events[..n], seqNo);
      OneReceived(before, events[n], k);
      assert seq(|events|, i requires 0 <= i < |events| => Received(events[i]))
             == seq(n, i requires 0 <= i < n => Received(events[..n][i])) + [Received(events[n])];
    }
  }

  lemma {:induction false} OneReceived(s: State, e: Event, seqNo: nat)
    ensures var r := HandleEvent(s, e, seqNo);
            && r.server.wire == s.server.wire + [Received(e)]
            && r.attached == (if e.Attached? then true else if e.Detached? then false else s.attached)
            && r.configured == s.configured && r.configureError == s.configureError
            && (r.stopped <==> s.stopped || e.Break?)
            && (e.Break? ==> r.lastStack == e.frames && r.lastObject == ReportedObject(e.location))
  {
    hide MakeHit, PushCapped, ReportedPosition, ReportedObject;
  }

  /** The history holds the last 10000 Breaks of a run, and they are numbered from 1 on, modulo
      2^32. */
  lemma {:induction false} HistoryLimits(commands: seq<Command>)
    requires Run(commands).Some?
    ensures var s := Run(commands).value;
            var n := |s.server.recorded|;
            && |s.history| == (if n < 10_000 then n else 10_000)
            && (forall k :: 0 <= k < n ==> s.server.recorded[k].hit.seqNo == (k + 1) % 4_294_967_296)
            && (forall i :: 0 <= i < |s.history| ==>
                  s.history[i].(variables := []) == s.server.recorded[n - |s.history| + i].hit)
  {
    hide Run;
    RunHistory(commands);
  }

  // ----- What the requests do to the server -----

  /** An addition that answers with an id leaves a live breakpoint: at the position asked for,
      unless the answer names another object. One that fails may leave one as well, which the
      client knows nothing of. */
  lemma {:induction false} AdditionDoes(sv: Server, p: Position, condition: string, reply: AddReply)
    ensures var after := PlaceOne(sv, p, condition, reply);
            match reply
            case AddFailed(None) => after == sv.(wire := after.wire)
            case AddFailed(Some(id)) =>
              && after.live == sv.live + {id} && after.orphans == sv.orphans + {id}
              && after.placed == sv.placed[id := None] && after.unremoved == sv.unremoved
            case Definition(id, _, _) =>
              if id == 0 then after == sv.(wire := after.wire) else
              && after.live == sv.live + {id} && after.orphans == sv.orphans && after.unremoved == sv.unremoved
              && after.placed == sv.placed[id := if Elsewhere(reply, p.objectType, p.objectNumber) then None
                                                 else Some(p)]
  {
  }

  /** A removal that succeeds, or that fails behind the fact, ends the breakpoint. */
  lemma {:induction false} RemovalDoes(sv: Server, id: int, reply: RemoveReply)
    ensures var after := RemoveOne(sv, id, reply);
            && after.live == (if reply == Removed || reply == RemoveFailed(true) then sv.live - {id} else sv.live)
            && after.unremoved == (if reply == Removed then sv.unremoved else sv.unremoved + {id})
            && after.orphans == sv.orphans && after.placed == sv.placed && after.recorded == sv.recorded
  {
  }
}
