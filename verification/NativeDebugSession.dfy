/** The session object: its methods update the tables in place and are proved to do what the
    state machine of `SessionModel` says.

    The object keeps the fields of the source; what only the server knows is a ghost field
    beside them, and `Abs` is the state of the model that both make up. Every method carries
    its loops over old ids, lines, events and history entries, with the part done so far in
    the invariants, and ends in exactly the state that the command of that name leads to. So
    what is proved of every run of the model holds for the object. */
module NativeDebugging {
  import opened Options
  import opened SessionModel
  import Timestamp

  class NativeDebugSession {
    var breakpoints: map<string, seq<int>>
    var armed: map<Position, int>
    var history: seq<Hit>
    var lastStack: seq<Frame>
    var lastObject: Option<(int, int)>
    var configured: bool
    var configureError: Option<string>
    /** Kept by the connection: whether a client is attached, and whether execution is stopped. */
    var attached: bool
    var stopped: bool
    ghost var server: Server

    ghost function Abs(): State
      reads this
    {
      State(breakpoints, armed, history, lastStack, lastObject, configured, configureError, attached, stopped, server)
    }

    constructor Start()
      ensures Abs() == START
    {
      breakpoints, armed, history, lastStack := map[], map[], [], [];
      lastObject, configured, configureError, attached, stopped := None, false, None, false, false;
      server := Server({}, map[], {}, {}, [], []);
    }

    /** Removes the breakpoints the file had. */
    method RemoveOld(file: string, removals: seq<RemoveReply>)
      requires |removals| == |OldIds(Abs(), file)|
      modifies this
      ensures Abs() == ForgetFile(old(Abs()), file, removals)
    {
      hide RemoveOne;
      if file in breakpoints {
        var oldIds := breakpoints[file];
        breakpoints := breakpoints - {file};
        for i := 0 to |oldIds|
          invariant Abs() == old(Abs()).(breakpoints := old(breakpoints) - {file}, server := server)
          invariant server == RemoveAll(old(server), oldIds[..i], removals[..i])
        {
          assert oldIds[..i + 1][..i] == oldIds[..i] && removals[..i + 1][..i] == removals[..i];
          server := RemoveOne(server, oldIds[i], removals[i]);
        }
        assert oldIds[..|oldIds|] == oldIds && removals[..|removals|] == removals;
        armed := Disarm(armed, oldIds);
      }
    }

    /** Removes the breakpoints the file had, then sets the new ones line by line. */
    method SetBreakpoints(file: string, lines: seq<SourceLine>, objectType: int, objectNumber: int, lineShift: int,
                          removals: seq<RemoveReply>, replies: seq<AddReply>)
      returns (infos: seq<BreakpointInfo>)
      requires |removals| == |OldIds(Abs(), file)| && |lines| == |replies|
      modifies this
      ensures (Abs(), infos) ==
              SessionModel.SetBreakpoints(old(Abs()), file, lines, objectType, objectNumber, lineShift,
                                          removals, replies)
    {
      hide ServerLine, MakeInfo, ObjectMatches, PlaceOne, RemoveOne, ForgetFile;
      RemoveOld(file, removals);
      infos := [];
      var newIds: seq<int> := [];
      ghost var forgotten := Abs();
      ghost var start := Work(server, armed, [], []);
      for i := 0 to |lines|
        invariant Abs() == forgotten.(armed := armed, server := server)
        invariant Work(server, armed, newIds, infos) ==
                  AddLines(start, file, lines[..i], objectType, objectNumber, lineShift, replies[..i])
      {
        assert lines[..i + 1][..i] == lines[..i] && replies[..i + 1][..i] == replies[..i];
        var line := lines[i].line;
        var condition := if lines[i].condition.Some? then lines[i].condition.value else "";
        var position := Position(objectType, objectNumber, ServerLine(line, lineShift));
        server := PlaceOne(server, position, condition, replies[i]);
        match replies[i]
        case Definition(id, echo, undo) =>
          var matches := ObjectMatches(echo, objectType, objectNumber);
          if id != 0 && matches {
            newIds := newIds + [id];
            armed := armed[position := id];
          } else if id != 0 {
            server := RemoveOne(server, id, undo);
          }
          infos := infos + [MakeInfo(file, line, condition, id, id != 0 && matches)];
        case AddFailed(_) =>
          infos := infos + [MakeInfo(file, line, condition, 0, false)];
      }
      assert lines[..|lines|] == lines && replies[..|replies|] == replies;
      if newIds != [] {
        breakpoints := breakpoints[file := newIds];
      }
    }

    /** Appends a hit and drops hits from the front while there are more than the cap. */
    method PushWithCap(hit: Hit, cap: nat)
      modifies this`history
      ensures history == PushCapped(old(history), hit, cap)
    {
      history := history + [hit];
      ghost var grown := history;
      while |history| > cap
        invariant |history| <= |grown| && history == grown[|grown| - |history|..]
        invariant |grown| > cap ==> |history| >= cap
        invariant |grown| <= cap ==> history == grown
      {
        history := history[1..];
      }
    }

    /** Handles the pushed events in order, sends `configurationDone` if it is due, and reports
        a rejection. */
    method DrainEvents(events: seq<Event>, config: ConfigReply) returns (error: Option<string>)
      modifies this
      ensures (Abs(), error) == Drain(old(Abs()), events, config)
    {
      var nextSeq := if history == [] then 1 else Bump(history[|history| - 1].seqNo);
      ghost var firstSeq := nextSeq;
      for i := 0 to |events|
        invariant (Abs(), nextSeq) == HandleEvents(old(Abs()), events[..i], firstSeq)
      {
        assert events[..i + 1][..i] == events[..i];
        HandleOne(events[i], nextSeq);
        nextSeq := SeqAfter(events[i], nextSeq);
      }
      assert events[..|events|] == events;
      if !configured && configureError.None? && attached {
        server := server.(wire := server.wire + [Sent(ConfigurationDone(config.Accepted?))]);
        match config
        case Accepted => configured := true;
        case Rejected(message) => configureError := Some(message);
      }
      error := configureError;
    }

    method HandleOne(event: Event, seqNo: nat)
      modifies this
      ensures Abs() == HandleEvent(old(Abs()), event, seqNo)
    {
      hide MakeHit, ReportedObject, ReportedPosition, PushCapped;
      server := server.(wire := server.wire + [Received(event)]);
      match event
      case Break(location, frames, _) =>
        stopped := true;
        lastStack := frames;
        var hit := LocateBreak(event, seqNo);
        PushWithCap(hit, HISTORY_CAP);
        server := server.(recorded := server.recorded + [Entry(hit, ReportedPosition(location))]);
      case Attached => attached := true;
      case Detached => attached := false;
      case Other =>
    }

    /** Remembers the object of a Break and names the breakpoint armed at its position. */
    method LocateBreak(event: Event, seqNo: nat) returns (hit: Hit)
      requires event.Break?
      modifies this`lastObject
      ensures lastObject == ReportedObject(event.location)
      ensures hit == MakeHit(armed, event, seqNo)
    {
      hide Timestamp.Format, ToClient;
      lastObject := None;
      var debuggerLine: nat := 0;
      var where := Location(0, 0, None);
      if event.location.Some? {
        var loc := event.location.value;
        debuggerLine := loc.line;
        if loc.objectType.Some? && loc.objectNumber.Some? {
          lastObject := Some((loc.objectType.value, loc.objectNumber.value));
        }
        where := Location(ToClient(loc.line), ToClient(loc.column), loc.procedure);
      }
      var breakpointId := 0;
      if lastObject.Some? {
        var position := Position(lastObject.value.0, lastObject.value.1, debuggerLine);
        if position in armed {
          breakpointId := armed[position];
        }
      }
      hit := Hit(seqNo, breakpointId, Timestamp.Format(event.clock), where, []);
    }

    /** `state`; the location reported is that of the last recorded hit. */
    method GetState(events: seq<Event>, config: ConfigReply, variables: Option<seq<Variable>>)
      returns (error: Option<string>, paused: bool, location: Option<Location>, shown: seq<Variable>)
      modifies this
      ensures (Abs(), error) == SessionModel.GetState(old(Abs()), events, config, variables)
      ensures error.None? ==>
                && paused == stopped
                && location == (if history == [] then None else Some(history[|history| - 1].location))
                && shown == (if stopped && variables.Some? then variables.value else [])
    {
      error := DrainEvents(events, config);
      paused, location, shown := false, None, [];
      if error.Some? { return; }
      paused := stopped;
      if stopped {
        server := server.(wire := server.wire + [Sent(Inspect)]);
        if variables.Some? {
          shown := variables.value;
          if history != [] {
            history := history[..|history| - 1] + [history[|history| - 1].(variables := shown)];
          }
        }
      }
      if history != [] {
        location := Some(history[|history| - 1].location);
      }
    }

    /** `variables`, `globals` and `expand`. */
    method Query(events: seq<Event>, config: ConfigReply) returns (error: Option<string>)
      modifies this
      ensures (Abs(), error) == SessionModel.Query(old(Abs()), events, config)
    {
      error := DrainEvents(events, config);
      if error.None? {
        server := server.(wire := server.wire + [Sent(Inspect)]);
      }
    }

    /** `continue_execution`: the request that lets execution go on. */
    method Respond(exitReason: int, accepted: bool)
      modifies this
      ensures Abs() == var r := SendTo(old(Abs()), SetBreakpointResponse(exitReason));
                       if accepted then r.(stopped := false) else r
    {
      server := server.(wire := server.wire + [Sent(SetBreakpointResponse(exitReason))]);
      if accepted {
        stopped := false;
      }
    }

    method ContinueExec(events: seq<Event>, config: ConfigReply, accepted: bool) returns (error: Option<string>)
      modifies this
      ensures (Abs(), error) == Resume(old(Abs()), 0, events, config, accepted)
    {
      error := DrainEvents(events, config);
      if error.None? {
        Respond(0, accepted);
      }
    }

    method Step(stepType: string, events: seq<Event>, config: ConfigReply, accepted: bool)
      returns (error: Option<string>)
      modifies this
      ensures (Abs(), error) == Resume(old(Abs()), ExitReason(stepType), events, config, accepted)
    {
      error := DrainEvents(events, config);
      if error.None? {
        if stepType == "in" {
          Respond(2, accepted);
        } else if stepType == "out" {
          Respond(3, accepted);
        } else {
          Respond(1, accepted);
        }
      }
    }

    method Stop()
      modifies this
      ensures Abs() == SendTo(old(Abs()), StopDebugging)
    {
      server := server.(wire := server.wire + [Sent(StopDebugging)]);
    }
  }
}
