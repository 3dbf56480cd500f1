/** The native debug session as a state machine: what the session keeps, what the Business
    Central server keeps, and what every command does to both.

    Replies of the server, the events it pushes and the clock are inputs of the commands.
    Nothing is assumed of them except that the server never hands out a breakpoint id twice:
    a removal that fails may or may not have taken place, and so may an addition. */
module SessionModel {
  import opened Options
  import Timestamp

  const HISTORY_CAP := 10_000
  const SEQ_MODULUS := 0x1_0000_0000

  // ----- What the server reports -----

  /** Object type and number, and the zero-based line BC counts in that object. */
  datatype Position = Position(objectType: int, objectNumber: int, line: nat)

  /** The `ObjectId` of a breakpoint definition, absent or with fields that may be absent. */
  datatype Echo = Absent | Object(objectType: Option<int>, objectNumber: Option<int>)

  /** The reply to `AddBreakpoint`: a definition (id 0: nothing was placed), or a failure that
      may leave a breakpoint behind that the client has no id for. */
  datatype AddReply = Definition(id: int, echo: Echo, undo: RemoveReply) | AddFailed(orphan: Option<int>)

  /** The reply to `RemoveBreakpoint`. */
  datatype RemoveReply = Removed | RemoveFailed(gone: bool)

  datatype ConfigReply = Accepted | Rejected(message: string)

  datatype BreakLocation = BreakLocation(line: nat, column: nat, procedure: Option<string>,
                                         objectType: Option<int>, objectNumber: Option<int>)

  type Frame = string
  type Variable = string

  datatype Event =
    | Break(location: Option<BreakLocation>, frames: seq<Frame>, clock: nat)
    | Attached
    | Detached
    | Other

  datatype Request =
    | AddBreakpoint(position: Position, condition: string)
    | RemoveBreakpoint(id: int)
    | ConfigurationDone(accepted: bool)
    | SetBreakpointResponse(exitReason: int)
    | Inspect
    | StopDebugging

  datatype Wire = Received(event: Event) | Sent(request: Request)

  // ----- State -----

  datatype Location = Location(line: nat, column: nat, procedure: Option<string>)

  datatype Hit = Hit(seqNo: nat, breakpointId: int, timestamp: string, location: Location,
                     variables: seq<Variable>)

  /** A recorded Break with the position it was reported at, when it named an object. */
  datatype Entry = Entry(hit: Hit, at: Option<Position>)

  /** What only the server and an observer of the connection know. `placed` holds every id ever
      handed out and where it was placed; `None` is a place the client did not ask for.
      `recorded` is the log of all Breaks that the session drained. */
  datatype Server = Server(live: set<int>, placed: map<int, Option<Position>>, unremoved: set<int>,
                           orphans: set<int>, wire: seq<Wire>, recorded: seq<Entry>)

  datatype State = State(
    breakpoints: map<string, seq<int>>,
    armed: map<Position, int>,
    history: seq<Hit>,
    lastStack: seq<Frame>,
    lastObject: Option<(int, int)>,
    configured: bool,
    configureError: Option<string>,
    attached: bool,
    stopped: bool,
    server: Server)

  const START := State(map[], map[], [], [], None, false, None, false, false,
                       Server({}, map[], {}, {}, [], []))

  // ----- Setting breakpoints -----

  datatype SourceLine = SourceLine(line: nat, condition: Option<string>)

  datatype BreakpointInfo = BreakpointInfo(id: int, file: string, line: nat, condition: Option<string>,
                                           verified: bool)

  function Max(a: int, b: int): (m: int)
    ensures m >= a && m >= b && m in {a, b}
  {
    if a > b then a else b
  }

  /** `client_line_to_debugger` for a one-based client, shifted into the object's own unit. */
  function ServerLine(line: nat, lineShift: int): nat {
    Max(Max(line - 1, 0) + lineShift, 0)
  }

  function ObjectMatches(echo: Echo, objectType: int, objectNumber: int): bool {
    echo.Absent? || (echo.objectType == Some(objectType) && echo.objectNumber == Some(objectNumber))
  }

  function MakeInfo(file: string, line: nat, condition: string, id: int, verified: bool): BreakpointInfo {
    BreakpointInfo(id, file, line, if condition == "" then None else Some(condition), verified)
  }

  function RemoveOne(sv: Server, id: int, reply: RemoveReply): Server {
    var sv' := sv.(wire := sv.wire + [Sent(RemoveBreakpoint(id))]);
    match reply
    case Removed => sv'.(live := sv.live - {id})
    case RemoveFailed(gone) =>
      sv'.(live := if gone then sv.live - {id} else sv.live, unremoved := sv.unremoved + {id})
  }

  function RemoveAll(sv: Server, ids: seq<int>, replies: seq<RemoveReply>): Server
    requires |ids| == |replies|
  {
    if ids == [] then sv else
    var n := |ids| - 1;
    RemoveOne(RemoveAll(sv, ids[..n], replies[..n]), ids[n], replies[n])
  }

  lemma {:induction false} RemoveKeepsRecorded(sv: Server, ids: seq<int>, replies: seq<RemoveReply>)
    requires |ids| == |replies|
    ensures RemoveAll(sv, ids, replies).recorded == sv.recorded
  {
    if ids != [] {
      RemoveKeepsRecorded(sv, ids[..|ids| - 1], replies[..|ids| - 1]);
    }
  }

  /** The server side of `AddBreakpoint`: it places the breakpoint, at the position asked for
      unless the reply names a different object. */
  function PlaceOne(sv: Server, position: Position, condition: string, reply: AddReply): Server {
    var sv' := sv.(wire := sv.wire + [Sent(AddBreakpoint(position, condition))]);
    match reply
    case AddFailed(None) => sv'
    case AddFailed(Some(id)) =>
      sv'.(live := sv.live + {id}, placed := sv.placed[id := None], orphans := sv.orphans + {id})
    case Definition(id, echo, _) =>
      if id == 0 then sv' else
      sv'.(live := sv.live + {id},
           placed := sv.placed[id := if ObjectMatches(echo, position.objectType, position.objectNumber)
                                     then Some(position) else None])
  }

  /** The parts of the state that adding one line touches. */
  datatype Work = Work(server: Server, armed: map<Position, int>, ids: seq<int>, infos: seq<BreakpointInfo>)

  function AddLine(w: Work, file: string, source: SourceLine, objectType: int, objectNumber: int,
                   lineShift: int, reply: AddReply): Work
  {
    var condition := if source.condition.Some? then source.condition.value else "";
    var position := Position(objectType, objectNumber, ServerLine(source.line, lineShift));
    var server := PlaceOne(w.server, position, condition, reply);
    match reply
    case AddFailed(_) =>
      w.(server := server, infos := w.infos + [MakeInfo(file, source.line, condition, 0, false)])
    case Definition(id, echo, undo) =>
      var matches := ObjectMatches(echo, objectType, objectNumber);
      var infos := w.infos + [MakeInfo(file, source.line, condition, id, id != 0 && matches)];
      if id != 0 && matches then Work(server, w.armed[position := id], w.ids + [id], infos)
      else if id != 0 then w.(server := RemoveOne(server, id, undo), infos := infos)
      else w.(server := server, infos := infos)
  }

  function AddLines(w: Work, file: string, lines: seq<SourceLine>, objectType: int, objectNumber: int,
                    lineShift: int, replies: seq<AddReply>): Work
    requires |lines| == |replies|
  {
    if lines == [] then w else
    var n := |lines| - 1;
    AddLine(AddLines(w, file, lines[..n], objectType, objectNumber, lineShift, replies[..n]),
            file, lines[n], objectType, objectNumber, lineShift, replies[n])
  }

  function OldIds(s: State, file: string): seq<int> {
    if file in s.breakpoints then s.breakpoints[file] else []
  }

  /** `armed.retain`: entries of the given ids go. */
  function Disarm(armed: map<Position, int>, ids: seq<int>): map<Position, int> {
    map p | p in armed && armed[p] !in ids :: armed[p]
  }

  function ForgetFile(s: State, file: string, removals: seq<RemoveReply>): State
    requires |removals| == |OldIds(s, file)|
  {
    if file !in s.breakpoints then s else
    s.(breakpoints := s.breakpoints - {file},
       armed := Disarm(s.armed, s.breakpoints[file]),
       server := RemoveAll(s.server, s.breakpoints[file], removals))
  }

  function PlaceLines(s: State, file: string, lines: seq<SourceLine>, objectType: int, objectNumber: int,
                      lineShift: int, replies: seq<AddReply>): (State, seq<BreakpointInfo>)
    requires |lines| == |replies|
  {
    var w := AddLines(Work(s.server, s.armed, [], []), file, lines, objectType, objectNumber, lineShift, replies);
    (s.(breakpoints := if w.ids != [] then s.breakpoints[file := w.ids] else s.breakpoints,
        armed := w.armed, server := w.server),
     w.infos)
  }

  function SetBreakpoints(s: State, file: string, lines: seq<SourceLine>, objectType: int, objectNumber: int,
                          lineShift: int, removals: seq<RemoveReply>, replies: seq<AddReply>)
    : (State, seq<BreakpointInfo>)
    requires |removals| == |OldIds(s, file)| && |lines| == |replies|
  {
    PlaceLines(ForgetFile(s, file, removals), file, lines, objectType, objectNumber, lineShift, replies)
  }

  // ----- Draining events -----

  /** `debugger_line_to_client` for a one-based client, cast to 32 bits; columns alike. */
  function ToClient(n: nat): nat {
    if n > 0 then (n + 1) % 0x1_0000_0000 else 0
  }

  function ReportedObject(location: Option<BreakLocation>): Option<(int, int)> {
    if location.Some? && location.value.objectType.Some? && location.value.objectNumber.Some?
    then Some((location.value.objectType.value, location.value.objectNumber.value)) else None
  }

  function ReportedPosition(location: Option<BreakLocation>): Option<Position> {
    if ReportedObject(location).Some?
    then Some(Position(ReportedObject(location).value.0, ReportedObject(location).value.1, location.value.line))
    else None
  }

  function ArmedId(armed: map<Position, int>, at: Option<Position>): int {
    if at.Some? && at.value in armed then armed[at.value] else 0
  }

  function MakeHit(armed: map<Position, int>, e: Event, seqNo: nat): Hit
    requires e.Break?
  {
    Hit(seqNo, ArmedId(armed, ReportedPosition(e.location)), Timestamp.Format(e.clock),
        if e.location.Some?
        then Location(ToClient(e.location.value.line), ToClient(e.location.value.column), e.location.value.procedure)
        else Location(0, 0, None),
        [])
  }

  /** `push_with_cap`: append, then drop from the front down to the cap. */
  function PushCapped(history: seq<Hit>, hit: Hit, cap: nat): seq<Hit> {
    var h := history + [hit];
    if |h| > cap then h[|h| - cap..] else h
  }

  function HandleEvent(s: State, e: Event, seqNo: nat): State {
    var sv := s.server.(wire := s.server.wire + [Received(e)]);
    match e
    case Break(location, frames, _) =>
      var hit := MakeHit(s.armed, e, seqNo);
      s.(lastStack := frames,
         lastObject := ReportedObject(location),
         history := PushCapped(s.history, hit, HISTORY_CAP),
         stopped := true,
         server := sv.(recorded := sv.recorded + [Entry(hit, ReportedPosition(location))]))
    case Attached => s.(attached := true, server := sv)
    case Detached => s.(attached := false, server := sv)
    case Other => s.(server := sv)
  }

  /** 32-bit increment. */
  function Bump(n: nat): nat { (n + 1) % SEQ_MODULUS }

  function SeqAfter(e: Event, seqNo: nat): nat {
    if e.Break? then Bump(seqNo) else seqNo
  }

  function NextSeq(history: seq<Hit>): nat {
    if history == [] then 1 else Bump(history[|history| - 1].seqNo)
  }

  /** The state after the events, and the sequence number that the next Break would get. */
  function HandleEvents(s: State, events: seq<Event>, seqNo: nat): (State, nat) {
    if events == [] then (s, seqNo) else
    var n := |events| - 1;
    var (s', k) := HandleEvents(s, events[..n], seqNo);
    (HandleEvent(s', events[n], k), SeqAfter(events[n], k))
  }

  /** `configurationDone`, once, after the client has attached. */
  function Configure(s: State, reply: ConfigReply): State {
    if s.configured || s.configureError.Some? || !s.attached then s else
    var sv := s.server.(wire := s.server.wire + [Sent(ConfigurationDone(reply.Accepted?))]);
    match reply
    case Accepted => s.(configured := true, server := sv)
    case Rejected(message) => s.(configureError := Some(message), server := sv)
  }

  /** Draining succeeds (`None`) or reports the configuration failure. */
  function Drain(s: State, events: seq<Event>, reply: ConfigReply): (State, Option<string>) {
    var s' := Configure(HandleEvents(s, events, NextSeq(s.history)).0, reply);
    (s', s'.configureError)
  }

  // ----- The commands -----

  function SendTo(s: State, request: Request): State {
    s.(server := s.server.(wire := s.server.wire + [Sent(request)]))
  }

  function FillBack(history: seq<Hit>, variables: seq<Variable>): seq<Hit> {
    if history == [] then history
    else history[..|history| - 1] + [history[|history| - 1].(variables := variables)]
  }

  /** `state`: drain, and when stopped ask for the variables (`None`: the request failed). */
  function GetState(s: State, events: seq<Event>, config: ConfigReply, variables: Option<seq<Variable>>)
    : (State, Option<string>)
  {
    var (d, error) := Drain(s, events, config);
    if error.Some? || !d.stopped then (d, error) else
    var q := SendTo(d, Inspect);
    (if variables.Some? then q.(history := FillBack(q.history, variables.value)) else q, error)
  }

  /** `variables`, `globals`, `expand`: drain, then one request that changes nothing. */
  function Query(s: State, events: seq<Event>, config: ConfigReply): (State, Option<string>) {
    var (d, error) := Drain(s, events, config);
    (if error.Some? then d else SendTo(d, Inspect), error)
  }

  /** `continue_exec` (reason 0) and `step`: drain, then let execution go on. */
  function Resume(s: State, exitReason: int, events: seq<Event>, config: ConfigReply, accepted: bool)
    : (State, Option<string>)
  {
    var (d, error) := Drain(s, events, config);
    if error.Some? then (d, error) else
    var r := SendTo(d, SetBreakpointResponse(exitReason));
    (if accepted then r.(stopped := false) else r, error)
  }

  /** `step`'s exit reasons: in is 2, out is 3, anything else steps over. */
  function ExitReason(stepType: string): int {
    if stepType == "in" then 2 else if stepType == "out" then 3 else 1
  }

  datatype Command =
    | CmdSetBreakpoints(file: string, lines: seq<SourceLine>, objectType: int, objectNumber: int, lineShift: int,
                        removals: seq<RemoveReply>, replies: seq<AddReply>)
    | CmdState(events: seq<Event>, config: ConfigReply, variables: Option<seq<Variable>>)
    | CmdStack(events: seq<Event>, config: ConfigReply)
    | CmdQuery(events: seq<Event>, config: ConfigReply)
    | CmdResume(exitReason: int, events: seq<Event>, config: ConfigReply, accepted: bool)
    | CmdEval
    | CmdStop

  /** The ids that the replies hand out. */
  function IdOf(reply: AddReply): Option<int> {
    match reply
    case Definition(id, _, _) => if id == 0 then None else Some(id)
    case AddFailed(orphan) => orphan
  }

  /** No id is handed out twice, and none is 0. */
  predicate FreshIds(sv: Server, replies: seq<AddReply>) {
    && (forall i :: 0 <= i < |replies| && IdOf(replies[i]).Some? ==>
                      IdOf(replies[i]).value != 0 && IdOf(replies[i]).value !in sv.placed)
    && (forall i, j :: 0 <= i < j < |replies| && IdOf(replies[i]).Some? ==> IdOf(replies[i]) != IdOf(replies[j]))
  }

  /** The command comes with one reply per request it makes, and with fresh ids. */
  predicate Answered(s: State, c: Command) {
    c.CmdSetBreakpoints? ==>
      |c.removals| == |OldIds(s, c.file)| && |c.lines| == |c.replies| && FreshIds(s.server, c.replies)
  }

  function Do(s: State, c: Command): State
    requires Answered(s, c)
  {
    match c
    case CmdSetBreakpoints(file, lines, objectType, objectNumber, lineShift, removals, replies) =>
      SetBreakpoints(s, file, lines, objectType, objectNumber, lineShift, removals, replies).0
    case CmdState(events, config, variables) => GetState(s, events, config, variables).0
    case CmdStack(events, config) => Drain(s, events, config).0
    case CmdQuery(events, config) => Query(s, events, config).0
    case CmdResume(exitReason, events, config, accepted) => Resume(s, exitReason, events, config, accepted).0
    case CmdEval => SendTo(s, Inspect)
    case CmdStop => SendTo(s, StopDebugging)
  }

  /** The state after a run of commands on a fresh session; `None` when the replies of some
      command do not fit the state it is given in. */
  function Run(commands: seq<Command>): Option<State> {
    if commands == [] then Some(START) else
    var n := |commands| - 1;
    var before := Run(commands[..n]);
    if before.Some? && Answered(before.value, commands[n]) then Some(Do(before.value, commands[n])) else None
  }
}
