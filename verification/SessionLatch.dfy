/** The capped history and the one-shot configuration latch, over every run. */
module SessionLatch {
  import opened Options
  import opened SessionModel
  import Timestamp

  // ----- History -----

  function Bare(hit: Hit): Hit { hit.(variables := []) }

  function Min(a: nat, b: nat): nat { if a < b then a else b }

  /** The history is the end of the log of recorded Breaks, up to the variables filled in
      later, and at most the cap of them. */
  ghost predicate IsLogEnd(history: seq<Hit>, recorded: seq<Entry>) {
    var n := |recorded|;
    && |history| == Min(n, HISTORY_CAP)
    && (forall i :: 0 <= i < |history| ==> Bare(history[i]) == recorded[n - |history| + i].hit)
  }

  /** The k-th recorded Break carries the number k, counted in 32 bits. */
  ghost predicate Numbered(recorded: seq<Entry>) {
    forall k :: 0 <= k < |recorded| ==> recorded[k].hit.seqNo == (k + 1) % SEQ_MODULUS
  }

  ghost predicate HistoryIsLogEnd(s: State) {
    IsLogEnd(s.history, s.server.recorded) && Numbered(s.server.recorded)
  }

  lemma {:induction false} PushKeepsLogEnd(history: seq<Hit>, recorded: seq<Entry>, entry: Entry)
    requires IsLogEnd(history, recorded) && entry.hit.variables == []
    ensures IsLogEnd(PushCapped(history, entry.hit, HISTORY_CAP), recorded + [entry])
  {
    var n := |recorded|;
    var grown := history + [entry.hit];
    var h := PushCapped(history, entry.hit, HISTORY_CAP);
    forall i | 0 <= i < |h|
      ensures Bare(h[i]) == (recorded + [entry])[n + 1 - |h| + i].hit
    {
      assert h[i] == grown[|grown| - |h| + i];
    }
  }

  lemma {:induction false} NextSeqContinues(s: State)
    requires HistoryIsLogEnd(s)
    ensures NextSeq(s.history) == (|s.server.recorded| + 1) % SEQ_MODULUS
  {
    var n := |s.server.recorded|;
    if s.history != [] {
      assert Bare(s.history[|s.history| - 1]) == s.server.recorded[n - 1].hit;
      BumpCounts(n);
    }
  }

  lemma {:induction false} BumpCounts(n: nat)
    ensures Bump(n % SEQ_MODULUS) == (n + 1) % SEQ_MODULUS
  {
    var q, r := n / SEQ_MODULUS, n % SEQ_MODULUS;
    assert n == SEQ_MODULUS * q + r;
    if r == SEQ_MODULUS - 1 {
      assert n + 1 == SEQ_MODULUS * (q + 1);
    } else {
      assert (n + 1) / SEQ_MODULUS == q;
    }
  }

  lemma {:induction false} HitFields(s: State, e: Event, seqNo: nat)
    requires e.Break?
    ensures MakeHit(s.armed, e, seqNo).seqNo == seqNo && MakeHit(s.armed, e, seqNo).variables == []
  {
    hide Timestamp.Format, ArmedId, ReportedPosition, ToClient;
  }

  lemma {:induction false} EventHistory(s: State, e: Event, seqNo: nat)
    requires HistoryIsLogEnd(s) && seqNo == (|s.server.recorded| + 1) % SEQ_MODULUS
    ensures var s' := HandleEvent(s, e, seqNo);
            HistoryIsLogEnd(s') && SeqAfter(e, seqNo) == (|s'.server.recorded| + 1) % SEQ_MODULUS
  {
    hide MakeHit, ReportedObject, ReportedPosition, PushCapped, IsLogEnd, Bump;
    if e.Break? {
      HitFields(s, e, seqNo);
      BumpCounts(|s.server.recorded| + 1);
      PushKeepsLogEnd(s.history, s.server.recorded, Entry(MakeHit(s.armed, e, seqNo), ReportedPosition(e.location)));
    }
  }

  lemma {:induction false} EventsHistory(s: State, events: seq<Event>, seqNo: nat)
    requires HistoryIsLogEnd(s) && seqNo == (|s.server.recorded| + 1) % SEQ_MODULUS
    ensures var (s', k) := HandleEvents(s, events, seqNo);
            HistoryIsLogEnd(s') && k == (|s'.server.recorded| + 1) % SEQ_MODULUS
  {
    hide HistoryIsLogEnd, HandleEvent, SeqAfter;
    if events != [] {
      var n := |events| - 1;
      EventsHistory(s, events[..n], seqNo);
      var before := HandleEvents(s, events[..n], seqNo);
      EventHistory(before.0, events[n], before.1);
    }
  }

  lemma {:induction false} DrainHistory(s: State, events: seq<Event>, config: ConfigReply)
    requires HistoryIsLogEnd(s)
    ensures HistoryIsLogEnd(Drain(s, events, config).0)
  {
    hide HandleEvents, NextSeq;
    NextSeqContinues(s);
    EventsHistory(s, events, NextSeq(s.history));
  }

  lemma {:induction false} FillBackKeepsBare(history: seq<Hit>, variables: seq<Variable>)
    ensures |FillBack(history, variables)| == |history|
    ensures forall i :: 0 <= i < |history| ==> Bare(FillBack(history, variables)[i]) == Bare(history[i])
  {
  }

  lemma {:induction false} AddLinesRecord(w: Work, file: string, lines: seq<SourceLine>, objectType: int,
                                          objectNumber: int, lineShift: int, replies: seq<AddReply>)
    requires |lines| == |replies|
    ensures AddLines(w, file, lines, objectType, objectNumber, lineShift, replies).server.recorded == w.server.recorded
  {
    if lines != [] {
      var n := |lines| - 1;
      AddLinesRecord(w, file, lines[..n], objectType, objectNumber, lineShift, replies[..n]);
    }
  }

  lemma {:induction false} SetBreakpointsHistory(s: State, c: Command)
    requires c.CmdSetBreakpoints? && Answered(s, c)
    ensures Do(s, c).history == s.history && Do(s, c).server.recorded == s.server.recorded
  {
    hide AddLines, RemoveAll;
    var f := ForgetFile(s, c.file, c.removals);
    RemoveKeepsRecorded(s.server, OldIds(s, c.file), c.removals);
    AddLinesRecord(Work(f.server, f.armed, [], []), c.file, c.lines, c.objectType, c.objectNumber, c.lineShift,
                   c.replies);
  }

  lemma {:induction false} DoHistory(s: State, c: Command)
    requires HistoryIsLogEnd(s) && Answered(s, c)
    ensures HistoryIsLogEnd(Do(s, c))
  {
    hide SetBreakpoints, Drain, FillBack, Bare;
    if c.CmdSetBreakpoints? {
      SetBreakpointsHistory(s, c);
    } else if c.CmdState? || c.CmdStack? || c.CmdQuery? || c.CmdResume? {
      DrainHistory(s, c.events, c.config);
      if c.CmdState? && c.variables.Some? {
        FillBackKeepsBare(Drain(s, c.events, c.config).0.history, c.variables.value);
      }
    }
  }

  /** In every run the history holds exactly the last recorded Breaks, at most the cap. */
  lemma {:induction false} RunHistory(commands: seq<Command>)
    requires Run(commands).Some?
    ensures HistoryIsLogEnd(Run(commands).value)
  {
    hide Do, Answered;
    if commands != [] {
      var n := |commands| - 1;
      RunHistory(commands[..n]);
      DoHistory(Run(commands[..n]).value, commands[n]);
    }
  }

  /** Below 2^32 recorded Breaks the numbers in the history are consecutive and end with the
      number of Breaks recorded; the first Break whose number is off is the one at 2^32. */
  lemma {:induction false} NumbersAreConsecutive(s: State)
    requires HistoryIsLogEnd(s)
    ensures (forall i :: 0 <= i < |s.history| ==>
                           s.history[i].seqNo == |s.server.recorded| - |s.history| + i + 1)
            <==> |s.server.recorded| < SEQ_MODULUS
  {
    hide Bare;
    var n, m := |s.server.recorded|, |s.history|;
    forall i | 0 <= i < m ensures s.history[i].seqNo == (n - m + i + 1) % SEQ_MODULUS {
      assert Bare(s.history[i]) == s.server.recorded[n - m + i].hit;
      BareSeqNo(s.history[i]);
    }
    if n < SEQ_MODULUS {
    } else {
      assert s.history[m - 1].seqNo == n % SEQ_MODULUS;
    }
  }

  lemma {:induction false} BareSeqNo(hit: Hit)
    ensures Bare(hit).seqNo == hit.seqNo
  {
  }

  // ----- Configuration -----

  /** Whether the last attach or detach callback on the connection was an attach. */
  function AttachedAfter(wire: seq<Wire>): bool {
    if wire == [] then false else
    var last := wire[|wire| - 1];
    if last == Received(Attached) then true
    else if last == Received(Detached) then false
    else AttachedAfter(wire[..|wire| - 1])
  }

  predicate IsConfiguration(w: Wire) {
    w.Sent? && w.request.ConfigurationDone?
  }

  function Configurations(wire: seq<Wire>): nat {
    if wire == [] then 0
    else Configurations(wire[..|wire| - 1]) + if IsConfiguration(wire[|wire| - 1]) then 1 else 0
  }

  predicate IsResume(w: Wire) {
    w.Sent? && w.request.SetBreakpointResponse?
  }

  /** The latch agrees with the connection: `configurationDone` was sent once if either flag is
      set and never otherwise, it was sent while attached, and once it was rejected nothing
      resumed execution. */
  ghost predicate Latched(wire: seq<Wire>, attached: bool, configured: bool, rejected: bool) {
    && attached == AttachedAfter(wire)
    && !(configured && rejected)
    && Configurations(wire) == (if configured || rejected then 1 else 0)
    && ConfiguresAttached(wire)
    && (configured <==> Sent(ConfigurationDone(true)) in wire)
    && (rejected <==> Sent(ConfigurationDone(false)) in wire)
    && RejectionEndsResuming(wire)
  }

  ghost predicate ConfiguresAttached(wire: seq<Wire>) {
    forall i :: 0 <= i < |wire| && IsConfiguration(wire[i]) ==> AttachedAfter(wire[..i])
  }

  ghost predicate RejectionEndsResuming(wire: seq<Wire>) {
    forall i, j :: 0 <= i < j < |wire| && wire[i] == Sent(ConfigurationDone(false)) ==> !IsResume(wire[j])
  }

  lemma {:induction false} MoreAttached(wire: seq<Wire>, w: Wire)
    requires ConfiguresAttached(wire) && (IsConfiguration(w) ==> AttachedAfter(wire))
    ensures ConfiguresAttached(wire + [w])
  {
    hide AttachedAfter, IsConfiguration;
    var more := wire + [w];
    forall i | 0 <= i < |more| && IsConfiguration(more[i]) ensures AttachedAfter(more[..i]) {
      assert more[..i] == wire[..i];
      assert i == |wire| ==> wire[..i] == wire;
    }
  }

  lemma {:induction false} MoreEnded(wire: seq<Wire>, w: Wire)
    requires RejectionEndsResuming(wire) && (IsResume(w) ==> Sent(ConfigurationDone(false)) !in wire)
    ensures RejectionEndsResuming(wire + [w])
  {
    hide IsResume;
    var more := wire + [w];
    forall i, j | 0 <= i < j < |more| && more[i] == Sent(ConfigurationDone(false))
      ensures !IsResume(more[j])
    {
      assert more[i] == wire[i] && wire[i] in wire;
    }
  }

  ghost predicate LatchOf(s: State) {
    Latched(s.server.wire, s.attached, s.configured, s.configureError.Some?)
  }

  /** One more message, and what it does to the latch. */
  lemma {:induction false} MessageLatches(wire: seq<Wire>, attached: bool, configured: bool, rejected: bool, w: Wire)
    requires Latched(wire, attached, configured, rejected)
    requires IsConfiguration(w) ==> attached && !configured && !rejected
    requires IsResume(w) ==> !rejected
    ensures Latched(wire + [w],
                    if w == Received(Attached) then true else if w == Received(Detached) then false else attached,
                    configured || w == Sent(ConfigurationDone(true)),
                    rejected || w == Sent(ConfigurationDone(false)))
  {
    hide ConfiguresAttached, RejectionEndsResuming;
    var more := wire + [w];
    assert more[..|wire|] == wire;
    MoreAttached(wire, w);
    MoreEnded(wire, w);
    assert forall x :: x in more <==> x in wire || x == w;
  }

  /** Requests that have nothing to do with the latch. */
  predicate Neutral(w: Wire) {
    w.Sent? && !w.request.ConfigurationDone? && !w.request.SetBreakpointResponse?
  }

  /** `later` continues `wire` with neutral requests only. */
  ghost predicate NeutralAfter(wire: seq<Wire>, later: seq<Wire>) {
    && |wire| <= |later| && later[..|wire|] == wire
    && forall i :: |wire| <= i < |later| ==> Neutral(later[i])
  }

  lemma {:induction false} NeutralLatches(wire: seq<Wire>, later: seq<Wire>, attached: bool, configured: bool,
                                          rejected: bool)
    requires Latched(wire, attached, configured, rejected) && NeutralAfter(wire, later)
    ensures Latched(later, attached, configured, rejected)
    decreases |later|
  {
    hide Latched;
    if |wire| == |later| {
      assert later == wire;
    } else {
      var n := |later| - 1;
      assert later[..n][..|wire|] == wire;
      NeutralLatches(wire, later[..n], attached, configured, rejected);
      assert Neutral(later[n]);
      MessageLatches(later[..n], attached, configured, rejected, later[n]);
      assert later == later[..n] + [later[n]];
    }
  }

  lemma {:induction false} NeutralChain(a: seq<Wire>, b: seq<Wire>, w: Wire)
    requires NeutralAfter(a, b) && Neutral(w)
    ensures NeutralAfter(a, b + [w])
  {
    assert (b + [w])[..|a|] == b[..|a|];
  }

  lemma {:induction false} RemoveAllNeutral(sv: Server, ids: seq<int>, replies: seq<RemoveReply>)
    requires |ids| == |replies|
    ensures NeutralAfter(sv.wire, RemoveAll(sv, ids, replies).wire)
  {
    hide NeutralAfter;
    if ids == [] {
      NeutralStart(sv.wire);
    } else {
      var n := |ids| - 1;
      RemoveAllNeutral(sv, ids[..n], replies[..n]);
      NeutralChain(sv.wire, RemoveAll(sv, ids[..n], replies[..n]).wire, Sent(RemoveBreakpoint(ids[n])));
    }
  }

  lemma {:induction false} NeutralStart(wire: seq<Wire>)
    ensures NeutralAfter(wire, wire)
  {
    assert wire[..|wire|] == wire;
  }

  lemma {:induction false} AddLineNeutral(start: seq<Wire>, w: Work, file: string, source: SourceLine, objectType: int,
                                          objectNumber: int, lineShift: int, reply: AddReply)
    requires NeutralAfter(start, w.server.wire)
    ensures NeutralAfter(start, AddLine(w, file, source, objectType, objectNumber, lineShift, reply).server.wire)
  {
    hide NeutralAfter, ServerLine, MakeInfo, ObjectMatches;
    var condition := if source.condition.Some? then source.condition.value else "";
    var add := Sent(AddBreakpoint(Position(objectType, objectNumber, ServerLine(source.line, lineShift)), condition));
    NeutralChain(start, w.server.wire, add);
    if reply.Definition? {
      NeutralChain(start, w.server.wire + [add], Sent(RemoveBreakpoint(reply.id)));
    }
  }

  lemma {:induction false} AddLinesNeutral(w: Work, file: string, lines: seq<SourceLine>, objectType: int,
                                           objectNumber: int, lineShift: int, replies: seq<AddReply>)
    requires |lines| == |replies|
    ensures NeutralAfter(w.server.wire,
                         AddLines(w, file, lines, objectType, objectNumber, lineShift, replies).server.wire)
  {
    hide NeutralAfter, AddLine;
    if lines == [] {
      NeutralStart(w.server.wire);
    } else {
      var n := |lines| - 1;
      var w1 := AddLines(w, file, lines[..n], objectType, objectNumber, lineShift, replies[..n]);
      AddLinesNeutral(w, file, lines[..n], objectType, objectNumber, lineShift, replies[..n]);
      AddLineNeutral(w.server.wire, w1, file, lines[n], objectType, objectNumber, lineShift, replies[n]);
    }
  }

  lemma {:induction false} SetBreakpointsLatch(s: State, c: Command)
    requires LatchOf(s) && c.CmdSetBreakpoints? && Answered(s, c)
    ensures LatchOf(Do(s, c))
  {
    hide AddLines, RemoveAll, Latched, NeutralAfter, Disarm;
    var f := ForgetFile(s, c.file, c.removals);
    RemoveAllNeutral(s.server, OldIds(s, c.file), c.removals);
    if c.file in s.breakpoints {
      NeutralLatches(s.server.wire, f.server.wire, s.attached, s.configured, s.configureError.Some?);
    }
    AddLinesNeutral(Work(f.server, f.armed, [], []), c.file, c.lines, c.objectType, c.objectNumber, c.lineShift,
                    c.replies);
    NeutralLatches(f.server.wire, Do(s, c).server.wire, s.attached, s.configured, s.configureError.Some?);
  }

  lemma {:induction false} EventOnWire(s: State, e: Event, seqNo: nat)
    ensures var t := HandleEvent(s, e, seqNo);
            && t.server.wire == s.server.wire + [Received(e)]
            && t.attached == (if e == Attached then true else if e == Detached then false else s.attached)
            && t.configured == s.configured && t.configureError == s.configureError
  {
  }

  lemma {:induction false} EventsLatch(s: State, events: seq<Event>, seqNo: nat)
    requires LatchOf(s)
    ensures LatchOf(HandleEvents(s, events, seqNo).0)
    ensures HandleEvents(s, events, seqNo).0.configureError == s.configureError
  {
    hide Latched, SeqAfter, HandleEvent;
    if events != [] {
      var n := |events| - 1;
      EventsLatch(s, events[..n], seqNo);
      var (before, next) := HandleEvents(s, events[..n], seqNo);
      EventOnWire(before, events[n], next);
      MessageLatches(before.server.wire, before.attached, before.configured, before.configureError.Some?,
                     Received(events[n]));
    }
  }

  lemma {:induction false} ConfigureLatches(s: State, reply: ConfigReply)
    requires LatchOf(s)
    ensures LatchOf(Configure(s, reply))
  {
    hide Latched;
    if !(s.configured || s.configureError.Some? || !s.attached) {
      MessageLatches(s.server.wire, s.attached, s.configured, s.configureError.Some?,
                     Sent(ConfigurationDone(reply.Accepted?)));
    }
  }

  lemma {:induction false} DrainLatches(s: State, events: seq<Event>, config: ConfigReply)
    requires LatchOf(s)
    ensures LatchOf(Drain(s, events, config).0)
    ensures s.configureError.Some? ==> Drain(s, events, config).1 == s.configureError
  {
    hide LatchOf, HandleEvents, NextSeq;
    EventsLatch(s, events, NextSeq(s.history));
    ConfigureLatches(HandleEvents(s, events, NextSeq(s.history)).0, config);
  }

  lemma {:induction false} SendLatches(s: State, request: Request)
    requires LatchOf(s) && !request.ConfigurationDone?
    requires request.SetBreakpointResponse? ==> s.configureError.None?
    ensures LatchOf(SendTo(s, request))
  {
    hide Latched;
    MessageLatches(s.server.wire, s.attached, s.configured, s.configureError.Some?, Sent(request));
  }

  lemma {:induction false} DoLatches(s: State, c: Command)
    requires LatchOf(s) && Answered(s, c)
    ensures LatchOf(Do(s, c))
  {
    hide Latched, SetBreakpoints, Drain, FillBack;
    match c
    case CmdSetBreakpoints(_, _, _, _, _, _, _) => SetBreakpointsLatch(s, c);
    case CmdState(events, config, _) =>
      DrainLatches(s, events, config);
      SendLatches(Drain(s, events, config).0, Inspect);
    case CmdStack(events, config) => DrainLatches(s, events, config);
    case CmdQuery(events, config) =>
      DrainLatches(s, events, config);
      SendLatches(Drain(s, events, config).0, Inspect);
    case CmdResume(exitReason, events, config, _) =>
      DrainLatches(s, events, config);
      DrainReportsError(s, events, config);
      if Drain(s, events, config).1.None? {
        SendLatches(Drain(s, events, config).0, SetBreakpointResponse(exitReason));
      }
    case CmdEval => SendLatches(s, Inspect);
    case CmdStop => SendLatches(s, StopDebugging);
  }

  lemma {:induction false} DrainReportsError(s: State, events: seq<Event>, config: ConfigReply)
    ensures Drain(s, events, config).1 == Drain(s, events, config).0.configureError
  {
  }

  /** In every run `configurationDone` is sent at most once, only while attached, the two flags
      never hold together, and nothing resumes execution after a rejection. */
  lemma {:induction false} RunLatches(commands: seq<Command>)
    requires Run(commands).Some?
    ensures LatchOf(Run(commands).value)
  {
    hide LatchOf, Do, Answered;
    if commands == [] {
      StartLatched();
    } else {
      var n := |commands| - 1;
      RunLatches(commands[..n]);
      DoLatches(Run(commands[..n]).value, commands[n]);
    }
  }

  lemma {:induction false} StartLatched()
    ensures LatchOf(START)
  {
  }

  /** Once rejected, every draining command reports the same error, and the rejection stays. */
  lemma {:induction false} RejectionIsFinal(s: State, events: seq<Event>, config: ConfigReply,
                                            variables: Option<seq<Variable>>, exitReason: int, accepted: bool)
    requires LatchOf(s) && s.configureError.Some?
    ensures Drain(s, events, config).1 == s.configureError
    ensures GetState(s, events, config, variables).1 == s.configureError
    ensures Query(s, events, config).1 == s.configureError
    ensures Resume(s, exitReason, events, config, accepted).1 == s.configureError
    ensures Drain(s, events, config).0.configureError == s.configureError
    ensures GetState(s, events, config, variables).0 == Drain(s, events, config).0
    ensures Resume(s, exitReason, events, config, accepted).0 == Drain(s, events, config).0
  {
    hide LatchOf, Drain, SendTo, FillBack;
    DrainLatches(s, events, config);
    DrainReportsError(s, events, config);
  }
}
