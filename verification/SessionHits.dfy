/** What the session reports: the breakpoints it set, and the breakpoint a Break came from. */
module SessionHits {
  import opened Options
  import opened SessionModel
  import opened SessionBreakpoints

  // ----- Reports of set_breakpoints -----

  /** The reply is a breakpoint placed as asked. */
  predicate Good(reply: AddReply, objectType: int, objectNumber: int) {
    reply.Definition? && reply.id != 0 && ObjectMatches(reply.echo, objectType, objectNumber)
  }

  function GoodIds(objectType: int, objectNumber: int, replies: seq<AddReply>): seq<int> {
    if replies == [] then [] else
    var n := |replies| - 1;
    GoodIds(objectType, objectNumber, replies[..n]) +
    if Good(replies[n], objectType, objectNumber) then [replies[n].id] else []
  }

  /** The positions at which breakpoints are placed as asked. */
  ghost function GoodPositions(lines: seq<SourceLine>, objectType: int, objectNumber: int, lineShift: int,
                         replies: seq<AddReply>): set<Position>
    requires |lines| == |replies|
  {
    set i | 0 <= i < |lines| && Good(replies[i], objectType, objectNumber)
      :: Position(objectType, objectNumber, ServerLine(lines[i].line, lineShift))
  }

  /** The report for one line: its own line, verified exactly when placed as asked. */
  predicate Reports(info: BreakpointInfo, file: string, source: SourceLine, objectType: int, objectNumber: int,
                    reply: AddReply)
  {
    && info.file == file && info.line == source.line
    && (info.verified <==> Good(reply, objectType, objectNumber))
    && info.id == (if reply.Definition? then reply.id else 0)
    && info.condition == (if source.condition == Some("") then None else source.condition)
  }

  ghost predicate ReportsAll(infos: seq<BreakpointInfo>, file: string, lines: seq<SourceLine>, objectType: int,
                             objectNumber: int, replies: seq<AddReply>)
  {
    && |infos| == |lines| == |replies|
    && forall i :: 0 <= i < |lines| ==> Reports(infos[i], file, lines[i], objectType, objectNumber, replies[i])
  }

  ghost predicate AddsFrom(w: Work, w': Work, file: string, lines: seq<SourceLine>, objectType: int, objectNumber: int,
                     lineShift: int, replies: seq<AddReply>)
    requires |lines| == |replies|
  {
    && w'.ids == w.ids + GoodIds(objectType, objectNumber, replies)
    && w'.armed.Keys == w.armed.Keys + GoodPositions(lines, objectType, objectNumber, lineShift, replies)
    && |w'.infos| == |w.infos| + |lines| && w'.infos[..|w.infos|] == w.infos
    && ReportsAll(w'.infos[|w.infos|..], file, lines, objectType, objectNumber, replies)
    && w'.server.recorded == w.server.recorded
  }

  lemma {:induction false} AddLineReports(w: Work, file: string, source: SourceLine, objectType: int,
                                          objectNumber: int, lineShift: int, reply: AddReply)
    ensures var w' := AddLine(w, file, source, objectType, objectNumber, lineShift, reply);
            var position := Position(objectType, objectNumber, ServerLine(source.line, lineShift));
            && w'.ids == w.ids + (if Good(reply, objectType, objectNumber) then [reply.id] else [])
            && w'.armed.Keys == w.armed.Keys + (if Good(reply, objectType, objectNumber) then {position} else {})
            && |w'.infos| == |w.infos| + 1 && w'.infos[..|w.infos|] == w.infos
            && Reports(w'.infos[|w.infos|], file, source, objectType, objectNumber, reply)
            && w'.server.recorded == w.server.recorded
  {
    hide ObjectMatches, ServerLine;
  }

  lemma {:induction false} LastGoodPosition(lines: seq<SourceLine>, objectType: int, objectNumber: int, lineShift: int,
                                            replies: seq<AddReply>)
    requires |lines| == |replies| > 0
    ensures var n := |lines| - 1;
            GoodPositions(lines, objectType, objectNumber, lineShift, replies) ==
            GoodPositions(lines[..n], objectType, objectNumber, lineShift, replies[..n]) +
            if Good(replies[n], objectType, objectNumber)
            then {Position(objectType, objectNumber, ServerLine(lines[n].line, lineShift))} else {}
  {
    hide Good, ServerLine;
    var n := |lines| - 1;
    var all := GoodPositions(lines, objectType, objectNumber, lineShift, replies);
    var earlier := GoodPositions(lines[..n], objectType, objectNumber, lineShift, replies[..n]);
    forall p | p in earlier ensures p in all {
      var i :| 0 <= i < n && Good(replies[..n][i], objectType, objectNumber)
               && p == Position(objectType, objectNumber, ServerLine(lines[..n][i].line, lineShift));
      assert replies[i] == replies[..n][i] && lines[i] == lines[..n][i];
    }
    forall p | p in all
      ensures p in earlier || (Good(replies[n], objectType, objectNumber) &&
                               p == Position(objectType, objectNumber, ServerLine(lines[n].line, lineShift)))
    {
      var i :| 0 <= i <= n && Good(replies[i], objectType, objectNumber)
               && p == Position(objectType, objectNumber, ServerLine(lines[i].line, lineShift));
      if i < n {
        assert replies[i] == replies[..n][i] && lines[i] == lines[..n][i];
      }
    }
  }

  lemma {:induction false} AddLinesReport(w: Work, file: string, lines: seq<SourceLine>, objectType: int,
                                          objectNumber: int, lineShift: int, replies: seq<AddReply>)
    requires |lines| == |replies|
    ensures AddsFrom(w, AddLines(w, file, lines, objectType, objectNumber, lineShift, replies),
                     file, lines, objectType, objectNumber, lineShift, replies)
  {
    hide AddLine, Good, Reports, ReportsAll, GoodPositions, ServerLine;
    if lines == [] {
      NothingAdded(w, file, lines, objectType, objectNumber, lineShift, replies);
    } else {
      var n := |lines| - 1;
      var w1 := AddLines(w, file, lines[..n], objectType, objectNumber, lineShift, replies[..n]);
      AddLinesReport(w, file, lines[..n], objectType, objectNumber, lineShift, replies[..n]);
      AddLineReports(w1, file, lines[n], objectType, objectNumber, lineShift, replies[n]);
      LastGoodPosition(lines, objectType, objectNumber, lineShift, replies);
      var w2 := AddLine(w1, file, lines[n], objectType, objectNumber, lineShift, replies[n]);
      assert w2.infos[..|w.infos|] == w2.infos[..|w1.infos|][..|w.infos|];
      assert w2.infos[|w.infos|..][..n] == w2.infos[..|w1.infos|][|w.infos|..];
      ReportsExtend(w1.infos[|w.infos|..], w2.infos[|w.infos|..], file, lines, objectType, objectNumber, replies);
    }
  }

  lemma {:induction false} NothingAdded(w: Work, file: string, lines: seq<SourceLine>, objectType: int,
                                        objectNumber: int, lineShift: int, replies: seq<AddReply>)
    requires lines == [] && replies == []
    ensures AddsFrom(w, w, file, lines, objectType, objectNumber, lineShift, replies)
  {
    assert w.infos[|w.infos|..] == [];
  }

  lemma {:induction false} ReportsExtend(infos: seq<BreakpointInfo>, more: seq<BreakpointInfo>, file: string,
                                         lines: seq<SourceLine>, objectType: int, objectNumber: int,
                                         replies: seq<AddReply>)
    requires |lines| == |replies| == |more| > 0 && more[..|lines| - 1] == infos
    requires ReportsAll(infos, file, lines[..|lines| - 1], objectType, objectNumber, replies[..|lines| - 1])
    requires Reports(more[|lines| - 1], file, lines[|lines| - 1], objectType, objectNumber, replies[|lines| - 1])
    ensures ReportsAll(more, file, lines, objectType, objectNumber, replies)
  {
    hide Reports;
    var n := |lines| - 1;
    forall i | 0 <= i < |lines|
      ensures Reports(more[i], file, lines[i], objectType, objectNumber, replies[i])
    {
      if i < n {
        assert lines[i] == lines[..n][i] && replies[i] == replies[..n][i] && more[i] == infos[i];
      }
    }
  }

  /** `set_breakpoints` reports every line in order, a line is verified exactly when the server
      placed it as asked, and the ids tracked for the file are exactly the verified ones. Other
      files keep theirs. */
  lemma {:induction false} SetBreakpointsReports(s: State, file: string, lines: seq<SourceLine>, objectType: int,
                                                 objectNumber: int, lineShift: int, removals: seq<RemoveReply>,
                                                 replies: seq<AddReply>)
    requires |removals| == |OldIds(s, file)| && |lines| == |replies|
    ensures var (s', infos) := SetBreakpoints(s, file, lines, objectType, objectNumber, lineShift, removals, replies);
            && ReportsAll(infos, file, lines, objectType, objectNumber, replies)
            && OldIds(s', file) == GoodIds(objectType, objectNumber, replies)
            && (file in s'.breakpoints <==> GoodIds(objectType, objectNumber, replies) != [])
            && s'.breakpoints - {file} == s.breakpoints - {file}
            && s'.armed.Keys == Disarm(s.armed, OldIds(s, file)).Keys
                                + GoodPositions(lines, objectType, objectNumber, lineShift, replies)
            && s'.server.recorded == s.server.recorded
  {
    hide Reports, ReportsAll, GoodIds, GoodPositions, AddLines, RemoveAll;
    var f := ForgetFile(s, file, removals);
    RemoveKeepsRecorded(s.server, OldIds(s, file), removals);
    assert Disarm(s.armed, OldIds(s, file)) == f.armed;
    AddLinesReport(Work(f.server, f.armed, [], []), file, lines, objectType, objectNumber, lineShift, replies);
  }

  // ----- Hits -----

  /** The hit of a recorded Break names a breakpoint that was placed at exactly the object and
      line the Break reported, or none. */
  ghost predicate NamesPlaced(sv: Server, e: Entry) {
    e.hit.breakpointId != 0 ==>
      && e.at.Some?
      && e.hit.breakpointId in sv.placed && sv.placed[e.hit.breakpointId] == e.at
      && e.hit.location.line == ToClient(e.at.value.line)
  }

  ghost predicate AllNamesPlaced(s: State) {
    forall i :: 0 <= i < |s.server.recorded| ==> NamesPlaced(s.server, s.server.recorded[i])
  }

  /** A Break is recorded with the id armed at its position; the id is tracked at that moment. */
  lemma {:induction false} BreakNamesTracked(s: State, e: Event, seqNo: nat)
    requires Conserved(s) && e.Break?
    ensures var entry := Entry(MakeHit(s.armed, e, seqNo), ReportedPosition(e.location));
            && HandleEvent(s, e, seqNo).server.recorded == s.server.recorded + [entry]
            && NamesPlaced(s.server, entry)
            && (entry.hit.breakpointId != 0 ==> entry.hit.breakpointId in Tracked(s.breakpoints))
            && (entry.hit.breakpointId == 0 <==> entry.at.None? || entry.at.value !in s.armed)
  {
    hide Tracked, PushCapped, ToClient;
  }

  lemma {:induction false} EventNames(s: State, e: Event, seqNo: nat)
    requires Conserved(s) && AllNamesPlaced(s)
    ensures AllNamesPlaced(HandleEvent(s, e, seqNo))
  {
    hide Conserved, MakeHit, ReportedPosition, PushCapped;
    if e.Break? {
      BreakNamesTracked(s, e, seqNo);
    }
  }

  lemma {:induction false} SameConserved(s: State, s': State)
    requires Conserved(s) && SameBreakpoints(s, s')
    ensures Conserved(s')
  {
  }

  lemma {:induction false} EventsName(s: State, events: seq<Event>, seqNo: nat)
    requires Conserved(s) && AllNamesPlaced(s)
    ensures AllNamesPlaced(HandleEvents(s, events, seqNo).0)
  {
    hide Conserved, AllNamesPlaced, HandleEvent, SeqAfter;
    if events != [] {
      var n := |events| - 1;
      var before := HandleEvents(s, events[..n], seqNo);
      EventsName(s, events[..n], seqNo);
      EventsKeepBreakpoints(s, events[..n], seqNo);
      SameConserved(s, before.0);
      EventNames(before.0, events[n], before.1);
    }
  }

  lemma {:induction false} DrainNames(s: State, events: seq<Event>, config: ConfigReply)
    requires Conserved(s) && AllNamesPlaced(s)
    ensures AllNamesPlaced(Drain(s, events, config).0)
  {
    hide Conserved, HandleEvents, NextSeq;
    EventsName(s, events, NextSeq(s.history));
  }

  lemma {:induction false} SetBreakpointsKeepsPlaced(s: State, c: Command)
    requires Conserved(s) && Answered(s, c) && c.CmdSetBreakpoints?
    ensures forall id :: id in s.server.placed ==>
              id in Do(s, c).server.placed && Do(s, c).server.placed[id] == s.server.placed[id]
    ensures Do(s, c).server.recorded == s.server.recorded
  {
    hide AddLines, FreshIds, Agrees, Disjoint, ForgetFile, Reports, GoodIds, GoodPositions;
    var f := ForgetFile(s, c.file, c.removals);
    ForgetConserves(s, c.file, c.removals);
    var rest := Tracked(f.breakpoints);
    var w := Work(f.server, f.armed, [], []);
    assert rest + Elements(w.ids) == rest;
    assert FreshIds(w.server, c.replies) by { SameFresh(s.server, w.server, c.replies); }
    AddLinesAgrees(rest, w, c.file, c.lines, c.objectType, c.objectNumber, c.lineShift, c.replies);
    SetBreakpointsReports(s, c.file, c.lines, c.objectType, c.objectNumber, c.lineShift, c.removals, c.replies);
  }

  lemma {:induction false} SameFresh(sv: Server, sv': Server, replies: seq<AddReply>)
    requires FreshIds(sv, replies) && sv'.placed == sv.placed
    ensures FreshIds(sv', replies)
  {
  }

  lemma {:induction false} DoNames(s: State, c: Command)
    requires Conserved(s) && AllNamesPlaced(s) && Answered(s, c)
    ensures AllNamesPlaced(Do(s, c))
  {
    hide Conserved, SetBreakpoints, Drain, FillBack;
    if c.CmdSetBreakpoints? {
      SetBreakpointsKeepsPlaced(s, c);
    } else if c.CmdState? || c.CmdStack? || c.CmdQuery? || c.CmdResume? {
      DrainNames(s, c.events, c.config);
    }
  }

  /** In every run each recorded hit with a non-zero id names a breakpoint that was placed at
      exactly the object and line of the Break. */
  lemma {:induction false} RunNames(commands: seq<Command>)
    requires Run(commands).Some?
    ensures AllNamesPlaced(Run(commands).value)
  {
    hide Conserved, AllNamesPlaced, Do, Answered;
    if commands == [] {
      assert AllNamesPlaced(START) by { NothingRecorded(); }
    } else {
      var n := |commands| - 1;
      RunConserves(commands[..n]);
      RunNames(commands[..n]);
      DoNames(Run(commands[..n]).value, commands[n]);
    }
  }

  lemma {:induction false} NothingRecorded()
    ensures AllNamesPlaced(START)
  {
  }

  // ----- Every tracked position is armed -----

  /** Every tracked breakpoint's position is armed, so that a Break there names a breakpoint,
      though not necessarily that one. */
  ghost predicate Complete(s: State) {
    forall f, id :: f in s.breakpoints && id in s.breakpoints[f] ==> ArmedAt(s, id)
  }

  predicate ArmedAt(s: State, id: int) {
    id in s.server.placed && s.server.placed[id].Some? && s.server.placed[id].value in s.armed
  }

  /** Breakpoint `id` of another file is placed at a position whose armed entry belongs to the
      file being set, and the call does not place that position again. */
  predicate Loses(s: State, c: Command, id: int)
    requires c.CmdSetBreakpoints? && Answered(s, c) && ArmedAt(s, id)
  {
    var p := s.server.placed[id].value;
    && s.armed[p] in OldIds(s, c.file)
    && !exists i :: 0 <= i < |c.lines| && Good(c.replies[i], c.objectType, c.objectNumber)
                    && p == Position(c.objectType, c.objectNumber, ServerLine(c.lines[i].line, c.lineShift))
  }

  /** The ids are placed in the object, at positions that are armed. */
  ghost predicate IdsArmed(w: Work, ids: set<int>, objectType: int, objectNumber: int) {
    forall id :: id in ids ==>
                   && id in w.server.placed && w.server.placed[id].Some? && w.server.placed[id].value in w.armed
                   && w.server.placed[id].value.objectType == objectType
                   && w.server.placed[id].value.objectNumber == objectNumber
  }

  lemma {:induction false} AddLineArms(w: Work, file: string, source: SourceLine, objectType: int,
                                       objectNumber: int, lineShift: int, reply: AddReply)
    requires IdsArmed(w, Elements(w.ids), objectType, objectNumber)
    requires IdOf(reply).Some? ==> IdOf(reply).value !in w.server.placed
    ensures var w' := AddLine(w, file, source, objectType, objectNumber, lineShift, reply);
            IdsArmed(w', Elements(w'.ids), objectType, objectNumber)
  {
    hide ServerLine, MakeInfo;
  }

  lemma {:induction false} AddLinesArm(rest: set<int>, w: Work, file: string, lines: seq<SourceLine>, objectType: int,
                                       objectNumber: int, lineShift: int, replies: seq<AddReply>)
    requires |lines| == |replies| && FreshIds(w.server, replies)
    requires Agrees(rest + Elements(w.ids), w.armed, w.server) && IdsArmed(w, Elements(w.ids), objectType, objectNumber)
    ensures var w' := AddLines(w, file, lines, objectType, objectNumber, lineShift, replies);
            IdsArmed(w', Elements(w'.ids), objectType, objectNumber)
  {
    hide Agrees, IdsArmed, AddLine, Elements, HandedOut, FreshIds, IdOf;
    if lines != [] {
      var n := |lines| - 1;
      FreshPrefix(w.server, replies);
      AddLinesArm(rest, w, file, lines[..n], objectType, objectNumber, lineShift, replies[..n]);
      AddLinesAgrees(rest, w, file, lines[..n], objectType, objectNumber, lineShift, replies[..n]);
      var w1 := AddLines(w, file, lines[..n], objectType, objectNumber, lineShift, replies[..n]);
      AddLineArms(w1, file, lines[n], objectType, objectNumber, lineShift, replies[n]);
    }
  }

  /** The breakpoints that a call sets are all armed after it. */
  lemma {:induction false} NewIdsArmed(s: State, c: Command, id: int)
    requires Conserved(s) && c.CmdSetBreakpoints? && Answered(s, c) && id in OldIds(Do(s, c), c.file)
    ensures ArmedAt(Do(s, c), id)
    ensures var p := Do(s, c).server.placed[id].value; p.objectType == c.objectType && p.objectNumber == c.objectNumber
  {
    hide AddLines, FreshIds, Agrees, Disjoint, ForgetFile;
    var f := ForgetFile(s, c.file, c.removals);
    ForgetConserves(s, c.file, c.removals);
    var rest := Tracked(f.breakpoints);
    var w := Work(f.server, f.armed, [], []);
    assert rest + Elements(w.ids) == rest;
    SameFresh(s.server, w.server, c.replies);
    AddLinesArm(rest, w, c.file, c.lines, c.objectType, c.objectNumber, c.lineShift, c.replies);
  }

  /** What a call does to the armed position of a breakpoint of another file. */
  lemma {:induction false} OtherFileArmed(s: State, c: Command, id: int)
    requires Conserved(s) && c.CmdSetBreakpoints? && Answered(s, c) && ArmedAt(s, id)
    ensures ArmedAt(Do(s, c), id) <==> !Loses(s, c, id)
  {
    hide SetBreakpoints, Reports, GoodIds, Good, ServerLine, Conserved;
    SetBreakpointsKeepsPlaced(s, c);
    SetBreakpointsReports(s, c.file, c.lines, c.objectType, c.objectNumber, c.lineShift, c.removals, c.replies);
  }

  /** Setting breakpoints keeps every tracked breakpoint's position armed exactly when none of
      another file's breakpoints shares an armed entry that the call takes away. */
  lemma {:induction false} SetBreakpointsComplete(s: State, c: Command)
    requires Conserved(s) && Complete(s) && c.CmdSetBreakpoints? && Answered(s, c)
    ensures Complete(Do(s, c)) <==>
            forall g, id :: g in s.breakpoints && g != c.file && id in s.breakpoints[g] ==> !Loses(s, c, id)
  {
    hide SetBreakpoints, ReportsAll, GoodIds, GoodPositions, Good, ServerLine, Conserved, ArmedAt, Loses, Disarm;
    var s' := Do(s, c);
    SetBreakpointsReports(s, c.file, c.lines, c.objectType, c.objectNumber, c.lineShift, c.removals, c.replies);
    forall g | g != c.file
      ensures g in s'.breakpoints <==> g in s.breakpoints
      ensures g in s.breakpoints ==> s'.breakpoints[g] == s.breakpoints[g]
    {
      assert g in s'.breakpoints <==> g in s'.breakpoints - {c.file};
      assert g in s.breakpoints <==> g in s.breakpoints - {c.file};
      assert g in s.breakpoints ==> (s'.breakpoints - {c.file})[g] == (s.breakpoints - {c.file})[g];
    }
    forall id | ArmedAt(s, id) ensures ArmedAt(s', id) <==> !Loses(s, c, id) {
      OtherFileArmed(s, c, id);
    }
    forall id | id in OldIds(s', c.file) ensures ArmedAt(s', id) {
      NewIdsArmed(s, c, id);
    }
  }

  /** Every breakpoint belongs to the file that owns its object. */
  ghost predicate Owned(s: State, owner: (int, int) -> string) {
    forall f, id :: f in s.breakpoints && id in s.breakpoints[f] ==> OwnedBy(s, owner, f, id)
  }

  predicate OwnedBy(s: State, owner: (int, int) -> string, f: string, id: int) {
    id in s.server.placed && s.server.placed[id].Some? &&
    owner(s.server.placed[id].value.objectType, s.server.placed[id].value.objectNumber) == f
  }

  /** Breakpoints of an object are only ever set under the one file name that owns it. */
  predicate SetsOwn(c: Command, owner: (int, int) -> string) {
    c.CmdSetBreakpoints? ==> owner(c.objectType, c.objectNumber) == c.file
  }

  lemma {:induction false} OthersNotLost(s: State, c: Command, owner: (int, int) -> string, g: string, id: int)
    requires Conserved(s) && Owned(s, owner) && c.CmdSetBreakpoints? && Answered(s, c) && SetsOwn(c, owner)
    requires g in s.breakpoints && g != c.file && id in s.breakpoints[g] && ArmedAt(s, id)
    ensures !Loses(s, c, id)
  {
    hide Tracked, Disjoint, Good, ServerLine;
    var p := s.server.placed[id].value;
    assert OwnedBy(s, owner, g, id);
    assert s.server.placed[s.armed[p]] == Some(p);
    assert s.armed[p] in OldIds(s, c.file) ==> OwnedBy(s, owner, c.file, s.armed[p]);
  }

  lemma {:induction false} DoOwned(s: State, c: Command, owner: (int, int) -> string)
    requires Conserved(s) && Owned(s, owner) && Answered(s, c) && SetsOwn(c, owner)
    ensures Owned(Do(s, c), owner)
  {
    hide Conserved, SetBreakpoints, Drain, FillBack, ReportsAll, GoodIds, GoodPositions;
    var s' := Do(s, c);
    if c.CmdSetBreakpoints? {
      SetBreakpointsKeepsPlaced(s, c);
      SetBreakpointsReports(s, c.file, c.lines, c.objectType, c.objectNumber, c.lineShift, c.removals, c.replies);
      forall f, id | f in s'.breakpoints && id in s'.breakpoints[f] ensures OwnedBy(s', owner, f, id) {
        if f == c.file {
          NewIdsArmed(s, c, id);
        } else {
          assert f in s'.breakpoints - {c.file} && (s'.breakpoints - {c.file})[f] == s'.breakpoints[f];
          assert OwnedBy(s, owner, f, id);
        }
      }
    } else {
      OtherCommandsKeepBreakpoints(s, c);
      assert forall f, id :: OwnedBy(s, owner, f, id) ==> OwnedBy(s', owner, f, id);
    }
  }

  lemma {:induction false} DoComplete(s: State, c: Command, owner: (int, int) -> string)
    requires Conserved(s) && Owned(s, owner) && Complete(s) && Answered(s, c) && SetsOwn(c, owner)
    ensures Complete(Do(s, c))
  {
    hide Conserved, SetBreakpoints, Drain, FillBack, Owned, Loses;
    if c.CmdSetBreakpoints? {
      forall g, id | g in s.breakpoints && g != c.file && id in s.breakpoints[g] ensures !Loses(s, c, id) {
        assert ArmedAt(s, id);
        OthersNotLost(s, c, owner, g, id);
      }
      SetBreakpointsComplete(s, c);
    } else {
      OtherCommandsKeepBreakpoints(s, c);
      assert forall id :: ArmedAt(s, id) ==> ArmedAt(Do(s, c), id);
    }
  }

  /** When every object has its breakpoints set under one file name only, then after every run
      the position of each tracked breakpoint is armed. */
  lemma {:induction false} RunComplete(commands: seq<Command>, owner: (int, int) -> string)
    requires Run(commands).Some?
    requires forall i :: 0 <= i < |commands| ==> SetsOwn(commands[i], owner)
    ensures Owned(Run(commands).value, owner)
    ensures Complete(Run(commands).value)
  {
    hide Conserved, Owned, Complete, Do, Answered, SetsOwn;
    if commands == [] {
      NothingTracked(owner);
    } else {
      var n := |commands| - 1;
      RunConserves(commands[..n]);
      RunComplete(commands[..n], owner);
      DoOwned(Run(commands[..n]).value, commands[n], owner);
      DoComplete(Run(commands[..n]).value, commands[n], owner);
    }
  }

  lemma {:induction false} NothingTracked(owner: (int, int) -> string)
    ensures Owned(START, owner) && Complete(START)
  {
  }
}
