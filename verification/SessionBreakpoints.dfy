/** Breakpoint conservation over every run of the debug session. */
module SessionBreakpoints {
  import opened Options
  import opened SessionModel

  function Elements(ids: seq<int>): set<int> {
    set id | id in ids
  }

  function Tracked(breakpoints: map<string, seq<int>>): set<int> {
    set file, id | file in breakpoints && id in breakpoints[file] :: id
  }

  /** What the session knows about the breakpoints in the set `tracked` agrees with the server:
      they are live and placed where the client asked, every other live id is one that could not
      be removed or whose addition failed, and `armed` maps positions to tracked ids placed there. */
  ghost predicate Agrees(tracked: set<int>, armed: map<Position, int>, sv: Server) {
    && tracked <= sv.live
    && 0 !in tracked
    && (forall id :: id in tracked ==> id in sv.placed && sv.placed[id].Some?)
    && sv.live <= tracked + sv.unremoved + sv.orphans
    && tracked !! sv.unremoved && tracked !! sv.orphans
    && sv.live <= sv.placed.Keys && sv.unremoved <= sv.placed.Keys && sv.orphans <= sv.placed.Keys
    && (forall p :: p in armed ==> armed[p] in tracked && sv.placed[armed[p]] == Some(p))
  }

  ghost predicate Disjoint(breakpoints: map<string, seq<int>>) {
    && (forall f, g :: f in breakpoints && g in breakpoints && f != g ==>
                         Elements(breakpoints[f]) !! Elements(breakpoints[g]))
    && (forall f :: f in breakpoints ==> breakpoints[f] != [])
  }

  /** The breakpoint invariant. */
  ghost predicate Conserved(s: State) {
    Agrees(Tracked(s.breakpoints), s.armed, s.server) && Disjoint(s.breakpoints)
  }

  // ----- Removing -----

  lemma {:induction false} RemoveOneAgrees(tracked: set<int>, armed: map<Position, int>, sv: Server, id: int,
                                           reply: RemoveReply)
    requires Agrees(tracked, armed, sv) && id in sv.placed
    requires forall p :: p in armed ==> armed[p] != id
    ensures Agrees(tracked - {id}, armed, RemoveOne(sv, id, reply))
  {
  }

  lemma {:induction false} RemoveAllAgrees(tracked: set<int>, armed: map<Position, int>, sv: Server, ids: seq<int>,
                                           replies: seq<RemoveReply>)
    requires |ids| == |replies| && Agrees(tracked, armed, sv)
    requires forall id :: id in ids ==> id in sv.placed
    requires forall p :: p in armed ==> armed[p] !in ids
    ensures Agrees(tracked - Elements(ids), armed, RemoveAll(sv, ids, replies))
    ensures RemoveAll(sv, ids, replies).placed == sv.placed
  {
    if ids == [] {
      assert tracked - Elements(ids) == tracked;
    } else {
      var n := |ids| - 1;
      assert ids[n] in ids;
      RemoveAllAgrees(tracked, armed, sv, ids[..n], replies[..n]);
      RemoveOneAgrees(tracked - Elements(ids[..n]), armed, RemoveAll(sv, ids[..n], replies[..n]), ids[n], replies[n]);
      assert tracked - Elements(ids) == tracked - Elements(ids[..n]) - {ids[n]} by {
        LastElement(ids);
      }
    }
  }

  lemma {:induction false} LastElement(ids: seq<int>)
    requires ids != []
    ensures Elements(ids) == Elements(ids[..|ids| - 1]) + {ids[|ids| - 1]}
  {
    assert ids == ids[..|ids| - 1] + [ids[|ids| - 1]];
  }

  lemma {:induction false} AppendElement(ids: seq<int>, id: int)
    ensures Elements(ids + [id]) == Elements(ids) + {id}
  {
  }

  lemma {:induction false} TrackedWithout(breakpoints: map<string, seq<int>>, file: string)
    requires file in breakpoints && Disjoint(breakpoints)
    ensures Tracked(breakpoints - {file}) == Tracked(breakpoints) - Elements(breakpoints[file])
    ensures Disjoint(breakpoints - {file})
  {
    var rest := breakpoints - {file};
    forall id | id in Tracked(rest) ensures id in Tracked(breakpoints) && id !in Elements(breakpoints[file]) {
      var f :| f in rest && id in rest[f];
      assert id in Elements(breakpoints[f]);
    }
    forall id | id in Tracked(breakpoints) && id !in Elements(breakpoints[file]) ensures id in Tracked(rest) {
      var f :| f in breakpoints && id in breakpoints[f];
      assert f != file;
      assert f in rest && rest[f] == breakpoints[f];
    }
  }

  lemma {:induction false} TrackedWith(breakpoints: map<string, seq<int>>, file: string, ids: seq<int>)
    requires file !in breakpoints
    ensures Tracked(breakpoints[file := ids]) == Tracked(breakpoints) + Elements(ids)
  {
    var more := breakpoints[file := ids];
    forall id | id in Tracked(breakpoints) ensures id in Tracked(more) {
      var f :| f in breakpoints && id in breakpoints[f];
      assert f in more && more[f] == breakpoints[f];
    }
    forall id | id in Elements(ids) ensures id in Tracked(more) {
      assert file in more && more[file] == ids;
    }
  }

  lemma {:induction false} DisarmKeepsAgreement(tracked: set<int>, armed: map<Position, int>, sv: Server, ids: seq<int>)
    requires Agrees(tracked, armed, sv)
    ensures Agrees(tracked, Disarm(armed, ids), sv)
  {
  }

  lemma {:induction false} ForgetConserves(s: State, file: string, removals: seq<RemoveReply>)
    requires Conserved(s) && |removals| == |OldIds(s, file)|
    ensures Conserved(ForgetFile(s, file, removals))
    ensures file !in ForgetFile(s, file, removals).breakpoints
    ensures ForgetFile(s, file, removals).server.placed == s.server.placed
  {
    hide Agrees, Disjoint;
    if file in s.breakpoints {
      var ids := s.breakpoints[file];
      var armed := Disarm(s.armed, ids);
      DisarmKeepsAgreement(Tracked(s.breakpoints), s.armed, s.server, ids);
      assert forall id :: id in ids ==> id in s.server.placed by {
        TrackedPlaced(s, file);
      }
      RemoveAllAgrees(Tracked(s.breakpoints), armed, s.server, ids, removals);
      TrackedWithout(s.breakpoints, file);
    }
  }

  lemma {:induction false} TrackedPlaced(s: State, file: string)
    requires Conserved(s) && file in s.breakpoints
    ensures forall id :: id in s.breakpoints[file] ==>
              id in Tracked(s.breakpoints) && id in s.server.placed && s.server.placed[id].Some?
  {
    forall id | id in s.breakpoints[file] ensures id in Tracked(s.breakpoints) {
    }
  }

  // ----- Adding -----

  /** The ids handed out by the replies. */
  function HandedOut(replies: seq<AddReply>): set<int> {
    set reply | reply in replies && IdOf(reply).Some? :: IdOf(reply).value
  }

  /** A breakpoint placed as asked joins the tracked ids. */
  lemma {:induction false} PlacedAgrees(tracked: set<int>, armed: map<Position, int>, sv: Server, position: Position,
                                        condition: string, reply: AddReply)
    requires Agrees(tracked, armed, sv) && reply.Definition? && reply.id != 0 && reply.id !in sv.placed
    requires ObjectMatches(reply.echo, position.objectType, position.objectNumber)
    ensures Agrees(tracked + {reply.id}, armed[position := reply.id], PlaceOne(sv, position, condition, reply))
  {
    hide ObjectMatches;
  }

  /** A breakpoint placed elsewhere is removed again; whether or not that succeeds, it is not tracked. */
  lemma {:induction false} UndoAgrees(tracked: set<int>, armed: map<Position, int>, sv: Server, position: Position,
                                      condition: string, reply: AddReply)
    requires Agrees(tracked, armed, sv) && reply.Definition? && reply.id != 0 && reply.id !in sv.placed
    requires !ObjectMatches(reply.echo, position.objectType, position.objectNumber)
    ensures Agrees(tracked, armed, RemoveOne(PlaceOne(sv, position, condition, reply), reply.id, reply.undo))
  {
    hide ObjectMatches;
  }

  lemma {:induction false} FailedAgrees(tracked: set<int>, armed: map<Position, int>, sv: Server, position: Position,
                                        condition: string, reply: AddReply)
    requires Agrees(tracked, armed, sv) && (reply.AddFailed? || reply.id == 0)
    requires IdOf(reply).Some? ==> IdOf(reply).value !in sv.placed
    ensures Agrees(tracked, armed, PlaceOne(sv, position, condition, reply))
  {
    hide ObjectMatches;
  }

  lemma {:induction false} AddLinePlaces(w: Work, file: string, source: SourceLine, objectType: int,
                                         objectNumber: int, lineShift: int, reply: AddReply)
    requires IdOf(reply).Some? ==> IdOf(reply).value !in w.server.placed
    ensures var w' := AddLine(w, file, source, objectType, objectNumber, lineShift, reply);
            && w'.server.placed.Keys == w.server.placed.Keys + HandedOut([reply])
            && (forall id :: id in w.server.placed ==> w'.server.placed[id] == w.server.placed[id])
  {
    hide ObjectMatches, ServerLine, MakeInfo;
    assert [reply][0] == reply;
  }

  /** One added line: the id is tracked when it was placed as asked, and otherwise removed again
      or an orphan. `rest` are the ids tracked for other files. */
  lemma {:induction false} AddLineAgrees(rest: set<int>, w: Work, file: string, source: SourceLine, objectType: int,
                                         objectNumber: int, lineShift: int, reply: AddReply)
    requires Agrees(rest + Elements(w.ids), w.armed, w.server)
    requires IdOf(reply).Some? ==> IdOf(reply).value != 0 && IdOf(reply).value !in w.server.placed
    ensures var w' := AddLine(w, file, source, objectType, objectNumber, lineShift, reply);
            Agrees(rest + Elements(w'.ids), w'.armed, w'.server)
  {
    hide Agrees, ObjectMatches, ServerLine, MakeInfo, PlaceOne, RemoveOne, Elements;
    var condition := if source.condition.Some? then source.condition.value else "";
    var position := Position(objectType, objectNumber, ServerLine(source.line, lineShift));
    var tracked := rest + Elements(w.ids);
    if reply.AddFailed? || reply.id == 0 {
      FailedAgrees(tracked, w.armed, w.server, position, condition, reply);
    } else if ObjectMatches(reply.echo, objectType, objectNumber) {
      AppendElement(w.ids, reply.id);
      assert rest + Elements(w.ids + [reply.id]) == tracked + {reply.id};
      PlacedAgrees(tracked, w.armed, w.server, position, condition, reply);
    } else {
      UndoAgrees(tracked, w.armed, w.server, position, condition, reply);
    }
  }

  lemma {:induction false} FreshPrefix(sv: Server, replies: seq<AddReply>)
    requires replies != [] && FreshIds(sv, replies)
    ensures FreshIds(sv, replies[..|replies| - 1])
    ensures var last := IdOf(replies[|replies| - 1]);
            last.Some? ==> last.value != 0 && last.value !in sv.placed
                           && last.value !in HandedOut(replies[..|replies| - 1])
    ensures HandedOut(replies) == HandedOut(replies[..|replies| - 1]) + HandedOut([replies[|replies| - 1]])
  {
    var n := |replies| - 1;
    var last := IdOf(replies[n]);
    if last.Some? {
      forall reply | reply in replies[..n] && IdOf(reply).Some? ensures IdOf(reply) != last {
        var i :| 0 <= i < n && replies[i] == reply;
      }
    }
    assert replies == replies[..n] + [replies[n]];
  }

  lemma {:induction false} AddLinesAgrees(rest: set<int>, w: Work, file: string, lines: seq<SourceLine>,
                                          objectType: int, objectNumber: int, lineShift: int, replies: seq<AddReply>)
    requires |lines| == |replies| && FreshIds(w.server, replies)
    requires Agrees(rest + Elements(w.ids), w.armed, w.server)
    ensures var w' := AddLines(w, file, lines, objectType, objectNumber, lineShift, replies);
            && Agrees(rest + Elements(w'.ids), w'.armed, w'.server)
            && w'.server.placed.Keys == w.server.placed.Keys + HandedOut(replies)
            && (forall id :: id in w.server.placed ==> w'.server.placed[id] == w.server.placed[id])
  {
    hide Agrees, AddLine, Elements, HandedOut, FreshIds, IdOf;
    if lines == [] {
      assert HandedOut(replies) == {} by { NoneHandedOut(replies); }
    } else {
      var n := |lines| - 1;
      FreshPrefix(w.server, replies);
      AddLinesAgrees(rest, w, file, lines[..n], objectType, objectNumber, lineShift, replies[..n]);
      var w1 := AddLines(w, file, lines[..n], objectType, objectNumber, lineShift, replies[..n]);
      AddLineAgrees(rest, w1, file, lines[n], objectType, objectNumber, lineShift, replies[n]);
      AddLinePlaces(w1, file, lines[n], objectType, objectNumber, lineShift, replies[n]);
    }
  }

  lemma {:induction false} NoneHandedOut(replies: seq<AddReply>)
    requires replies == []
    ensures HandedOut(replies) == {}
  {
  }

  lemma {:induction false} NewIdsAreFresh(w: Work, file: string, lines: seq<SourceLine>,
                                          objectType: int, objectNumber: int, lineShift: int, replies: seq<AddReply>)
    requires |lines| == |replies|
    ensures Elements(AddLines(w, file, lines, objectType, objectNumber, lineShift, replies).ids) <=
            Elements(w.ids) + HandedOut(replies)
  {
    if lines != [] {
      var n := |lines| - 1;
      NewIdsAreFresh(w, file, lines[..n], objectType, objectNumber, lineShift, replies[..n]);
      assert replies == replies[..n] + [replies[n]];
      var w1 := AddLines(w, file, lines[..n], objectType, objectNumber, lineShift, replies[..n]);
      var reply := replies[n];
      assert reply in replies;
      if reply.Definition? && reply.id != 0 {
        assert IdOf(reply) == Some(reply.id) && IdOf(reply).value in HandedOut(replies);
        AppendElement(w1.ids, reply.id);
      }
      assert HandedOut(replies[..n]) <= HandedOut(replies);
    }
  }

  lemma {:induction false} PlaceConserves(s: State, file: string, lines: seq<SourceLine>, objectType: int,
                                          objectNumber: int, lineShift: int, replies: seq<AddReply>)
    requires Conserved(s) && file !in s.breakpoints && |lines| == |replies| && FreshIds(s.server, replies)
    ensures Conserved(PlaceLines(s, file, lines, objectType, objectNumber, lineShift, replies).0)
  {
    hide AddLines, FreshIds, IdOf;
    var w := Work(s.server, s.armed, [], []);
    var rest := Tracked(s.breakpoints);
    assert rest + Elements(w.ids) == rest;
    AddLinesAgrees(rest, w, file, lines, objectType, objectNumber, lineShift, replies);
    NewIdsAreFresh(w, file, lines, objectType, objectNumber, lineShift, replies);
    var w' := AddLines(w, file, lines, objectType, objectNumber, lineShift, replies);
    HandedOutFresh(s.server, replies);
    if w'.ids == [] {
      assert rest + Elements(w'.ids) == rest;
    } else {
      TrackedWith(s.breakpoints, file, w'.ids);
      forall f, id | f in s.breakpoints && id in s.breakpoints[f]
        ensures id !in Elements(w'.ids)
      {
        assert id in rest;
        assert id in s.server.placed;
      }
    }
  }

  lemma {:induction false} HandedOutFresh(sv: Server, replies: seq<AddReply>)
    requires FreshIds(sv, replies)
    ensures HandedOut(replies) !! sv.placed.Keys
  {
  }

  // ----- Runs -----

  /** Nothing about breakpoints differs between the states. */
  predicate SameBreakpoints(s: State, s': State) {
    && s'.breakpoints == s.breakpoints && s'.armed == s.armed
    && s'.server == s.server.(wire := s'.server.wire, recorded := s'.server.recorded)
  }

  lemma {:induction false} EventKeepsBreakpoints(s: State, e: Event, seqNo: nat)
    ensures SameBreakpoints(s, HandleEvent(s, e, seqNo))
  {
    hide MakeHit, PushCapped, ReportedPosition, ReportedObject;
  }

  lemma {:induction false} EventsKeepBreakpoints(s: State, events: seq<Event>, seqNo: nat)
    ensures SameBreakpoints(s, HandleEvents(s, events, seqNo).0)
  {
    hide HandleEvent, SeqAfter;
    if events != [] {
      var n := |events| - 1;
      var before := HandleEvents(s, events[..n], seqNo);
      EventsKeepBreakpoints(s, events[..n], seqNo);
      EventKeepsBreakpoints(before.0, events[n], before.1);
    }
  }

  lemma {:induction false} DrainKeepsBreakpoints(s: State, events: seq<Event>, config: ConfigReply)
    ensures SameBreakpoints(s, Drain(s, events, config).0)
  {
    hide HandleEvents, NextSeq;
    EventsKeepBreakpoints(s, events, NextSeq(s.history));
  }

  /** Commands other than setting breakpoints touch no breakpoint. */
  lemma {:induction false} OtherCommandsKeepBreakpoints(s: State, c: Command)
    requires Answered(s, c) && !c.CmdSetBreakpoints?
    ensures SameBreakpoints(s, Do(s, c))
  {
    hide Drain, FillBack;
    if c.CmdState? || c.CmdStack? || c.CmdQuery? || c.CmdResume? {
      DrainKeepsBreakpoints(s, c.events, c.config);
    }
  }

  lemma {:induction false} DoConserves(s: State, c: Command)
    requires Conserved(s) && Answered(s, c)
    ensures Conserved(Do(s, c))
  {
    match c
    case CmdSetBreakpoints(file, lines, objectType, objectNumber, lineShift, removals, replies) =>
      hide ForgetFile, PlaceLines, Agrees, Disjoint;
      ForgetConserves(s, file, removals);
      PlaceConserves(ForgetFile(s, file, removals), file, lines, objectType, objectNumber, lineShift, replies);
    case _ =>
      OtherCommandsKeepBreakpoints(s, c);
  }

  lemma {:induction false} StartConserved()
    ensures Conserved(START)
  {
    assert Tracked(START.breakpoints) == {};
  }

  /** After every run the tracked ids are live and placed where the client asked, a live id
      that is not tracked is one whose removal or addition failed, and every armed position
      leads to a tracked id placed at exactly that position. */
  lemma {:induction false} RunConserves(commands: seq<Command>)
    requires Run(commands).Some?
    ensures Conserved(Run(commands).value)
  {
    hide Conserved;
    if commands == [] {
      StartConserved();
    } else {
      var n := |commands| - 1;
      RunConserves(commands[..n]);
      DoConserves(Run(commands[..n]).value, commands[n]);
    }
  }
}
