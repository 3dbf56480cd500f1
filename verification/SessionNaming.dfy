/** When a Break names the very breakpoint it came from. */
module SessionNaming {
  import opened Options
  import opened SessionModel
  import opened SessionBreakpoints
  import opened SessionHits
  import opened SessionNames

  /** The breakpoint's own id is armed at its position. */
  predicate Named(s: State, id: int) {
    ArmedAt(s, id) && s.armed[s.server.placed[id].value] == id
  }

  ghost predicate AllNamed(s: State) {
    forall f, id :: f in s.breakpoints && id in s.breakpoints[f] ==> Named(s, id)
  }

  function BreakAt(p: Position): Event {
    Break(Some(BreakLocation(p.line, 0, None, Some(p.objectType), Some(p.objectNumber))), [], 0)
  }

  /** That is what it takes to be named: some Break is recorded with the id exactly then. */
  lemma {:induction false} NamedByABreak(s: State, id: int)
    requires Conserved(s) && id in Tracked(s.breakpoints)
    ensures Named(s, id) <==> exists e: Event, k: nat :: e.Break? && MakeHit(s.armed, e, k).breakpointId == id
  {
    hide Tracked, Disjoint;
    if Named(s, id) {
      var p := s.server.placed[id].value;
      assert ReportedPosition(BreakAt(p).location) == Some(p);
      assert MakeHit(s.armed, BreakAt(p), 1).breakpointId == id;
    }
  }

  // ----- Given the replies -----

  datatype Call = Call(file: string, lines: seq<SourceLine>, objectType: int, objectNumber: int, lineShift: int)

  /** The position at which the call wants its line number `i` placed. */
  function Asked(a: Call, i: nat): Position
    requires i < |a.lines|
  {
    Position(a.objectType, a.objectNumber, ServerLine(a.lines[i].line, a.lineShift))
  }

  function CallOf(c: Command): Call
    requires c.CmdSetBreakpoints?
  {
    Call(c.file, c.lines, c.objectType, c.objectNumber, c.lineShift)
  }

  function CommandFor(a: Call, removals: seq<RemoveReply>, replies: seq<AddReply>): Command {
    CmdSetBreakpoints(a.file, a.lines, a.objectType, a.objectNumber, a.lineShift, removals, replies)
  }

  /** Another file has a breakpoint at the position. */
  ghost predicate Taken(s: State, file: string, p: Position) {
    exists g, id :: g in s.breakpoints && g != file && id in s.breakpoints[g] && PlacedAt(s.server, id, p)
  }

  predicate PlacedAt(sv: Server, id: int, p: Position) {
    id in sv.placed && sv.placed[id] == Some(p)
  }

  predicate Met(a: Call, replies: seq<AddReply>, i: nat) {
    i < |replies| && Good(replies[i], a.objectType, a.objectNumber)
  }

  predicate GoodAs(reply: AddReply, objectType: int, objectNumber: int, id: int) {
    Good(reply, objectType, objectNumber) && reply.id == id
  }

  predicate MetAs(a: Call, replies: seq<AddReply>, i: nat, id: int) {
    Met(a, replies, i) && replies[i].id == id
  }

  /** The lines that the server places as asked are at different positions, and at none where
      another file has a breakpoint. */
  ghost predicate MetApart(s: State, a: Call, replies: seq<AddReply>)
    requires |a.lines| == |replies|
  {
    && (forall i, j :: 0 <= i < j < |replies| && Met(a, replies, i) && Met(a, replies, j) ==>
                         Asked(a, i) != Asked(a, j))
    && (forall i :: 0 <= i < |replies| && Met(a, replies, i) ==> !Taken(s, a.file, Asked(a, i)))
  }

  predicate NamedIn(w: Work, id: int, p: Position) {
    PlacedAt(w.server, id, p) && p in w.armed && w.armed[p] == id
  }

  lemma {:induction false} AddLineNames(w: Work, a: Call, source: SourceLine, reply: AddReply)
    requires IdOf(reply).Some? ==> IdOf(reply).value !in w.server.placed
    ensures var w' := AddLine(w, a.file, source, a.objectType, a.objectNumber, a.lineShift, reply);
            var p := Position(a.objectType, a.objectNumber, ServerLine(source.line, a.lineShift));
            var good := Good(reply, a.objectType, a.objectNumber);
            && (forall id, q :: NamedIn(w, id, q) && (good ==> q != p) ==> NamedIn(w', id, q))
            && (forall id, q :: PlacedAt(w.server, id, q) ==> PlacedAt(w'.server, id, q))
            && (good ==> NamedIn(w', reply.id, p))
  {
    hide ObjectMatches, ServerLine, MakeInfo;
  }

  /** The call for the lines but the last. */
  function Shorter(a: Call): Call
    requires a.lines != []
  {
    a.(lines := a.lines[..|a.lines| - 1])
  }

  function Added(w: Work, a: Call, replies: seq<AddReply>): Work
    requires |a.lines| == |replies|
  {
    AddLines(w, a.file, a.lines, a.objectType, a.objectNumber, a.lineShift, replies)
  }

  lemma {:induction false} AddedLast(w: Work, a: Call, replies: seq<AddReply>)
    requires |a.lines| == |replies| > 0 && FreshIds(w.server, replies)
    ensures var n := |replies| - 1;
            var w1 := Added(w, Shorter(a), replies[..n]);
            && Added(w, a, replies)
               == AddLine(w1, a.file, a.lines[n], a.objectType, a.objectNumber, a.lineShift, replies[n])
            && FreshIds(w.server, replies[..n])
            && (IdOf(replies[n]).Some? ==> IdOf(replies[n]).value !in w1.server.placed)
  {
    hide AddLine, FreshIds, IdOf, HandedOut;
    var n := |replies| - 1;
    FreshPrefix(w.server, replies);
    PlacedIds(w, Shorter(a), replies[..n]);
    var last := IdOf(replies[n]);
    if last.Some? {
      assert last.value !in w.server.placed.Keys + HandedOut(replies[..n]);
    }
  }

  lemma {:induction false} PlacedIds(w: Work, a: Call, replies: seq<AddReply>)
    requires |a.lines| == |replies| && FreshIds(w.server, replies)
    ensures Added(w, a, replies).server.placed.Keys == w.server.placed.Keys + HandedOut(replies)
    decreases |replies|
  {
    hide AddLine, FreshIds, IdOf, HandedOut;
    if replies == [] {
      NoneHandedOut(replies);
    } else {
      var n := |replies| - 1;
      FreshPrefix(w.server, replies);
      PlacedIds(w, Shorter(a), replies[..n]);
      var w1 := Added(w, Shorter(a), replies[..n]);
      AddLinePlaces(w1, a.file, a.lines[n], a.objectType, a.objectNumber, a.lineShift, replies[n]);
    }
  }

  /** Placed lines stay where they were placed, and a position not asked for keeps its id. */
  lemma {:induction false} AddedKeeps(w: Work, a: Call, replies: seq<AddReply>, id: int, q: Position)
    requires |a.lines| == |replies| && FreshIds(w.server, replies)
    ensures PlacedAt(w.server, id, q) ==> PlacedAt(Added(w, a, replies).server, id, q)
    ensures NamedIn(w, id, q) && (forall i :: 0 <= i < |replies| && Met(a, replies, i) ==> Asked(a, i) != q) ==>
              NamedIn(Added(w, a, replies), id, q)
    decreases |replies|
  {
    hide AddLine, FreshIds, NamedIn, PlacedAt, Good, IdOf, ServerLine;
    if replies != [] {
      var n := |replies| - 1;
      AddedLast(w, a, replies);
      AddedKeeps(w, Shorter(a), replies[..n], id, q);
      AddLineNames(Added(w, Shorter(a), replies[..n]), a, a.lines[n], replies[n]);
      assert forall i :: 0 <= i < n ==> (Met(Shorter(a), replies[..n], i) <==> Met(a, replies, i));
      assert forall i :: 0 <= i < n ==> Asked(Shorter(a), i) == Asked(a, i);
      assert Met(a, replies, n) <==> Good(replies[n], a.objectType, a.objectNumber);
      assert Asked(a, n) == Position(a.objectType, a.objectNumber, ServerLine(a.lines[n].line, a.lineShift));
    }
  }

  /** A line that the server places as asked is tracked, and named if no later one takes its
      position. */
  lemma {:induction false} AddedPlaces(w: Work, a: Call, replies: seq<AddReply>, i: nat)
    requires |a.lines| == |replies| && FreshIds(w.server, replies) && Met(a, replies, i)
    ensures var w' := Added(w, a, replies);
            && PlacedAt(w'.server, replies[i].id, Asked(a, i))
            && ((forall j :: i < j < |replies| && Met(a, replies, j) ==> Asked(a, j) != Asked(a, i)) ==>
                  NamedIn(w', replies[i].id, Asked(a, i)))
    decreases |replies|
  {
    hide AddLine, FreshIds, NamedIn, PlacedAt, IdOf, ServerLine, ObjectMatches;
    var n := |replies| - 1;
    AddedLast(w, a, replies);
    var w1 := Added(w, Shorter(a), replies[..n]);
    AddLineNames(w1, a, a.lines[n], replies[n]);
    if i == n {
      NamedIsPlaced(Added(w, a, replies), replies[n].id, Asked(a, n));
    } else {
      AddedPlaces(w, Shorter(a), replies[..n], i);
      assert forall j :: 0 <= j < n ==> (Met(Shorter(a), replies[..n], j) <==> Met(a, replies, j));
      assert forall j :: 0 <= j < n ==> Asked(Shorter(a), j) == Asked(a, j);
      assert Met(a, replies, n) <==> Good(replies[n], a.objectType, a.objectNumber);
      assert Asked(a, n) == Position(a.objectType, a.objectNumber, ServerLine(a.lines[n].line, a.lineShift));
    }
  }

  lemma {:induction false} NamedIsPlaced(w: Work, id: int, p: Position)
    requires NamedIn(w, id, p)
    ensures PlacedAt(w.server, id, p)
  {
  }

  lemma {:induction false} GoodIdsAre(objectType: int, objectNumber: int, replies: seq<AddReply>, id: int)
    ensures id in GoodIds(objectType, objectNumber, replies) <==>
            exists i :: 0 <= i < |replies| && GoodAs(replies[i], objectType, objectNumber, id)
  {
    if replies != [] {
      var n := |replies| - 1;
      GoodIdsAre(objectType, objectNumber, replies[..n], id);
      hide Good;
      assert forall i :: 0 <= i < n ==> replies[..n][i] == replies[i];
      if i :| 0 <= i < |replies| && GoodAs(replies[i], objectType, objectNumber, id) {
        assert i < n ==> GoodAs(replies[..n][i], objectType, objectNumber, id);
      }
    }
  }

  // ----- What a call does -----

  /** The state after the call in terms of the lines it adds. */
  lemma {:induction false} CallAdds(s: State, a: Call, removals: seq<RemoveReply>, replies: seq<AddReply>)
    returns (w: Work)
    requires Conserved(s) && Answered(s, CommandFor(a, removals, replies))
    ensures |a.lines| == |replies| && FreshIds(w.server, replies) && w.server.placed == s.server.placed
    ensures w.armed == Disarm(s.armed, OldIds(s, a.file))
    ensures var s' := Do(s, CommandFor(a, removals, replies));
            s'.armed == Added(w, a, replies).armed && s'.server == Added(w, a, replies).server
  {
    hide AddLines, FreshIds, Conserved, RemoveAll;
    var f := ForgetFile(s, a.file, removals);
    ForgetConserves(s, a.file, removals);
    w := Work(f.server, f.armed, [], []);
    SameFresh(s.server, w.server, replies);
    assert OldIds(s, a.file) == [] ==> Disarm(s.armed, []) == s.armed;
  }

  /** Which breakpoints are tracked after the call. */
  lemma {:induction false} CallTracks(s: State, a: Call, removals: seq<RemoveReply>, replies: seq<AddReply>)
    requires Answered(s, CommandFor(a, removals, replies))
    ensures var s' := Do(s, CommandFor(a, removals, replies));
            && (forall id :: id in OldIds(s', a.file) <==>
                               exists i :: 0 <= i < |replies| && MetAs(a, replies, i, id))
            && (forall g :: g != a.file ==> OldIds(s', g) == OldIds(s, g))
  {
    hide SetBreakpoints, ReportsAll, GoodIds, GoodPositions, Good, Disarm;
    var s' := Do(s, CommandFor(a, removals, replies));
    SetBreakpointsReports(s, a.file, a.lines, a.objectType, a.objectNumber, a.lineShift, removals, replies);
    forall id
      ensures id in OldIds(s', a.file) <==> exists i :: 0 <= i < |replies| && MetAs(a, replies, i, id)
    {
      GoodIdsAre(a.objectType, a.objectNumber, replies, id);
      if i :| 0 <= i < |replies| && GoodAs(replies[i], a.objectType, a.objectNumber, id) {
        assert MetAs(a, replies, i, id);
      }
      if i :| 0 <= i < |replies| && MetAs(a, replies, i, id) {
        assert GoodAs(replies[i], a.objectType, a.objectNumber, id);
      }
    }
    forall g | g != a.file ensures OldIds(s', g) == OldIds(s, g) {
      assert g in s'.breakpoints <==> g in s'.breakpoints - {a.file};
      assert g in s.breakpoints <==> g in s.breakpoints - {a.file};
      assert g in s.breakpoints ==> (s'.breakpoints - {a.file})[g] == (s.breakpoints - {a.file})[g];
    }
  }

  lemma {:induction false} NamedAll(s: State, g: string, id: int)
    requires AllNamed(s) && id in OldIds(s, g)
    ensures Named(s, id)
  {
  }

  /** Breakpoints that are named do not share positions. */
  lemma {:induction false} NamedApart(s: State, f: string, g: string, x: int, y: int, p: Position)
    requires AllNamed(s) && x in OldIds(s, f) && y in OldIds(s, g)
    requires PlacedAt(s.server, x, p) && PlacedAt(s.server, y, p)
    ensures x == y
  {
    hide AllNamed;
    NamedAll(s, f, x);
    NamedAll(s, g, y);
  }

  lemma {:induction false} MetIsTracked(s: State, a: Call, removals: seq<RemoveReply>, replies: seq<AddReply>, i: nat)
    requires Conserved(s) && Answered(s, CommandFor(a, removals, replies)) && Met(a, replies, i)
    ensures var s' := Do(s, CommandFor(a, removals, replies));
            i < |a.lines| && replies[i].id in OldIds(s', a.file) && PlacedAt(s'.server, replies[i].id, Asked(a, i))
    ensures replies[i].id != 0 && replies[i].id !in s.server.placed
  {
    hide Conserved, Do, Added, OldIds, ServerLine, ObjectMatches;
    MetIsFresh(s, a, removals, replies, i);
    var w := CallAdds(s, a, removals, replies);
    AddedPlaces(w, a, replies, i);
    CallTracks(s, a, removals, replies);
    assert MetAs(a, replies, i, replies[i].id);
  }

  lemma {:induction false} MetIsFresh(s: State, a: Call, removals: seq<RemoveReply>, replies: seq<AddReply>, i: nat)
    requires Answered(s, CommandFor(a, removals, replies)) && Met(a, replies, i)
    ensures replies[i].Definition? && replies[i].id != 0 && replies[i].id !in s.server.placed
    ensures forall j :: 0 <= j < |replies| && j != i && Met(a, replies, j) ==> replies[j].id != replies[i].id
  {
    hide ObjectMatches, OldIds;
    assert IdOf(replies[i]) == Some(replies[i].id);
    forall j | 0 <= j < |replies| && j != i && Met(a, replies, j) ensures replies[j].id != replies[i].id {
      assert IdOf(replies[j]) == Some(replies[j].id);
      assert i < j || j < i;
    }
  }

  lemma {:induction false} OtherStaysPlaced(s: State, a: Call, removals: seq<RemoveReply>, replies: seq<AddReply>,
                                            g: string, id: int, p: Position)
    requires Conserved(s) && Answered(s, CommandFor(a, removals, replies)) && g != a.file && id in OldIds(s, g)
    requires PlacedAt(s.server, id, p)
    ensures var s' := Do(s, CommandFor(a, removals, replies)); id in OldIds(s', g) && PlacedAt(s'.server, id, p)
  {
    hide Conserved, Do, Added, OldIds;
    var w := CallAdds(s, a, removals, replies);
    AddedKeeps(w, a, replies, id, p);
    CallTracks(s, a, removals, replies);
  }

  lemma {:induction false} NamedNeedsApart(s: State, a: Call, removals: seq<RemoveReply>, replies: seq<AddReply>)
    requires Conserved(s) && Answered(s, CommandFor(a, removals, replies))
    requires AllNamed(Do(s, CommandFor(a, removals, replies)))
    ensures |a.lines| == |replies| && MetApart(s, a, replies)
  {
    hide Conserved, Do, Met, OldIds, AllNamed, PlacedAt, Asked, FreshIds;
    var s' := Do(s, CommandFor(a, removals, replies));
    forall i, j | 0 <= i < j < |replies| && Met(a, replies, i) && Met(a, replies, j)
      ensures Asked(a, i) != Asked(a, j)
    {
      MetIsTracked(s, a, removals, replies, i);
      MetIsTracked(s, a, removals, replies, j);
      MetIsFresh(s, a, removals, replies, i);
      MetIsFresh(s, a, removals, replies, j);
      if Asked(a, i) == Asked(a, j) {
        NamedApart(s', a.file, a.file, replies[i].id, replies[j].id, Asked(a, i));
      }
    }
    forall i | 0 <= i < |replies| && Met(a, replies, i) ensures !Taken(s, a.file, Asked(a, i)) {
      MetIsTracked(s, a, removals, replies, i);
      MetIsFresh(s, a, removals, replies, i);
      if Taken(s, a.file, Asked(a, i)) {
        var g, id := TakenBy(s, a.file, Asked(a, i));
        OtherStaysPlaced(s, a, removals, replies, g, id, Asked(a, i));
        NamedApart(s', a.file, g, replies[i].id, id, Asked(a, i));
      }
    }
  }

  lemma {:induction false} TakenBy(s: State, file: string, p: Position) returns (g: string, id: int)
    requires Taken(s, file, p)
    ensures g != file && id in OldIds(s, g) && PlacedAt(s.server, id, p) && id in s.server.placed
  {
    g, id :| g in s.breakpoints && g != file && id in s.breakpoints[g] && PlacedAt(s.server, id, p);
  }

  lemma {:induction false} NamedIsIn(s: State, id: int, w: Work, p: Position)
    requires NamedIn(w, id, p) && s.armed == w.armed && s.server == w.server
    ensures Named(s, id)
  {
  }

  lemma {:induction false} OtherIsKept(s: State, a: Call, removals: seq<RemoveReply>, replies: seq<AddReply>, g: string,
                                       id: int)
    requires Conserved(s) && AllNamed(s) && Answered(s, CommandFor(a, removals, replies))
    requires |a.lines| == |replies| && MetApart(s, a, replies)
    requires g != a.file && id in OldIds(s, g)
    ensures Named(Do(s, CommandFor(a, removals, replies)), id)
  {
    hide Do, Added, Met, Asked, Agrees, AllNamed, Answered, Disarm;
    NamedAll(s, g, id);
    var p := s.server.placed[id].value;
    var w := CallAdds(s, a, removals, replies);
    assert PlacedAt(s.server, id, p);
    OtherStaysArmed(s, a.file, g, id);
    forall i | 0 <= i < |replies| && Met(a, replies, i) ensures Asked(a, i) != p {
      assert !Taken(s, a.file, Asked(a, i));
    }
    AddedKeeps(w, a, replies, id, p);
    NamedIsIn(Do(s, CommandFor(a, removals, replies)), id, Added(w, a, replies), p);
  }

  lemma {:induction false} OtherStaysArmed(s: State, file: string, g: string, id: int)
    requires Conserved(s) && g != file && id in OldIds(s, g) && Named(s, id)
    ensures var p, armed := s.server.placed[id].value, Disarm(s.armed, OldIds(s, file));
            p in armed && armed[p] == id
  {
    hide Agrees;
    if file in s.breakpoints {
      assert id in Elements(s.breakpoints[g]) && id !in Elements(s.breakpoints[file]);
    }
  }

  lemma {:induction false} NewIsNamed(s: State, a: Call, removals: seq<RemoveReply>, replies: seq<AddReply>, i: nat)
    requires Conserved(s) && Answered(s, CommandFor(a, removals, replies))
    requires |a.lines| == |replies| && MetApart(s, a, replies) && Met(a, replies, i)
    ensures Named(Do(s, CommandFor(a, removals, replies)), replies[i].id)
  {
    hide Do, Added, Asked, Conserved, Answered, ObjectMatches;
    var w := CallAdds(s, a, removals, replies);
    AddedPlaces(w, a, replies, i);
    NamedIsIn(Do(s, CommandFor(a, removals, replies)), replies[i].id, Added(w, a, replies), Asked(a, i));
  }

  /** After a call every tracked breakpoint is named if and only if the lines that the server
      placed as asked are at different positions, none of which another file has. */
  lemma {:induction false} CallNames(s: State, a: Call, removals: seq<RemoveReply>, replies: seq<AddReply>)
    requires Conserved(s) && AllNamed(s) && Answered(s, CommandFor(a, removals, replies))
    ensures |a.lines| == |replies|
    ensures AllNamed(Do(s, CommandFor(a, removals, replies))) <==> MetApart(s, a, replies)
  {
    hide Conserved, Do, Met, MetApart, Named, FreshIds;
    var s' := Do(s, CommandFor(a, removals, replies));
    if AllNamed(s') {
      NamedNeedsApart(s, a, removals, replies);
    }
    if MetApart(s, a, replies) {
      CallTracks(s, a, removals, replies);
      forall f, id | f in s'.breakpoints && id in s'.breakpoints[f] ensures Named(s', id) {
        if f == a.file {
          assert id in OldIds(s', a.file);
          var i :| 0 <= i < |replies| && MetAs(a, replies, i, id);
          NewIsNamed(s, a, removals, replies, i);
        } else {
          assert id in OldIds(s', f);
          OtherIsKept(s, a, removals, replies, f, id);
        }
      }
    }
  }

  // ----- Before the call -----

  /** The lines of the call are different lines for the server. */
  predicate Apart(a: Call) {
    forall i, j :: 0 <= i < j < |a.lines| ==> Asked(a, i) != Asked(a, j)
  }

  /** No other file has a breakpoint where the call wants one. */
  ghost predicate Free(s: State, a: Call) {
    forall i :: 0 <= i < |a.lines| ==> !Taken(s, a.file, Asked(a, i))
  }

  ghost predicate NamesEveryReply(s: State, a: Call) {
    forall removals: seq<RemoveReply>, replies: seq<AddReply> ::
      Answered(s, CommandFor(a, removals, replies)) ==> AllNamed(Do(s, CommandFor(a, removals, replies)))
  }

  /** The server does all that is asked, with ids from `m + 1` on. */
  function Granted(m: nat, n: nat): (replies: seq<AddReply>)
    ensures |replies| == n
    ensures forall i :: 0 <= i < n ==> replies[i] == Definition(m + 1 + i, Absent, Removed)
  {
    seq(n, i => Definition(m + 1 + i, Absent, Removed))
  }

  function Removals(s: State, file: string): seq<RemoveReply> {
    seq(|OldIds(s, file)|, _ => Removed)
  }

  lemma {:induction false} GrantedIsAnswer(s: State, a: Call, m: nat)
    requires forall id :: id in s.server.placed ==> id <= m
    ensures Answered(s, CommandFor(a, Removals(s, a.file), Granted(m, |a.lines|)))
    ensures forall i :: 0 <= i < |a.lines| ==> Met(a, Granted(m, |a.lines|), i)
  {
  }

  lemma {:induction false} Bound(ids: set<int>) returns (m: nat)
    ensures forall id :: id in ids ==> id <= m
    decreases |ids|
  {
    m := 0;
    if id :| id in ids {
      var m' := Bound(ids - {id});
      m := if id > m' then id else m';
      forall x | x in ids ensures x <= m {
        assert x == id || x in ids - {id};
      }
    }
  }

  lemma {:induction false} GrantedApart(s: State, a: Call, m: nat)
    requires forall i :: 0 <= i < |a.lines| ==> Met(a, Granted(m, |a.lines|), i)
    ensures MetApart(s, a, Granted(m, |a.lines|)) <==> Apart(a) && Free(s, a)
  {
    hide Met, Asked, Taken;
  }

  /** Whatever the server answers, every tracked breakpoint stays named: if and only if the
      lines of the call are different lines for the server and no other file has a breakpoint
      at any of them. */
  lemma {:induction false} CallAlwaysNames(s: State, a: Call)
    requires Conserved(s) && AllNamed(s)
    ensures NamesEveryReply(s, a) <==> Apart(a) && Free(s, a)
  {
    hide Conserved, AllNamed, Do, Answered, Met, Asked, Taken;
    if Apart(a) && Free(s, a) {
      forall removals: seq<RemoveReply>, replies: seq<AddReply> | Answered(s, CommandFor(a, removals, replies))
        ensures AllNamed(Do(s, CommandFor(a, removals, replies)))
      {
        CallNames(s, a, removals, replies);
      }
    }
    var m := Bound(s.server.placed.Keys);
    GrantedIsAnswer(s, a, m);
    CallNames(s, a, Removals(s, a.file), Granted(m, |a.lines|));
    GrantedApart(s, a, m);
  }

  // ----- Over runs -----

  type Calls = Call -> bool

  predicate Allowed(c: Command, calls: Calls) {
    c.CmdSetBreakpoints? ==> calls(CallOf(c))
  }

  predicate AllAllowed(commands: seq<Command>, calls: Calls) {
    forall i :: 0 <= i < |commands| ==> Allowed(commands[i], calls)
  }

  ghost predicate AlwaysNamed(calls: Calls) {
    forall commands :: AllAllowed(commands, calls) && Run(commands).Some? ==> AllNamed(Run(commands).value)
  }

  /** Both calls want a breakpoint at one position. */
  predicate Meet(a: Call, b: Call) {
    exists i, j :: 0 <= i < |a.lines| && 0 <= j < |b.lines| && Asked(a, i) == Asked(b, j)
  }

  /** No call wants two breakpoints at one position, and no two under different file names do. */
  ghost predicate Sound(calls: Calls) {
    && (forall a :: calls(a) ==> Apart(a))
    && (forall a, b :: calls(a) && calls(b) && a.file != b.file ==> !Meet(a, b))
  }

  /** The breakpoint is where an allowed call under its file name wanted one. */
  ghost predicate Wanted(s: State, calls: Calls, f: string, id: int) {
    exists a, i :: calls(a) && a.file == f && 0 <= i < |a.lines| && PlacedAt(s.server, id, Asked(a, i))
  }

  ghost predicate AllWanted(s: State, calls: Calls) {
    forall f, id :: f in s.breakpoints && id in s.breakpoints[f] ==> Wanted(s, calls, f, id)
  }

  lemma {:induction false} WantedIsFree(s: State, calls: Calls, a: Call)
    requires Sound(calls) && AllWanted(s, calls) && calls(a)
    ensures Free(s, a)
  {
    hide Asked, Apart;
    forall i | 0 <= i < |a.lines| ensures !Taken(s, a.file, Asked(a, i)) {
      if Taken(s, a.file, Asked(a, i)) {
        var g, id :| g in s.breakpoints && g != a.file && id in s.breakpoints[g] && PlacedAt(s.server, id, Asked(a, i));
        assert Wanted(s, calls, g, id);
        var b, j :| calls(b) && b.file == g && 0 <= j < |b.lines| && PlacedAt(s.server, id, Asked(b, j));
        MeetAt(a, b, i, j);
      }
    }
  }

  lemma {:induction false} MeetAt(a: Call, b: Call, i: nat, j: nat)
    requires i < |a.lines| && j < |b.lines| && Asked(a, i) == Asked(b, j)
    ensures Meet(a, b)
  {
  }

  lemma {:induction false} CallWanted(s: State, calls: Calls, a: Call, removals: seq<RemoveReply>,
                                      replies: seq<AddReply>)
    requires Conserved(s) && AllWanted(s, calls) && calls(a) && Answered(s, CommandFor(a, removals, replies))
    ensures AllWanted(Do(s, CommandFor(a, removals, replies)), calls)
  {
    hide Conserved, Do, Met, PlacedAt, Asked, Answered;
    var s' := Do(s, CommandFor(a, removals, replies));
    CallTracks(s, a, removals, replies);
    forall f, id | f in s'.breakpoints && id in s'.breakpoints[f] ensures Wanted(s', calls, f, id) {
      assert id in OldIds(s', f);
      if f == a.file {
        var i :| 0 <= i < |replies| && MetAs(a, replies, i, id);
        MetIsTracked(s, a, removals, replies, i);
      } else {
        assert Wanted(s, calls, f, id);
        var b, j :| calls(b) && b.file == f && 0 <= j < |b.lines| && PlacedAt(s.server, id, Asked(b, j));
        OtherStaysPlaced(s, a, removals, replies, f, id, Asked(b, j));
      }
    }
  }

  lemma {:induction false} DoNamed(s: State, c: Command, calls: Calls)
    requires Conserved(s) && AllNamed(s) && AllWanted(s, calls) && Answered(s, c) && Allowed(c, calls) && Sound(calls)
    ensures AllNamed(Do(s, c)) && AllWanted(Do(s, c), calls)
  {
    hide Conserved, Do, Answered, Asked, Sound, Apart, Free;
    if c.CmdSetBreakpoints? {
      var a := CallOf(c);
      assert c == CommandFor(a, c.removals, c.replies);
      CallWanted(s, calls, a, c.removals, c.replies);
      WantedIsFree(s, calls, a);
      SoundApart(calls, a);
      CallAlwaysNames(s, a);
    } else {
      OtherCommandsKeepBreakpoints(s, c);
      assert forall id :: Named(s, id) ==> Named(Do(s, c), id);
      assert forall f, id :: Wanted(s, calls, f, id) ==> Wanted(Do(s, c), calls, f, id);
    }
  }

  lemma {:induction false} SoundApart(calls: Calls, a: Call)
    requires Sound(calls) && calls(a)
    ensures Apart(a)
  {
  }

  lemma {:induction false} RunNamed(commands: seq<Command>, calls: Calls)
    requires Run(commands).Some? && AllAllowed(commands, calls) && Sound(calls)
    ensures AllNamed(Run(commands).value) && AllWanted(Run(commands).value, calls)
  {
    hide Conserved, Do, Answered, Sound, Allowed, AllNamed, AllWanted;
    if commands == [] {
      NothingToName(calls);
    } else {
      var n := |commands| - 1;
      RunConserves(commands[..n]);
      RunNamed(commands[..n], calls);
      DoNamed(Run(commands[..n]).value, commands[n], calls);
    }
  }

  lemma {:induction false} NothingToName(calls: Calls)
    ensures AllNamed(START) && AllWanted(START, calls)
  {
  }

  /** A fresh session with the call granted. */
  lemma {:induction false} FirstCall(a: Call) returns (c: Command, s: State)
    ensures c == CommandFor(a, [], Granted(0, |a.lines|)) && Run([c]) == Some(s)
    ensures Answered(START, c) && s == Do(START, c) && Conserved(s)
    ensures AllNamed(s) <==> Apart(a)
  {
    hide Do, Answered, Conserved, AllNamed, Apart, Granted, Met;
    c := CommandFor(a, Removals(START, a.file), Granted(0, |a.lines|));
    assert Removals(START, a.file) == [];
    GrantedIsAnswer(START, a, 0);
    s := Do(START, c);
    assert [c][..0] == [] && Run([]) == Some(START);
    RunConserves([c]);
    StartConserved();
    NothingToName(_ => true);
    CallNames(START, a, [], Granted(0, |a.lines|));
    GrantedApart(START, a, 0);
    NothingTaken(a);
  }

  lemma {:induction false} NothingTaken(a: Call)
    ensures Free(START, a)
  {
  }

  lemma {:induction false} NotApartFails(calls: Calls, a: Call)
    requires calls(a) && !Apart(a)
    ensures !AlwaysNamed(calls)
  {
    hide Do, Answered, Conserved, AllNamed, Apart, Run;
    var c, s := FirstCall(a);
    assert CallOf(c) == a;
    assert AllAllowed([c], calls);
  }

  lemma {:induction false} MeetFails(calls: Calls, a: Call, b: Call)
    requires calls(a) && calls(b) && a.file != b.file && Meet(a, b)
    ensures !AlwaysNamed(calls)
  {
    hide Do, Answered, Conserved, AllNamed, Asked, Run, Met, Granted, Removals;
    var c, s := FirstCall(a);
    assert CallOf(c) == a && AllAllowed([c], calls);
    if AllNamed(s) {
      var i: nat, j: nat :| i < |a.lines| && j < |b.lines| && Asked(a, i) == Asked(b, j);
      GrantedIsAnswer(START, a, 0);
      StartConserved();
      MetIsTracked(START, a, [], Granted(0, |a.lines|), i);
      var m := Bound(s.server.placed.Keys);
      GrantedIsAnswer(s, b, m);
      var c2 := CommandFor(b, Removals(s, b.file), Granted(m, |b.lines|));
      CallNames(s, b, Removals(s, b.file), Granted(m, |b.lines|));
      assert Taken(s, b.file, Asked(b, j));
      RunOfTwo(c, c2, s);
      assert CallOf(c2) == b && AllAllowed([c, c2], calls);
    }
  }

  lemma {:induction false} RunOfTwo(a: Command, b: Command, s: State)
    requires Run([a]) == Some(s) && Answered(s, b)
    ensures Run([a, b]) == Some(Do(s, b))
  {
    hide Do, Answered;
    assert [a, b][..1] == [a];
  }

  /** After every run each tracked breakpoint is named if and only if no allowed call wants two
      breakpoints at one position, and no two calls under different file names want one. */
  lemma {:induction false} CallsDecide(calls: Calls)
    ensures AlwaysNamed(calls) <==> Sound(calls)
  {
    hide AllNamed, Run, AllAllowed, Apart, Meet;
    if Sound(calls) {
      forall commands | AllAllowed(commands, calls) && Run(commands).Some?
        ensures AllNamed(Run(commands).value)
      {
        RunNamed(commands, calls);
      }
    }
    forall a | calls(a) && !Apart(a) ensures !AlwaysNamed(calls) {
      NotApartFails(calls, a);
    }
    forall a, b | calls(a) && calls(b) && a.file != b.file && Meet(a, b) ensures !AlwaysNamed(calls) {
      MeetFails(calls, a, b);
    }
  }

  /** Calls with different lines, under the file names in use. */
  function Careful(uses: Uses): Calls {
    (a: Call) => uses(a.file, a.objectType, a.objectNumber) && Apart(a)
  }

  /** Among them every tracked breakpoint is named after every run if and only if the
      breakpoints of each object are set under one file name only. */
  lemma {:induction false} NamesDecideNaming(uses: Uses)
    ensures AlwaysNamed(Careful(uses)) <==> OneNameEach(uses)
  {
    hide AlwaysNamed;
    CallsDecide(Careful(uses));
    forall f, g, objectType, objectNumber
      | uses(f, objectType, objectNumber) && uses(g, objectType, objectNumber) && f != g
      ensures !Sound(Careful(uses))
    {
      var line := [SourceLine(1, None)];
      var a, b := Call(f, line, objectType, objectNumber, 0), Call(g, line, objectType, objectNumber, 0);
      assert Asked(a, 0) == Asked(b, 0);
      assert Meet(a, b) && Careful(uses)(a) && Careful(uses)(b);
    }
  }

  lemma {:induction false} TrackedIsLive(s: State, f: string, id: int)
    requires Conserved(s) && id in OldIds(s, f)
    ensures id in Tracked(s.breakpoints) && id in s.server.live
  {
    assert id in Tracked(s.breakpoints);
  }

  /** One file name and two lines that are one line for the server: both breakpoints are placed,
      live and tracked, and every position is armed, but no Break ever names the first. */
  lemma {:induction false} TwoLinesOneName(a: Call) returns (c: Command, s: State)
    requires |a.lines| == 2 && Asked(a, 0) == Asked(a, 1)
    ensures c == CommandFor(a, [], Granted(0, 2)) && Run([c]) == Some(s) && Complete(s)
    ensures 1 in Tracked(s.breakpoints) && 1 in s.server.live && PlacedAt(s.server, 1, Asked(a, 0))
    ensures forall e: Event, k: nat :: e.Break? ==> MakeHit(s.armed, e, k).breakpointId != 1
  {
    hide Do, Answered, AllNamed, Asked, Run, Met, Agrees, Added, MakeHit;
    c, s := FirstCall(a);
    RunComplete([c], (_, _) => a.file);
    GrantedIsAnswer(START, a, 0);
    StartConserved();
    var replies := Granted(0, 2);
    MetIsTracked(START, a, [], replies, 0);
    TrackedIsLive(s, a.file, 1);
    var w := CallAdds(START, a, [], replies);
    AddedPlaces(w, a, replies, 1);
    NamedIsIn(s, 2, Added(w, a, replies), Asked(a, 1));
    NamedIsPlaced(Added(w, a, replies), 2, Asked(a, 1));
    assert !Named(s, 1);
    NamedByABreak(s, 1);
  }
}
