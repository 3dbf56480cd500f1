/** When a Break at a tracked breakpoint always names some breakpoint: what has to hold before a
    call, and what has to hold of the file names under which breakpoints are set. */
module SessionNames {
  import opened Options
  import opened SessionModel
  import opened SessionBreakpoints
  import opened SessionHits

  // ----- Before a call -----

  /** The armed entry at the breakpoint's position belongs to the file. */
  predicate SharesEntry(s: State, file: string, id: int) {
    ArmedAt(s, id) && s.armed[s.server.placed[id].value] in OldIds(s, file)
  }

  /** A breakpoint of another file shares an armed entry with the file. */
  ghost predicate OthersShare(s: State, file: string) {
    exists g, id :: g in s.breakpoints && g != file && id in s.breakpoints[g] && SharesEntry(s, file, id)
  }

  /** The server removes the old breakpoints and places none of the new ones. */
  function Refused(s: State, file: string, lines: seq<SourceLine>, objectType: int, objectNumber: int, lineShift: int):
    Command
  {
    CmdSetBreakpoints(file, lines, objectType, objectNumber, lineShift,
                      seq(|OldIds(s, file)|, _ => Removed), seq(|lines|, _ => AddFailed(None)))
  }

  lemma {:induction false} RefusedLoses(s: State, file: string, lines: seq<SourceLine>, objectType: int,
                                        objectNumber: int, lineShift: int, id: int)
    requires ArmedAt(s, id)
    ensures var c := Refused(s, file, lines, objectType, objectNumber, lineShift);
            Answered(s, c) && (Loses(s, c, id) <==> SharesEntry(s, file, id))
  {
    hide ServerLine;
  }

  lemma {:induction false} LosesShares(s: State, c: Command, id: int)
    requires c.CmdSetBreakpoints? && Answered(s, c) && ArmedAt(s, id) && Loses(s, c, id)
    ensures SharesEntry(s, c.file, id)
  {
  }

  /** Every tracked position stays armed whatever the server answers to the call. */
  ghost predicate SurvivesEveryReply(s: State, file: string, lines: seq<SourceLine>, objectType: int, objectNumber: int,
                                     lineShift: int)
  {
    forall removals: seq<RemoveReply>, replies: seq<AddReply> ::
      var c := CmdSetBreakpoints(file, lines, objectType, objectNumber, lineShift, removals, replies);
      Answered(s, c) ==> Complete(Do(s, c))
  }

  /** What has to be checked before the call: every fitting reply leaves every tracked
      breakpoint's position armed if and only if no other file's breakpoint shares an armed
      entry with the file that is set. */
  lemma {:induction false} CallIsSafe(s: State, file: string, lines: seq<SourceLine>, objectType: int,
                                      objectNumber: int, lineShift: int)
    requires Conserved(s) && Complete(s)
    ensures SurvivesEveryReply(s, file, lines, objectType, objectNumber, lineShift) <==> !OthersShare(s, file)
  {
    hide Conserved, ArmedAt, Loses, Do, Answered, SharesEntry, Refused;
    forall removals: seq<RemoveReply>, replies: seq<AddReply>
      ensures var c := CmdSetBreakpoints(file, lines, objectType, objectNumber, lineShift, removals, replies);
              Answered(s, c) && !OthersShare(s, file) ==> Complete(Do(s, c))
    {
      var c := CmdSetBreakpoints(file, lines, objectType, objectNumber, lineShift, removals, replies);
      if Answered(s, c) && !OthersShare(s, file) {
        UnsharedIsKept(s, c);
      }
    }
    if OthersShare(s, file) {
      SharedIsLost(s, file, lines, objectType, objectNumber, lineShift);
    }
  }

  lemma {:induction false} UnsharedIsKept(s: State, c: Command)
    requires Conserved(s) && Complete(s) && c.CmdSetBreakpoints? && Answered(s, c) && !OthersShare(s, c.file)
    ensures Complete(Do(s, c))
  {
    hide Conserved, ArmedAt, Loses, Do, Answered, SharesEntry;
    SetBreakpointsComplete(s, c);
    forall g, id | g in s.breakpoints && g != c.file && id in s.breakpoints[g]
      ensures !Loses(s, c, id)
    {
      if Loses(s, c, id) {
        LosesShares(s, c, id);
      }
    }
  }

  lemma {:induction false} SharedIsLost(s: State, file: string, lines: seq<SourceLine>, objectType: int,
                                        objectNumber: int, lineShift: int)
    requires Conserved(s) && Complete(s) && OthersShare(s, file)
    ensures !SurvivesEveryReply(s, file, lines, objectType, objectNumber, lineShift)
  {
    hide Conserved, ArmedAt, Loses, Do, Answered, SharesEntry, Complete;
    var g, id :| g in s.breakpoints && g != file && id in s.breakpoints[g] && SharesEntry(s, file, id);
    CompleteArms(s, g, id);
    RefusedLoses(s, file, lines, objectType, objectNumber, lineShift, id);
    var c := Refused(s, file, lines, objectType, objectNumber, lineShift);
    SetBreakpointsComplete(s, c);
    assert c == CmdSetBreakpoints(file, lines, objectType, objectNumber, lineShift, c.removals, c.replies);
  }

  lemma {:induction false} CompleteArms(s: State, g: string, id: int)
    requires Complete(s) && g in s.breakpoints && id in s.breakpoints[g]
    ensures ArmedAt(s, id)
  {
  }

  // ----- Two file names for one object -----

  /** One breakpoint set at a position, which is one line further down for the client. */
  function SetOneLine(file: string, p: Position, id: int): Command {
    CmdSetBreakpoints(file, [SourceLine(p.line + 1, None)], p.objectType, p.objectNumber, 0, [],
                      [Definition(id, Absent, Removed)])
  }

  lemma {:induction false} AddOneLine(w: Work, file: string, p: Position, id: int)
    requires id != 0
    ensures var w' := AddLines(w, file, [SourceLine(p.line + 1, None)], p.objectType, p.objectNumber, 0,
                               [Definition(id, Absent, Removed)]);
            && w'.ids == w.ids + [id] && w'.armed == w.armed[p := id]
            && w'.server == PlaceOne(w.server, p, "", Definition(id, Absent, Removed))
  {
    var lines, replies := [SourceLine(p.line + 1, None)], [Definition(id, Absent, Removed)];
    assert lines[..0] == [] && replies[..0] == [];
    assert AddLines(w, file, lines[..0], p.objectType, p.objectNumber, 0, replies[..0]) == w;
    assert ServerLine(p.line + 1, 0) == p.line;
  }

  lemma {:induction false} OneFresh(sv: Server, id: int)
    requires id != 0 && id !in sv.placed
    ensures FreshIds(sv, [Definition(id, Absent, Removed)])
  {
  }

  lemma {:induction false} SetOne(s: State, file: string, p: Position, id: int) returns (s': State)
    requires file !in s.breakpoints && id != 0 && id !in s.server.placed
    ensures Answered(s, SetOneLine(file, p, id)) && s' == Do(s, SetOneLine(file, p, id))
    ensures s'.breakpoints == s.breakpoints[file := [id]] && s'.armed == s.armed[p := id]
    ensures s'.server.live == s.server.live + {id}
    ensures s'.server.placed == s.server.placed[id := Some(p)]
  {
    hide AddLines, FreshIds, ServerLine;
    OneFresh(s.server, id);
    s' := Do(s, SetOneLine(file, p, id));
    var w := Work(s.server, s.armed, [], []);
    AddOneLine(w, file, p, id);
    assert w.ids + [id] == [id];
  }

  function Clear(file: string, p: Position): Command {
    CmdSetBreakpoints(file, [], p.objectType, p.objectNumber, 0, [Removed], [])
  }

  lemma {:induction false} ClearSecond(s2: State, f: string, g: string, p: Position) returns (s3: State)
    requires f != g
    requires s2.breakpoints == map[f := [1], g := [2]] && s2.armed == map[p := 2]
    requires s2.server.live == {1, 2} && s2.server.placed == map[1 := Some(p), 2 := Some(p)]
    ensures Answered(s2, Clear(g, p)) && s3 == Do(s2, Clear(g, p))
    ensures s3.breakpoints == map[f := [1]] && s3.armed == map[]
    ensures s3.server.live == {1} && s3.server.placed == s2.server.placed
  {
    assert OldIds(s2, g) == [2];
    assert [2][..0] == [] && [Removed][..0] == [];
    s3 := Do(s2, Clear(g, p));
    assert s2.breakpoints - {g} == map[f := [1]];
    assert Disarm(s2.armed, [2]) == map[];
    assert RemoveAll(s2.server, [2], [Removed]) == RemoveOne(s2.server, 2, Removed);
  }

  lemma {:induction false} RunOfThree(a: Command, b: Command, c: Command, s1: State, s2: State)
    requires Answered(START, a) && s1 == Do(START, a) && Answered(s1, b) && s2 == Do(s1, b) && Answered(s2, c)
    ensures Run([a, b, c]) == Some(Do(s2, c))
  {
    hide Do, Answered;
    assert Run([]) == Some(START);
    assert [a][..0] == [];
    assert Run([a]) == Some(s1);
    assert [a, b][..1] == [a];
    assert Run([a, b]) == Some(s2);
    assert [a, b, c][..2] == [a, b];
  }

  /** With any two file names for an object: setting a line under both names and clearing it
      under the second leaves the first one's breakpoint live and tracked, and a Break there is
      recorded without a breakpoint. */
  lemma {:induction false} TwoNamesLoseABreakpoint(f: string, g: string, p: Position) returns (s: State, hit: Event)
    requires f != g
    ensures Run([SetOneLine(f, p, 1), SetOneLine(g, p, 2), Clear(g, p)]) == Some(s) && !Complete(s)
    ensures 1 in Tracked(s.breakpoints) && 1 in s.server.live
    ensures 1 in s.server.placed && s.server.placed[1] == Some(p)
    ensures hit.Break? && ReportedPosition(hit.location) == Some(p) && MakeHit(s.armed, hit, 1).breakpointId == 0
  {
    hide SetBreakpoints, FreshIds, Run, Do, Answered, SetOneLine, Clear;
    var s1 := SetOne(START, f, p, 1);
    var s2 := SetOne(s1, g, p, 2);
    s := ClearSecond(s2, f, g, p);
    RunOfThree(SetOneLine(f, p, 1), SetOneLine(g, p, 2), Clear(g, p), s1, s2);
    hit := Break(Some(BreakLocation(p.line, 0, None, Some(p.objectType), Some(p.objectNumber))), [], 0);
    assert 1 in s.breakpoints[f];
    assert !ArmedAt(s, 1);
  }

  // ----- Which file names -----

  /** Which files set breakpoints of which objects. */
  type Uses = (string, int, int) -> bool

  predicate Obeys(c: Command, uses: Uses) {
    c.CmdSetBreakpoints? ==> uses(c.file, c.objectType, c.objectNumber)
  }

  predicate ObeyAll(commands: seq<Command>, uses: Uses) {
    forall i :: 0 <= i < |commands| ==> Obeys(commands[i], uses)
  }

  /** Every run keeps every tracked position armed. */
  ghost predicate AlwaysComplete(uses: Uses) {
    forall commands :: ObeyAll(commands, uses) && Run(commands).Some? ==> Complete(Run(commands).value)
  }

  ghost predicate OneNameEach(uses: Uses) {
    forall f, g, objectType, objectNumber ::
      uses(f, objectType, objectNumber) && uses(g, objectType, objectNumber) ==> f == g
  }

  ghost function Owner(uses: Uses): (int, int) -> string {
    (objectType, objectNumber) =>
      if exists f :: uses(f, objectType, objectNumber) then
        var f :| uses(f, objectType, objectNumber);
        f
      else ""
  }

  lemma {:induction false} OwnerUses(uses: Uses, c: Command)
    requires OneNameEach(uses) && Obeys(c, uses)
    ensures SetsOwn(c, Owner(uses))
  {
  }

  /** The position of every tracked breakpoint is armed after every run if and only if the
      breakpoints of each object are set under one file name only. */
  lemma {:induction false} NamesDecide(uses: Uses)
    ensures AlwaysComplete(uses) <==> OneNameEach(uses)
  {
    hide Complete, Run, SetsOwn, Obeys;
    if OneNameEach(uses) {
      forall commands | ObeyAll(commands, uses) && Run(commands).Some?
        ensures Complete(Run(commands).value)
      {
        forall i | 0 <= i < |commands| ensures SetsOwn(commands[i], Owner(uses)) {
          OwnerUses(uses, commands[i]);
        }
        RunComplete(commands, Owner(uses));
      }
    }
    forall f, g, objectType, objectNumber
      | uses(f, objectType, objectNumber) && uses(g, objectType, objectNumber) && f != g
      ensures !AlwaysComplete(uses)
    {
      TwoNamesBreak(uses, f, g, Position(objectType, objectNumber, 0));
    }
  }

  lemma {:induction false} TwoNamesBreak(uses: Uses, f: string, g: string, p: Position)
    requires f != g && uses(f, p.objectType, p.objectNumber) && uses(g, p.objectType, p.objectNumber)
    ensures !AlwaysComplete(uses)
  {
    hide Complete, Run;
    var s, hit := TwoNamesLoseABreakpoint(f, g, p);
    assert ObeyAll([SetOneLine(f, p, 1), SetOneLine(g, p, 2), Clear(g, p)], uses);
  }
}
