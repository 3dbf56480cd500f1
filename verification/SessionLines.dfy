/** The lines a client asked for and the lines it is told, as numbers. */
module SessionLines {
  import opened Options
  import opened SessionModel
  import opened SessionBreakpoints
  import opened SessionHits
  import opened SessionNaming

  /** Line `line` of a file, counted from 1, in an object that begins `-shift` lines below the top
      of the file, as the client is told of it: 0 stands for the object's first line and for all
      in front of it. Line 0 counts as line 1, and lines are 32-bit numbers. */
  function Told(line: nat, shift: int): nat {
    var n := (if line == 0 then 1 else line) + shift;
    if n <= 1 then 0 else n % 0x1_0000_0000
  }

  /** The call placed the breakpoint for its line `line`. */
  predicate PlacesLine(c: Command, id: int, line: nat) {
    c.CmdSetBreakpoints? &&
    exists i :: 0 <= i < |c.lines| && LinePlaced(c, i, id, line)
  }

  predicate LinePlaced(c: Command, i: nat, id: int, line: nat)
    requires c.CmdSetBreakpoints? && i < |c.lines|
  {
    && i < |c.replies| && c.replies[i].Definition? && c.replies[i].id == id && id != 0
    && (c.replies[i].echo == Absent || c.replies[i].echo == Object(Some(c.objectType), Some(c.objectNumber)))
    && c.lines[i].line == line
  }

  /** A hit of the breakpoint is told at the line that was asked for. */
  ghost predicate HitsTold(s: State, id: int, line: nat, shift: int) {
    forall k :: 0 <= k < |s.server.recorded| && s.server.recorded[k].hit.breakpointId == id ==>
      s.server.recorded[k].hit.location.line == Told(line, shift)
  }

  lemma {:induction false} ToldThrough(line: nat, shift: int)
    ensures ToClient(ServerLine(line, shift)) == Told(line, shift)
  {
  }

  lemma {:induction false} PlacedFor(s: State, c: Command, id: int, line: nat)
    requires Conserved(s) && Answered(s, c) && PlacesLine(c, id, line)
    ensures exists p: Position :: p.line == ServerLine(line, c.lineShift) && PlacedAt(Do(s, c).server, id, p)
  {
    hide Do, Conserved, ServerLine, Answered;
    var i :| 0 <= i < |c.lines| && LinePlaced(c, i, id, line);
    var a := CallOf(c);
    assert c == CommandFor(a, c.removals, c.replies);
    assert Met(a, c.replies, i);
    MetIsTracked(s, a, c.removals, c.replies, i);
    assert PlacedAt(Do(s, c).server, id, Asked(a, i));
  }

  lemma {:induction false} StaysPlaced(s: State, c: Command, id: int, p: Position)
    requires Conserved(s) && Answered(s, c) && PlacedAt(s.server, id, p)
    ensures PlacedAt(Do(s, c).server, id, p)
  {
    hide Conserved, Do, Answered;
    if c.CmdSetBreakpoints? {
      SetBreakpointsKeepsPlaced(s, c);
    } else {
      OtherCommandsKeepBreakpoints(s, c);
    }
  }

  /** Once placed, a breakpoint is known at its position for the rest of the run. */
  lemma {:induction false} RunPlaces(commands: seq<Command>, k: nat, id: int, line: nat)
    requires Run(commands).Some? && k < |commands| && PlacesLine(commands[k], id, line)
    ensures exists p: Position :: p.line == ServerLine(line, commands[k].lineShift)
                                  && PlacedAt(Run(commands).value.server, id, p)
  {
    hide Conserved, Do, Answered, ServerLine, PlacedAt, PlacesLine;
    var n := |commands| - 1;
    RunConserves(commands[..n]);
    var before := Run(commands[..n]).value;
    OnlySets(commands[k], id, line);
    if k == n {
      PlacedFor(before, commands[n], id, line);
    } else {
      assert commands[..n][k] == commands[k];
      RunPlaces(commands[..n], k, id, line);
      var p: Position :| p.line == ServerLine(line, commands[k].lineShift) && PlacedAt(before.server, id, p);
      StaysPlaced(before, commands[n], id, p);
    }
  }

  lemma {:induction false} OnlySets(c: Command, id: int, line: nat)
    requires PlacesLine(c, id, line)
    ensures c.CmdSetBreakpoints?
  {
  }

  lemma {:induction false} HitsAtPlace(s: State, id: int, p: Position)
    requires AllNamesPlaced(s) && PlacedAt(s.server, id, p) && id != 0
    ensures forall k :: 0 <= k < |s.server.recorded| && s.server.recorded[k].hit.breakpointId == id ==>
              s.server.recorded[k].hit.location.line == ToClient(p.line)
  {
    hide ToClient;
    forall k | 0 <= k < |s.server.recorded| && s.server.recorded[k].hit.breakpointId == id
      ensures s.server.recorded[k].hit.location.line == ToClient(p.line)
    {
      assert NamesPlaced(s.server, s.server.recorded[k]);
    }
  }

  /** In every run a hit that names the breakpoint of a line tells that line, moved by the shift
      that was asked for. */
  lemma {:induction false} RunTellsLines(commands: seq<Command>, k: nat, id: int, line: nat)
    requires Run(commands).Some? && k < |commands| && PlacesLine(commands[k], id, line)
    ensures commands[k].CmdSetBreakpoints? && HitsTold(Run(commands).value, id, line, commands[k].lineShift)
  {
    hide Run, ServerLine, ToClient, Told, AllNamesPlaced, PlacedAt;
    RunNames(commands);
    RunPlaces(commands, k, id, line);
    var s, shift := Run(commands).value, commands[k].lineShift;
    var p: Position :| p.line == ServerLine(line, shift) && PlacedAt(s.server, id, p);
    ToldThrough(line, shift);
    HitsAtPlace(s, id, p);
  }

  /** Without a shift that is the very line, if and only if it is not line 1. */
  lemma {:induction false} SameLineTold(line: nat)
    requires line < 0x1_0000_0000
    ensures Told(line, 0) == line <==> line != 1
  {
  }

  /** With one, the line is told moved by it, down to the object's second line. */
  lemma {:induction false} MovedLineTold(line: nat, shift: int)
    requires 0 < line && line + shift < 0x1_0000_0000
    ensures Told(line, shift) == line + shift <==> line + shift == 0 || line + shift >= 2
  {
  }

  /** What else a recorded Break says. */
  lemma {:induction false} BreakTells(s: State, e: Event, seqNo: nat)
    requires e.Break?
    ensures var recorded := HandleEvent(s, e, seqNo).server.recorded;
            && |recorded| == |s.server.recorded| + 1
            && var entry := recorded[|recorded| - 1];
            && entry.hit.seqNo == seqNo && entry.hit.variables == []
            && match e.location
               case None => entry.hit.location == Location(0, 0, None) && entry.at == None
               case Some(l) =>
                 && entry.hit.location.line == Told(if l.line == 0 then 0 else l.line + 1, 0)
                 && entry.hit.location.column == Told(if l.column == 0 then 0 else l.column + 1, 0)
                 && entry.hit.location.procedure == l.procedure
                 && (entry.at.Some? <==> l.objectType.Some? && l.objectNumber.Some?)
                 && (entry.at.Some? ==>
                       entry.at.value == Position(l.objectType.value, l.objectNumber.value, l.line))
  {
    hide PushCapped;
  }
}
