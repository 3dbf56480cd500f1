/** Several writers that mark a generation behind every single change, read without a lock
    while their steps interleave. */
module SnapshotWriters {
  import opened Sorting
  import opened Snapshot
  import opened SnapshotBatches

  // ----- One change per mark -----

  lemma {:induction false} WindowOfOne(change: Change, a: nat, b: nat)
    requires a <= b <= 2
    ensures OneFile(StepsOf(change)[a..b], change.path)
  {
  }

  lemma {:induction false} MarkEachAt(changes: seq<Change>)
    requires changes != []
    ensures |StepsOf(changes[0])| == 2
    ensures MarkEach(changes) == StepsOf(changes[0]) + [Mark] + MarkEach(changes[1..])
  {
  }

  predicate Unmarked(log: seq<Step>, a: nat, b: nat)
    requires b <= |log|
  {
    forall i :: a <= i < b ==> !log[i].Mark?
  }

  /** Between two marks of such a writer only one file changes. */
  lemma {:induction false} BetweenMarks(changes: seq<Change>, a: nat, b: nat) returns (p: Path)
    requires a <= b <= |MarkEach(changes)| && Unmarked(MarkEach(changes), a, b)
    ensures OneFile(MarkEach(changes)[a..b], p)
    decreases |changes|
  {
    if a == b {
      p := [];
    } else {
      hide MarkEach, OneFile, StepsOf, Unmarked;
      MarkEachAt(changes);
      if a >= 3 {
        LaterWindow(changes, a, b);
        p := BetweenMarks(changes[1..], a - 3, b - 3);
      } else {
        p := changes[0].path;
        FirstWindow(changes, a, b);
      }
    }
  }

  lemma {:induction false} LaterWindow(changes: seq<Change>, a: nat, b: nat)
    requires changes != [] && 3 <= a <= b <= |MarkEach(changes)| && Unmarked(MarkEach(changes), a, b)
    ensures b - 3 <= |MarkEach(changes[1..])|
    ensures MarkEach(changes)[a..b] == MarkEach(changes[1..])[a - 3..b - 3]
    ensures Unmarked(MarkEach(changes[1..]), a - 3, b - 3)
  {
    hide MarkEach, StepsOf;
    MarkEachAt(changes);
    assert forall i :: a - 3 <= i < b - 3 ==> MarkEach(changes[1..])[i] == MarkEach(changes)[i + 3];
  }

  lemma {:induction false} FirstWindow(changes: seq<Change>, a: nat, b: nat)
    requires changes != [] && a < 3 && a < b <= |MarkEach(changes)| && Unmarked(MarkEach(changes), a, b)
    ensures OneFile(MarkEach(changes)[a..b], changes[0].path)
  {
    hide MarkEach, OneFile, StepsOf;
    MarkEachAt(changes);
    assert MarkEach(changes)[2] == Mark;
    WindowOfOne(changes[0], a, b);
    assert MarkEach(changes)[a..b] == StepsOf(changes[0])[a..b];
  }

  // ----- Interleaved writers -----

  /** The steps of one writer in a log whose steps have owners. */
  function OwnSteps(log: seq<Step>, owners: seq<nat>, w: nat): seq<Step>
    requires |owners| == |log|
  {
    if log == [] then [] else
    var n := |log| - 1;
    OwnSteps(log[..n], owners[..n], w) + if owners[n] == w then [log[n]] else []
  }

  /** Each writer makes its changes in order and marks each of them; how far each one has come,
      and how their steps interleave, is open. */
  ghost predicate Interleaves(log: seq<Step>, owners: seq<nat>, writers: seq<seq<Change>>) {
    && |owners| == |log|
    && (forall i :: 0 <= i < |owners| ==> owners[i] < |writers|)
    && (forall w :: 0 <= w < |writers| ==> OwnSteps(log, owners, w) <= MarkEach(writers[w]))
  }

  /** Steps of different writers in this part of the log put, or drop, parts of the same file. */
  predicate Agreeing(log: seq<Step>, owners: seq<nat>, a: nat, b: nat)
    requires |owners| == |log| && b <= |log|
  {
    forall i, j :: a <= i < j < b && !log[i].Mark? && !log[j].Mark? && owners[i] != owners[j] ==>
      log[i].path == log[j].path && Puts(log[i]) == Puts(log[j])
  }

  lemma {:induction false} OwnPart(log: seq<Step>, owners: seq<nat>, a: nat, b: nat, w: nat)
    requires a <= b <= |log| == |owners| && forall i :: a <= i < b ==> owners[i] == w
    ensures OwnSteps(log[..b], owners[..b], w) == OwnSteps(log[..a], owners[..a], w) + log[a..b]
    decreases b - a
  {
    if a < b {
      OwnPart(log, owners, a, b - 1, w);
      assert log[..b][..b - 1] == log[..b - 1] && owners[..b][..b - 1] == owners[..b - 1];
      assert log[a..b] == log[a..b - 1] + [log[b - 1]];
    } else {
      assert log[a..b] == [];
    }
  }

  lemma {:induction false} OwnGrows(log: seq<Step>, owners: seq<nat>, b: nat, w: nat)
    requires b <= |log| == |owners|
    ensures OwnSteps(log[..b], owners[..b], w) <= OwnSteps(log, owners, w)
    decreases |log| - b
  {
    if b < |log| {
      OwnGrows(log, owners, b + 1, w);
      assert log[..b + 1][..b] == log[..b] && owners[..b + 1][..b] == owners[..b];
    } else {
      assert log[..b] == log && owners[..b] == owners;
    }
  }

  /** Without marks, what a single writer does is one change. */
  lemma {:induction false} AloneIsOneFile(writers: seq<seq<Change>>, log: seq<Step>, owners: seq<nat>, a: nat, b: nat,
                                          w: nat)
    returns (p: Path)
    requires Interleaves(log, owners, writers) && a <= b <= |log| && w < |writers|
    requires forall i :: a <= i < b ==> owners[i] == w && !log[i].Mark?
    ensures OneFile(log[a..b], p)
  {
    hide MarkEach, OneFile, OwnSteps;
    OwnPart(log, owners, a, b, w);
    OwnGrows(log, owners, b, w);
    var program, x := MarkEach(writers[w]), |OwnSteps(log[..a], owners[..a], w)|;
    var y := x + (b - a);
    assert OwnSteps(log, owners, w) <= program;
    assert log[a..b] == program[x..y];
    forall i | x <= i < y ensures !program[i].Mark? {
      assert program[i] == log[a..b][i - x] == log[a + i - x];
    }
    p := BetweenMarks(writers[w], x, y);
  }

  /** Where two writers agree, everyone does. */
  lemma {:induction false} AgreeingIsOneFile(log: seq<Step>, owners: seq<nat>, a: nat, b: nat, i: nat, j: nat)
    requires |owners| == |log| && a <= i < j < b <= |log| && owners[i] != owners[j]
    requires Agreeing(log, owners, a, b) && forall k :: a <= k < b ==> !log[k].Mark?
    ensures OneFile(log[a..b], log[i].path)
  {
    forall k | a <= k < b ensures log[k].path == log[i].path && Puts(log[k]) == Puts(log[i]) {
      assert log[j].path == log[i].path && Puts(log[j]) == Puts(log[i]);
      if owners[k] == owners[i] {
        assert k < j || k > j;
      } else {
        assert k < i || k > i;
      }
    }
    forall k | 0 <= k < b - a ensures log[a..b][k] == log[a + k] {
    }
  }

  /** Any number of writers that mark every single change, interleaved in any way: a successful
      snapshot is the contents of one state if, while it is taken, no two of them are in the
      middle of changes to different files, or of an update and a removal of one file. */
  lemma {:induction false} MarkEachIsAtomic(writers: seq<seq<Change>>, layout: Layout, s: State, log: seq<Step>,
                                            owners: seq<nat>, at: seq<nat>, paths: seq<Path>, list: seq<Source>)
    requires Interleaves(log, owners, writers) && |log| < REVISIONS
    requires Succeeds(layout, s, log, at, paths, list)
    requires Agreeing(log, owners, at[0], at[|at| - 1])
    ensures AtOneInstant(list, s, log, at)
  {
    hide Answers, After, IsContents, OneFile, Interleaves, Agreeing;
    var a, b := at[0], at[|at| - 1];
    OwnersMatch(log, owners, writers);
    NoMarks(log[a..b]);
    SuccessSeesNoMark(layout, s, log, at, paths, list);
    var p: Path := [];
    if i: nat, j: nat :| a <= i < j < b && owners[i] != owners[j] {
      AgreeingIsOneFile(log, owners, a, b, i, j);
      p := log[i].path;
    } else if a < b {
      OwnerIsWriter(log, owners, writers, a);
      forall i | a <= i < b ensures owners[i] == owners[a] {
        assert i == a || owners[a] == owners[i];
      }
      p := AloneIsOneFile(writers, log, owners, a, b, owners[a]);
    } else {
      assert log[a..b] == [];
      NothingIsOneFile(p);
    }
    OneFileIsAtomic(layout, s, log, at, paths, list, p);
  }

  lemma {:induction false} OwnersMatch(log: seq<Step>, owners: seq<nat>, writers: seq<seq<Change>>)
    requires Interleaves(log, owners, writers)
    ensures |owners| == |log|
  {
  }

  lemma {:induction false} OwnerIsWriter(log: seq<Step>, owners: seq<nat>, writers: seq<seq<Change>>, i: nat)
    requires Interleaves(log, owners, writers) && i < |log|
    ensures |owners| == |log| && owners[i] < |writers|
  {
  }

  lemma {:induction false} NothingIsOneFile(p: Path)
    ensures OneFile([], p)
  {
  }

  /** A writer begins a change only behind the mark of the last writer's change. */
  predicate TakesTurns(log: seq<Step>, owners: seq<nat>)
    requires |owners| == |log|
  {
    forall i, j :: 0 <= i < j < |log| && !log[i].Mark? && !log[j].Mark? && owners[i] != owners[j] ==>
      exists k :: i < k < j && log[k].Mark?
  }

  /** So it is whenever the writers take turns, as they do if each holds a lock from its first
      step to its mark: the reader needs none. */
  lemma {:induction false} TurnsAreAtomic(writers: seq<seq<Change>>, layout: Layout, s: State, log: seq<Step>,
                                          owners: seq<nat>, at: seq<nat>, paths: seq<Path>, list: seq<Source>)
    requires Interleaves(log, owners, writers) && |log| < REVISIONS
    requires |owners| == |log| && TakesTurns(log, owners)
    requires Succeeds(layout, s, log, at, paths, list)
    ensures AtOneInstant(list, s, log, at)
  {
    hide Answers, After, IsContents, Interleaves;
    NoMarks(log[at[0]..at[|at| - 1]]);
    SuccessSeesNoMark(layout, s, log, at, paths, list);
    MarkEachIsAtomic(writers, layout, s, log, owners, at, paths, list);
  }

  /** In particular a single writer at work is safe, wherever in its work the reader starts and
      stops. */
  lemma {:induction false} OneWriterIsAtomic(changes: seq<Change>, layout: Layout, s: State, log: seq<Step>,
                                             at: seq<nat>, paths: seq<Path>, list: seq<Source>)
    requires log <= MarkEach(changes) && |log| < REVISIONS
    requires Succeeds(layout, s, log, at, paths, list)
    ensures AtOneInstant(list, s, log, at)
  {
    hide Succeeds, Answers, After, AtOneInstant, MarkEach, OwnSteps;
    TimesOf(layout, s, log, at, paths, list);
    var owners := seq(|log|, _ => 0);
    AllOwn(log, owners);
    MarkEachIsAtomic([changes], layout, s, log, owners, at, paths, list);
  }

  lemma {:induction false} AllOwn(log: seq<Step>, owners: seq<nat>)
    requires |owners| == |log| && forall i :: 0 <= i < |owners| ==> owners[i] == 0
    ensures OwnSteps(log, owners, 0) == log
  {
    OwnPart(log, owners, 0, |log|, 0);
    assert log[..|log|] == log && owners[..|owners|] == owners;
  }

  // ----- Changes made at the same time -----

  function OneEach(changes: seq<Change>): (writers: seq<seq<Change>>)
    ensures |writers| == |changes| && forall w :: 0 <= w < |changes| ==> writers[w] == [changes[w]]
  {
    seq(|changes|, w requires 0 <= w < |changes| => [changes[w]])
  }

  /** However writers with one change each interleave, and wherever the reader meets them, a
      successful snapshot is one state. */
  ghost predicate SafeTogether(changes: seq<Change>) {
    forall layout: Layout, s: State, log: seq<Step>, owners: seq<nat>, at: seq<nat>, paths: seq<Path>,
           list: seq<Source> ::
      Interleaves(log, owners, OneEach(changes)) && Settled(s) && Succeeds(layout, s, log, at, paths, list) ==>
        AtOneInstant(list, s, log, at)
  }

  /** All update the same file, or all remove it. */
  predicate Alike(changes: seq<Change>) {
    forall i, j :: 0 <= i < j < |changes| ==>
      changes[i].path == changes[j].path && changes[i].Update? == changes[j].Update?
  }

  lemma {:induction false} OneMarked(change: Change)
    ensures MarkEach([change]) == StepsOf(change) + [Mark]
  {
    assert MarkEach([change][1..]) == [];
  }

  lemma {:induction false} OwnIsIn(log: seq<Step>, owners: seq<nat>, w: nat, i: nat)
    requires i < |log| == |owners| && owners[i] == w
    ensures log[i] in OwnSteps(log, owners, w)
  {
    var n := |log| - 1;
    if i < n {
      OwnIsIn(log[..n], owners[..n], w, i);
    }
  }

  /** Every step but a mark belongs to the change of its owner. */
  lemma {:induction false} StepOfOwner(changes: seq<Change>, log: seq<Step>, owners: seq<nat>, i: nat)
    requires Interleaves(log, owners, OneEach(changes)) && i < |log| && !log[i].Mark?
    ensures owners[i] < |changes|
    ensures log[i].path == changes[owners[i]].path && Puts(log[i]) == changes[owners[i]].Update?
  {
    hide OwnSteps;
    var w := owners[i];
    OwnIsIn(log, owners, w, i);
    OneMarked(changes[w]);
    assert OneEach(changes)[w] == [changes[w]];
    assert log[i] in MarkEach([changes[w]]);
  }

  function SumOwn(log: seq<Step>, owners: seq<nat>, n: nat): nat
    requires |owners| == |log|
  {
    if n == 0 then 0 else SumOwn(log, owners, n - 1) + |OwnSteps(log, owners, n - 1)|
  }

  lemma {:induction false} NothingOwned(n: nat)
    ensures SumOwn([], [], n) == 0
  {
    if n > 0 {
      NothingOwned(n - 1);
    }
  }

  lemma {:induction false} OneMoreOwned(log: seq<Step>, owners: seq<nat>, n: nat)
    requires |owners| == |log| > 0
    ensures var m := |log| - 1;
            SumOwn(log, owners, n) == SumOwn(log[..m], owners[..m], n) + if owners[m] < n then 1 else 0
  {
    if n > 0 {
      OneMoreOwned(log, owners, n - 1);
    }
  }

  lemma {:induction false} AllOwned(log: seq<Step>, owners: seq<nat>, n: nat)
    requires |owners| == |log| && forall i :: 0 <= i < |owners| ==> owners[i] < n
    ensures SumOwn(log, owners, n) == |log|
  {
    if log == [] {
      NothingOwned(n);
    } else {
      hide SumOwn;
      AllOwned(log[..|log| - 1], owners[..|log| - 1], n);
      OneMoreOwned(log, owners, n);
    }
  }

  lemma {:induction false} AtMostThreeEach(changes: seq<Change>, log: seq<Step>, owners: seq<nat>, n: nat)
    requires Interleaves(log, owners, OneEach(changes)) && n <= |changes|
    ensures SumOwn(log, owners, n) <= 3 * n
  {
    hide OwnSteps;
    if n > 0 {
      AtMostThreeEach(changes, log, owners, n - 1);
      OneMarked(changes[n - 1]);
      assert OneEach(changes)[n - 1] == [changes[n - 1]];
      assert OwnSteps(log, owners, n - 1) <= MarkEach([changes[n - 1]]);
    }
  }

  lemma {:induction false} AlikeIsSafe(changes: seq<Change>)
    requires Alike(changes) && 3 * |changes| < REVISIONS
    ensures SafeTogether(changes)
  {
    hide Answers, Succeeds, AtOneInstant, After, Interleaves, OwnSteps;
    forall layout: Layout, s: State, log: seq<Step>, owners: seq<nat>, at: seq<nat>, paths: seq<Path>, list: seq<Source>
      | Interleaves(log, owners, OneEach(changes)) && Settled(s) && Succeeds(layout, s, log, at, paths, list)
      ensures |at| > 0 && Times(log, at) && AtOneInstant(list, s, log, at)
    {
      TimesOf(layout, s, log, at, paths, list);
      OwnersMatch(log, owners, OneEach(changes));
      forall i | 0 <= i < |log| ensures owners[i] < |changes| {
        OwnerIsWriter(log, owners, OneEach(changes), i);
      }
      AllOwned(log, owners, |changes|);
      AtMostThreeEach(changes, log, owners, |changes|);
      forall i, j | at[0] <= i < j < at[|at| - 1] && !log[i].Mark? && !log[j].Mark? && owners[i] != owners[j]
        ensures log[i].path == log[j].path && Puts(log[i]) == Puts(log[j])
      {
        StepOfOwner(changes, log, owners, i);
        StepOfOwner(changes, log, owners, j);
        assert owners[i] < owners[j] || owners[j] < owners[i];
      }
      MarkEachIsAtomic(OneEach(changes), layout, s, log, owners, at, paths, list);
    }
  }

  // ----- Two writers that are read torn -----

  /** A successful run that is no state, over steps of two of the writers. */
  ghost predicate Torn(layout: Layout, s: State, log: seq<Step>, at: seq<nat>, paths: seq<Path>, list: seq<Source>) {
    Settled(s) && Succeeds(layout, s, log, at, paths, list) && !AtOneInstant(list, s, log, at)
  }

  lemma {:induction false} TornTogether(changes: seq<Change>, layout: Layout, s: State, log: seq<Step>,
                                        owners: seq<nat>, at: seq<nat>, paths: seq<Path>, list: seq<Source>)
    requires Interleaves(log, owners, OneEach(changes)) && Torn(layout, s, log, at, paths, list)
    ensures !SafeTogether(changes)
  {
    hide Succeeds, AtOneInstant, Interleaves;
  }

  /** One writer's change is made before the first steps of the other's. */
  lemma {:induction false} OneAfterTheOther(changes: seq<Change>, i: nat, j: nat, a: nat, b: nat)
    requires i < |changes| && j < |changes| && i != j && 1 <= a <= 2 && 1 <= b <= 2
    ensures Interleaves(StepsOf(changes[i])[..a] + StepsOf(changes[j])[..b],
                        seq(a + b, k => if k < a then i else j), OneEach(changes))
  {
    hide OwnSteps;
    var first, last := StepsOf(changes[i])[..a], StepsOf(changes[j])[..b];
    var log, owners := first + last, seq(a + b, k => if k < a then i else j);
    forall w | 0 <= w < |changes|
      ensures OwnSteps(log, owners, w) <= MarkEach(OneEach(changes)[w])
    {
      OneMarked(changes[w]);
      OwnOfTwo(first, last, i, j, w);
    }
  }

  lemma {:induction false} NoneOwned(log: seq<Step>, owners: seq<nat>, w: nat)
    requires |owners| == |log| && w !in owners
    ensures OwnSteps(log, owners, w) == []
  {
    if log != [] {
      NoneOwned(log[..|log| - 1], owners[..|log| - 1], w);
    }
  }

  lemma {:induction false} OwnBehind(first: seq<Step>, last: seq<Step>, firsts: seq<nat>, lasts: seq<nat>, w: nat)
    requires |firsts| == |first| && |lasts| == |last|
    ensures OwnSteps(first + last, firsts + lasts, w) == OwnSteps(first, firsts, w) + OwnSteps(last, lasts, w)
  {
    if last != [] {
      var n := |last| - 1;
      OwnBehind(first, last[..n], firsts, lasts[..n], w);
      assert (first + last)[..|first| + n] == first + last[..n];
      assert (firsts + lasts)[..|first| + n] == firsts + lasts[..n];
    } else {
      assert first + last == first && firsts + lasts == firsts;
    }
  }

  lemma {:induction false} OwnOfTwo(first: seq<Step>, last: seq<Step>, i: nat, j: nat, w: nat)
    requires i != j
    ensures var a, b := |first|, |last|;
            OwnSteps(first + last, seq(a + b, k => if k < a then i else j), w)
            == if w == i then first else if w == j then last else []
  {
    hide OwnSteps;
    var a, b := |first|, |last|;
    var firsts, lasts := seq(a, _ => i), seq(b, _ => j);
    assert seq(a + b, k => if k < a then i else j) == firsts + lasts;
    OwnBehind(first, last, firsts, lasts, w);
    OwnOfOne(first, firsts, i, w);
    OwnOfOne(last, lasts, j, w);
  }

  lemma {:induction false} OwnOfOne(log: seq<Step>, owners: seq<nat>, i: nat, w: nat)
    requires |owners| == |log| && forall k :: 0 <= k < |owners| ==> owners[k] == i
    ensures OwnSteps(log, owners, w) == if w == i then log else []
  {
    if w == i {
      OwnPart(log, owners, 0, |log|, i);
      assert log[..|log|] == log && owners[..|owners|] == owners;
    } else {
      NoneOwned(log, owners, w);
    }
  }

  lemma {:induction false} TwoSteps(c: Change, d: Change)
    ensures StepsOfAll([c, d]) == StepsOf(c) + StepsOf(d)
    ensures StepsOf(c)[..2] == StepsOf(c) && StepsOf(d)[..2] == StepsOf(d)
    ensures StepsOfAll([c, d])[..4] == StepsOfAll([c, d])
  {
    assert [c, d][1..] == [d] && [d][1..] == [];
    assert StepsOfAll([d]) == StepsOf(d);
  }

  lemma {:induction false} TwoUpdatesTogether(changes: seq<Change>, i: nat, j: nat)
    requires i < |changes| && j < |changes| && i != j && changes[i].path != changes[j].path
    requires changes[i].Update? && changes[j].Update?
    ensures !SafeTogether(changes)
  {
    hide SafeTogether, TornAt, Interleaves, AtOneInstant, Succeeds, StepsOf, StepsOfAll;
    var two, q, parse := [changes[i], changes[j]], changes[j].path, changes[j].parse;
    UpdatesTorn(two, 0, 1);
    TornIsUnsafe(two, Layout(_ => 0, 1), Before(q, parse), 4, [0, 0, 4, 4], [q], [Source(q, parse)]);
    TornRun(two, Layout(_ => 0, 1), Before(q, parse), 4, [0, 0, 4, 4], [q], [Source(q, parse)]);
    TwoSteps(changes[i], changes[j]);
    OneAfterTheOther(changes, i, j, 2, 2);
    TornTogether(changes, Layout(_ => 0, 1), Before(q, parse), StepsOfAll(two),
                 seq(4, k => if k < 2 then i else j), [0, 0, 4, 4], [q], [Source(q, parse)]);
  }

  lemma {:induction false} TornRun(changes: seq<Change>, layout: Layout, s: State, t: nat, at: seq<nat>,
                                   paths: seq<Path>, list: seq<Source>)
    requires TornAt(changes, layout, s, t, at, paths, list)
    ensures t <= |StepsOfAll(changes)| && Torn(layout, s, StepsOfAll(changes)[..t], at, paths, list)
  {
    hide Answers, After, StepsOfAll, AtOneInstant;
    TornIsUnsafe(changes, layout, s, t, at, paths, list);
  }

  lemma {:induction false} UpdateRemoveTogether(changes: seq<Change>, i: nat, j: nat)
    requires i < |changes| && j < |changes| && changes[i].path != changes[j].path
    requires changes[i].Update? && changes[j].Remove?
    ensures !SafeTogether(changes)
  {
    hide SafeTogether, TornAt, Interleaves, AtOneInstant, Succeeds, StepsOf, StepsOfAll;
    var two, q := [changes[i], changes[j]], changes[j].path;
    var layout, s := Layout(x => if x == q then 1 else 0, 2), State({q}, map[q := NO_PARSE], 0);
    UpdateRemoveTorn(two, 0);
    TornRun(two, Layout(x => if x == q then 1 else 0, 2), s, 4, [0, 0, 4, 4], [], []);
    TwoSteps(changes[i], changes[j]);
    OneAfterTheOther(changes, i, j, 2, 2);
    TornTogether(changes, Layout(x => if x == q then 1 else 0, 2), s, StepsOfAll(two),
                 seq(4, k => if k < 2 then i else j), [0, 0, 4, 4], [], []);
  }

  /** Both files are unlisted between the visits of their shards. */
  lemma {:induction false} TwoRemovesTogether(changes: seq<Change>, i: nat, j: nat)
    requires i < |changes| && j < |changes| && changes[i].path != changes[j].path
    requires changes[i].Remove? && changes[j].Remove?
    ensures !SafeTogether(changes)
  {
    hide SafeTogether, Interleaves;
    var p, q := changes[i].path, changes[j].path;
    var layout := Layout(x => if x == p then 0 else 1, 2);
    var s, log := State({p, q}, map[p := NO_PARSE, q := NO_PARSE], 0), [DropFile(p), DropFile(q)];
    UnlistedTorn(p, q);
    OneAfterTheOther(changes, i, j, 1, 1);
    assert StepsOf(changes[i])[..1] + StepsOf(changes[j])[..1] == log;
    TornTogether(changes, layout, s, log, seq(2, k => if k < 1 then i else j), [0, 0, 2, 2, 2], [p],
                 [Source(p, NO_PARSE)]);
  }

  lemma {:induction false} AfterTwo(s: State, x: Step, y: Step)
    ensures After(s, [x, y][..0]) == s && After(s, [x, y][..1]) == Do(s, x)
    ensures After(s, [x, y][..2]) == Do(Do(s, x), y)
  {
    AfterStep(s, [x, y], 0);
    AfterStep(s, [x, y], 1);
  }

  lemma {:induction false} OneListed(p: Path, parse: Parse, x: State)
    ensures IsContents([Source(p, parse)], x) <==> x.files == {p} && p in x.trees && x.trees[p] == parse
  {
    var list := [Source(p, parse)];
    assert list[0].path == p && list[0].parse == parse;
  }

  lemma {:induction false} UnlistedSucceeds(p: Path, q: Path)
    requires p != q
    ensures Succeeds(Layout(x => if x == p then 0 else 1, 2), State({p, q}, map[p := NO_PARSE, q := NO_PARSE], 0),
                     [DropFile(p), DropFile(q)], [0, 0, 2, 2, 2], [p], [Source(p, NO_PARSE)])
  {
    hide After, PathLess;
    var s, log := State({p, q}, map[p := NO_PARSE, q := NO_PARSE], 0), [DropFile(p), DropFile(q)];
    AfterTwo(s, log[0], log[1]);
  }

  lemma {:induction false} UnlistedTorn(p: Path, q: Path)
    requires p != q
    ensures Torn(Layout(x => if x == p then 0 else 1, 2), State({p, q}, map[p := NO_PARSE, q := NO_PARSE], 0),
                 [DropFile(p), DropFile(q)], [0, 0, 2, 2, 2], [p], [Source(p, NO_PARSE)])
  {
    hide After, IsContents, Answers;
    var s, log := State({p, q}, map[p := NO_PARSE, q := NO_PARSE], 0), [DropFile(p), DropFile(q)];
    UnlistedSucceeds(p, q);
    AfterTwo(s, log[0], log[1]);
    forall t: nat | t <= 2 ensures !IsContents([Source(p, NO_PARSE)], After(s, log[..t])) {
      OneListed(p, NO_PARSE, After(s, log[..t]));
      assert t == 0 || t == 1 || t == 2;
    }
  }

  lemma {:induction false} RemoveUpdateTogether(changes: seq<Change>, i: nat, j: nat)
    requires i < |changes| && j < |changes| && changes[i].path == changes[j].path
    requires changes[i].Remove? && changes[j].Update?
    ensures !SafeTogether(changes)
  {
    hide SafeTogether, Interleaves;
    var p, parse := changes[i].path, changes[j].parse;
    var log := [DropFile(p), DropTree(p), PutTree(p, parse)];
    ReplacedTorn(p, parse);
    OneAfterTheOther(changes, i, j, 2, 1);
    assert StepsOf(changes[i])[..2] + StepsOf(changes[j])[..1] == log;
    TornTogether(changes, Layout(_ => 0, 1), Before(p, parse), log, seq(3, k => if k < 2 then i else j),
                 [0, 0, 3, 3], [p], [Source(p, parse)]);
  }

  /** A file is listed with its old text and read with a new one that is not listed yet. */
  lemma {:induction false} ReplacedTorn(p: Path, parse: Parse)
    ensures Torn(Layout(_ => 0, 1), Before(p, parse), [DropFile(p), DropTree(p), PutTree(p, parse)], [0, 0, 3, 3], [p],
                 [Source(p, parse)])
  {
    hide After, IsContents;
    var s, log := Before(p, parse), [DropFile(p), DropTree(p), PutTree(p, parse)];
    AfterStep(s, log, 0);
    AfterStep(s, log, 1);
    AfterStep(s, log, 2);
    AfterTwo(s, Mark, Mark);
    assert log[..0] == [Mark, Mark][..0];
    assert parse.text + " " != parse.text;
    forall t: nat | t <= 3 ensures !IsContents([Source(p, parse)], After(s, log[..t])) {
      OneListed(p, parse, After(s, log[..t]));
      assert t == 0 || t == 1 || t == 2 || t == 3;
    }
  }

  /** Writers that make one change each and mark it are safe together if and only if all of them
      update, or all of them remove, the same file. */
  lemma {:induction false} TogetherSafety(changes: seq<Change>)
    requires 3 * |changes| < REVISIONS
    ensures SafeTogether(changes) <==> Alike(changes)
  {
    hide SafeTogether;
    if Alike(changes) {
      AlikeIsSafe(changes);
    } else {
      var i, j :| 0 <= i < j < |changes| &&
                  (changes[i].path != changes[j].path || changes[i].Update? != changes[j].Update?);
      if changes[i].Update? && changes[j].Update? {
        TwoUpdatesTogether(changes, i, j);
      } else if changes[i].Remove? && changes[j].Remove? {
        TwoRemovesTogether(changes, i, j);
      } else {
        var u, r := if changes[i].Update? then i else j, if changes[i].Update? then j else i;
        if changes[u].path != changes[r].path {
          UpdateRemoveTogether(changes, u, r);
        } else {
          RemoveUpdateTogether(changes, r, u);
        }
      }
    }
  }
}
