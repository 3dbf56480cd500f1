/** Writers that mark one generation behind a batch of changes, read without a lock. */
module SnapshotBatches {
  import opened Sorting
  import opened Snapshot

  /** However the reader meets the writer's steps, a successful snapshot is one state. */
  ghost predicate SafeToRead(steps: seq<Step>) {
    forall layout: Layout, s: State, log: seq<Step>, at: seq<nat>, paths: seq<Path>, list: seq<Source> ::
      log <= steps && Settled(s) && Succeeds(layout, s, log, at, paths, list) ==> AtOneInstant(list, s, log, at)
  }

  predicate Updates(changes: seq<Change>) {
    forall i :: 0 <= i < |changes| ==> changes[i].Update?
  }

  predicate SamePath(changes: seq<Change>) {
    forall i, j :: 0 <= i < j < |changes| ==> changes[i].path == changes[j].path
  }

  predicate DistinctPaths(changes: seq<Change>) {
    forall i, j :: 0 <= i < j < |changes| ==> changes[i].path != changes[j].path
  }

  /** Removals first, and at most one update behind them, of a file that sorts before all the
      removed ones. */
  predicate Orderly(changes: seq<Change>) {
    && (forall i :: 0 <= i < |changes| - 1 ==> changes[i].Remove?)
    && (changes != [] && changes[|changes| - 1].Update? ==>
          forall i :: 0 <= i < |changes| - 1 ==> PathLess(changes[|changes| - 1].path, changes[i].path))
  }

  // ----- The steps of a batch -----

  function FirstStep(c: Change): Step {
    if c.Update? then PutTree(c.path, c.parse) else DropFile(c.path)
  }

  function SecondStep(c: Change): Step {
    if c.Update? then PutFile(c.path) else DropTree(c.path)
  }

  lemma {:induction false} BatchAt(changes: seq<Change>, k: nat)
    ensures |StepsOfAll(changes)| == 2 * |changes|
    ensures k < |changes| ==>
              && StepsOfAll(changes)[2 * k] == FirstStep(changes[k])
              && StepsOfAll(changes)[2 * k + 1] == SecondStep(changes[k])
  {
    if changes != [] {
      var first, rest := StepsOf(changes[0]), StepsOfAll(changes[1..]);
      BatchAt(changes[1..], if k == 0 then 0 else k - 1);
      assert StepsOfAll(changes) == first + rest;
    }
  }

  lemma {:induction false} BatchStep(changes: seq<Change>, i: nat)
    requires i < 2 * |changes|
    ensures |StepsOfAll(changes)| == 2 * |changes|
    ensures StepsOfAll(changes)[i] == if i % 2 == 0 then FirstStep(changes[i / 2]) else SecondStep(changes[i / 2])
  {
    hide StepsOfAll;
    BatchAt(changes, i / 2);
  }

  /** The state after the first `t` steps of the batch. */
  ghost function BatchState(s: State, changes: seq<Change>, t: nat): State {
    if t <= |StepsOfAll(changes)| then After(s, StepsOfAll(changes)[..t]) else s
  }

  lemma {:induction false} BatchNext(s: State, changes: seq<Change>, t: nat)
    requires t < 2 * |changes|
    ensures BatchState(s, changes, t + 1) ==
            Do(BatchState(s, changes, t), if t % 2 == 0 then FirstStep(changes[t / 2]) else SecondStep(changes[t / 2]))
  {
    hide StepsOfAll, After;
    BatchStep(changes, t);
    AfterStep(s, StepsOfAll(changes), t);
  }

  lemma {:induction false} BatchStart(s: State, changes: seq<Change>)
    ensures BatchState(s, changes, 0) == s
  {
  }

  /** Between two points no change to `q` is made. */
  lemma {:induction false} BatchUntouched(s: State, changes: seq<Change>, x: nat, y: nat, q: Path)
    requires x <= y <= 2 * |changes|
    requires forall i :: x <= i < y ==> changes[i / 2].path != q
    ensures SameFor(BatchState(s, changes, x), BatchState(s, changes, y), q)
  {
    hide StepsOfAll, After;
    BatchAt(changes, 0);
    forall i | x <= i < y && !StepsOfAll(changes)[i].Mark? ensures StepsOfAll(changes)[i].path != q {
      BatchStep(changes, i);
    }
    Untouched(s, StepsOfAll(changes), x, y, q);
  }

  lemma {:induction false} BatchRevision(s: State, changes: seq<Change>, t: nat)
    requires t <= 2 * |changes|
    ensures BatchState(s, changes, t).revision == s.revision
  {
    hide BatchState;
    if t > 0 {
      BatchRevision(s, changes, t - 1);
      BatchNext(s, changes, t - 1);
    } else {
      BatchStart(s, changes);
    }
  }

  // ----- What a batch of different files does to each of them -----

  lemma {:induction false} OtherAt(s: State, changes: seq<Change>, q: Path, t: nat)
    requires t <= 2 * |changes| && forall i :: 0 <= i < |changes| ==> changes[i].path != q
    ensures SameFor(s, BatchState(s, changes, t), q)
  {
    hide BatchState;
    BatchStart(s, changes);
    BatchUntouched(s, changes, 0, t, q);
  }

  /** A removed file is listed until the first step of its change and parsed until the second. */
  lemma {:induction false} RemovedAt(s: State, changes: seq<Change>, k: nat, t: nat)
    requires DistinctPaths(changes) && k < |changes| && changes[k].Remove? && t <= 2 * |changes|
    ensures var p, x := changes[k].path, BatchState(s, changes, t);
            && (p in x.files <==> t <= 2 * k && p in s.files)
            && (p in x.trees <==> t <= 2 * k + 1 && p in s.trees)
            && (p in x.trees ==> x.trees[p] == s.trees[p])
  {
    hide BatchState;
    var p := changes[k].path;
    BatchStart(s, changes);
    if t <= 2 * k {
      BatchUntouched(s, changes, 0, t, p);
    } else {
      BatchUntouched(s, changes, 0, 2 * k, p);
      BatchNext(s, changes, 2 * k);
      if t >= 2 * k + 2 {
        BatchNext(s, changes, 2 * k + 1);
        BatchUntouched(s, changes, 2 * k + 2, t, p);
      }
    }
  }

  /** An updated file has its new parse from the first step on and is listed from the second. */
  lemma {:induction false} UpdatedAt(s: State, changes: seq<Change>, k: nat, t: nat)
    requires DistinctPaths(changes) && k < |changes| && changes[k].Update? && t <= 2 * |changes|
    ensures var p, x := changes[k].path, BatchState(s, changes, t);
            && (p in x.files <==> t >= 2 * k + 2 || p in s.files)
            && (p in x.trees <==> t >= 2 * k + 1 || p in s.trees)
            && (p in x.trees ==> x.trees[p] == if t >= 2 * k + 1 then changes[k].parse else s.trees[p])
  {
    hide BatchState;
    var p := changes[k].path;
    BatchStart(s, changes);
    if t <= 2 * k {
      BatchUntouched(s, changes, 0, t, p);
    } else {
      BatchUntouched(s, changes, 0, 2 * k, p);
      BatchNext(s, changes, 2 * k);
      if t >= 2 * k + 2 {
        BatchNext(s, changes, 2 * k + 1);
        BatchUntouched(s, changes, 2 * k + 2, t, p);
      }
    }
  }

  // ----- Batches that are safe -----

  /** What a successful run saw of a file: whether it was listed at point `c`, the last listing
      being at `last`, and if so which parse it had at the later point `r`. */
  ghost predicate FileSeen(s: State, changes: seq<Change>, q: Path, c: nat, last: nat, r: nat, listed: bool,
                           parse: Parse)
  {
    && c <= last <= 2 * |changes|
    && (listed <==> q in BatchState(s, changes, c).files)
    && (listed ==>
          && last <= r <= 2 * |changes|
          && q in BatchState(s, changes, r).trees
          && parse == BatchState(s, changes, r).trees[q])
  }

  /** The state at `t` has the file as the run saw it. */
  ghost predicate Fits(s: State, changes: seq<Change>, q: Path, t: nat, listed: bool, parse: Parse) {
    var x := BatchState(s, changes, t);
    && (q in x.files <==> listed)
    && (listed ==> q in x.trees && x.trees[q] == parse)
  }

  lemma {:induction false} OtherFits(s: State, changes: seq<Change>, q: Path, c: nat, last: nat, r: nat, listed: bool,
                                     parse: Parse, t: nat)
    requires FileSeen(s, changes, q, c, last, r, listed, parse) && t <= 2 * |changes|
    requires forall i :: 0 <= i < |changes| ==> changes[i].path != q
    ensures Fits(s, changes, q, t, listed, parse)
  {
    hide BatchState;
    OtherAt(s, changes, q, c);
    OtherAt(s, changes, q, t);
    if listed {
      OtherAt(s, changes, q, r);
    }
  }

  /** A removed file that was listed still had its parse when the listing ended. */
  lemma {:induction false} ListedIsLate(s: State, changes: seq<Change>, k: nat, c: nat, last: nat, r: nat, parse: Parse)
    requires DistinctPaths(changes) && k < |changes| && changes[k].Remove?
    requires FileSeen(s, changes, changes[k].path, c, last, r, true, parse)
    ensures c <= 2 * k && r <= 2 * k + 1
    ensures changes[k].path in s.files && changes[k].path in s.trees && s.trees[changes[k].path] == parse
  {
    hide BatchState;
    RemovedAt(s, changes, k, c);
    RemovedAt(s, changes, k, r);
  }

  /** An instant at the end of the listing, or one step earlier where a listed file has just been
      unlisted, has every removed file as it was seen. */
  lemma {:induction false} RemovedFits(s: State, changes: seq<Change>, k: nat, c: nat, last: nat, r: nat, listed: bool,
                                       parse: Parse, t: nat)
    requires DistinctPaths(changes) && k < |changes| && changes[k].Remove?
    requires FileSeen(s, changes, changes[k].path, c, last, r, listed, parse)
    requires t == last || t + 1 == last
    requires listed && last == 2 * k + 1 ==> t == 2 * k
    requires !listed && t + 1 == last ==> t % 2 == 0 && t != 2 * k
    ensures Fits(s, changes, changes[k].path, t, listed, parse)
  {
    hide BatchState;
    RemovedAt(s, changes, k, t);
    if listed {
      ListedIsLate(s, changes, k, c, last, r, parse);
    } else {
      RemovedAt(s, changes, k, c);
    }
  }

  /** So it is for a file that is updated behind all removals, if its new parse was not read and
      it was not listed too late to be seen. */
  lemma {:induction false} OldUpdateFits(s: State, changes: seq<Change>, k: nat, c: nat, last: nat, r: nat,
                                         listed: bool, parse: Parse, t: nat)
    requires DistinctPaths(changes) && k < |changes| && changes[k].Update?
    requires FileSeen(s, changes, changes[k].path, c, last, r, listed, parse)
    requires t <= last && (listed ==> r <= 2 * k) && (!listed ==> last <= 2 * k + 1)
    ensures Fits(s, changes, changes[k].path, t, listed, parse)
  {
    hide BatchState;
    UpdatedAt(s, changes, k, t);
    UpdatedAt(s, changes, k, c);
    if listed {
      UpdatedAt(s, changes, k, r);
    }
  }

  /** At an instant behind the removals a removed file that was not listed is gone. */
  lemma {:induction false} GoneFits(s: State, changes: seq<Change>, k: nat, parse: Parse, t: nat)
    requires DistinctPaths(changes) && k < |changes| && changes[k].Remove? && 2 * k < t <= 2 * |changes|
    ensures Fits(s, changes, changes[k].path, t, false, parse)
  {
    hide BatchState;
    RemovedAt(s, changes, k, t);
  }

  /** The new parse of an updated file was read: the point of that reading has it. */
  lemma {:induction false} NewUpdateFits(s: State, changes: seq<Change>, k: nat, c: nat, last: nat, r: nat,
                                         parse: Parse)
    requires DistinctPaths(changes) && k < |changes| && changes[k].Update?
    requires FileSeen(s, changes, changes[k].path, c, last, r, true, parse)
    ensures Fits(s, changes, changes[k].path, r, true, parse)
  {
    hide BatchState;
    UpdatedAt(s, changes, k, c);
    UpdatedAt(s, changes, k, r);
  }

  /** The updated file was listed after the visit of its shard: the point before has it not. */
  lemma {:induction false} LateUpdateFits(s: State, changes: seq<Change>, k: nat, c: nat, last: nat, r: nat,
                                          parse: Parse)
    requires DistinctPaths(changes) && k < |changes| && changes[k].Update?
    requires FileSeen(s, changes, changes[k].path, c, last, r, false, parse)
    ensures c <= 2 * k + 1 && Fits(s, changes, changes[k].path, 2 * k + 1, false, parse)
  {
    hide BatchState;
    UpdatedAt(s, changes, k, c);
    UpdatedAt(s, changes, k, 2 * k + 1);
  }

  // ----- The run -----

  /** A successful run that ends before the mark. */
  ghost predicate RunsBefore(changes: seq<Change>, layout: Layout, s: State, log: seq<Step>, at: seq<nat>,
                             paths: seq<Path>, list: seq<Source>)
  {
    && Succeeds(layout, s, log, at, paths, list)
    && |at| > layout.shards
    && at[|at| - 1] <= |StepsOfAll(changes)|
    && forall t :: 0 <= t <= at[|at| - 1] ==> log[..t] == StepsOfAll(changes)[..t]
  }

  function IndexOf(paths: seq<Path>, q: Path): nat {
    if paths == [] || paths[0] == q then 0 else 1 + IndexOf(paths[1..], q)
  }

  lemma {:induction false} IndexFinds(paths: seq<Path>, q: Path)
    ensures q in paths ==> IndexOf(paths, q) < |paths| && paths[IndexOf(paths, q)] == q
  {
    if paths != [] && paths[0] != q {
      IndexFinds(paths[1..], q);
    }
  }

  const NO_PARSE := Parse("", false, [])

  function ParseOf(paths: seq<Path>, list: seq<Source>, q: Path): Parse
    requires |list| == |paths|
  {
    if IndexOf(paths, q) < |paths| then list[IndexOf(paths, q)].parse else NO_PARSE
  }

  /** When the file was read, if it was listed. */
  function ReadAt(layout: Layout, at: seq<nat>, paths: seq<Path>, q: Path): nat {
    var i := layout.shards + 1 + IndexOf(paths, q);
    if i < |at| then at[i] else 0
  }

  lemma {:induction false} WhatWasSeen(changes: seq<Change>, layout: Layout, s: State, log: seq<Step>, at: seq<nat>,
                                       paths: seq<Path>, list: seq<Source>, q: Path)
    requires RunsBefore(changes, layout, s, log, at, paths, list)
    ensures |list| == |paths| && 1 + ShardOf(layout, q) < |at| && layout.shards < |at|
    ensures at[0] <= at[1 + ShardOf(layout, q)] && at[layout.shards] <= at[|at| - 1]
    ensures FileSeen(s, changes, q, at[1 + ShardOf(layout, q)], at[layout.shards], ReadAt(layout, at, paths, q),
                     q in paths, ParseOf(paths, list, q))
    ensures q in paths ==> ReadAt(layout, at, paths, q) <= at[|at| - 1]
  {
    hide After, ShardOf, Answers, StepsOfAll;
    WhatWasListed(layout, s, log, at, paths, list, q);
    ListsOnce(layout, s, log, at, paths, list);
    ShardInRange(layout, q);
    BatchAt(changes, 0);
    if q in paths {
      IndexFinds(paths, q);
      WhatWasRead(layout, s, log, at, paths, list, IndexOf(paths, q));
    }
  }

  lemma {:induction false} IndexInOrder(paths: seq<Path>, p: Path, q: Path)
    requires StrictlySorted(paths) && p in paths && q in paths && PathLess(p, q)
    ensures IndexOf(paths, p) < IndexOf(paths, q) < |paths|
  {
    hide PathLess;
    PathOrder();
    IndexFinds(paths, p);
    IndexFinds(paths, q);
  }

  lemma {:induction false} TimesInOrder(layout: Layout, s: State, log: seq<Step>, at: seq<nat>, paths: seq<Path>,
                                        list: seq<Source>, i: nat, j: nat)
    requires Succeeds(layout, s, log, at, paths, list) && i <= j < |paths|
    ensures |at| == layout.shards + |paths| + 2 && at[layout.shards + 1 + i] <= at[layout.shards + 1 + j]
  {
    hide After, Lists, ListsAll, Cached;
  }

  lemma {:induction false} ReadInOrder(changes: seq<Change>, layout: Layout, s: State, log: seq<Step>, at: seq<nat>,
                                       paths: seq<Path>, list: seq<Source>, p: Path, q: Path)
    requires RunsBefore(changes, layout, s, log, at, paths, list)
    requires p in paths && q in paths && PathLess(p, q)
    ensures ReadAt(layout, at, paths, p) <= ReadAt(layout, at, paths, q)
  {
    hide After, PathLess, Answers, StepsOfAll, StrictlySorted;
    ListsOnce(layout, s, log, at, paths, list);
    IndexInOrder(paths, p, q);
    TimesInOrder(layout, s, log, at, paths, list, IndexOf(paths, p), IndexOf(paths, q));
  }

  /** A point that has every file as it was seen is the instant looked for. */
  lemma {:induction false} AllFit(changes: seq<Change>, layout: Layout, s: State, log: seq<Step>, at: seq<nat>,
                                  paths: seq<Path>, list: seq<Source>, t: nat)
    requires RunsBefore(changes, layout, s, log, at, paths, list) && at[0] <= t <= at[|at| - 1]
    requires |list| == |paths|
    requires forall q :: Fits(s, changes, q, t, q in paths, ParseOf(paths, list, q))
    ensures AtOneInstant(list, s, log, at)
  {
    hide After, ShardOf, PathLess, StepsOfAll;
    ListsOnce(layout, s, log, at, paths, list);
    BatchAt(changes, 0);
    var x := BatchState(s, changes, t);
    forall q: Path ensures q in x.files <==> q in paths {
      assert Fits(s, changes, q, t, q in paths, ParseOf(paths, list, q));
    }
    forall i | 0 <= i < |paths|
      ensures list[i].path == paths[i] && paths[i] in x.trees && list[i].parse == x.trees[paths[i]]
    {
      IndexFinds(paths, paths[i]);
      OnlyPlace(paths, i);
      assert Fits(s, changes, paths[i], t, true, ParseOf(paths, list, paths[i]));
    }
    PathsOf(list, paths, x);
  }

  lemma {:induction false} LastListing(changes: seq<Change>, layout: Layout, s: State, log: seq<Step>, at: seq<nat>,
                                       paths: seq<Path>, list: seq<Source>) returns (last: nat)
    requires RunsBefore(changes, layout, s, log, at, paths, list)
    ensures |at| > layout.shards && last == at[layout.shards] && |list| == |paths|
    ensures at[0] <= last <= at[|at| - 1]
  {
    hide ShardOf, Answers, StepsOfAll, FileSeen;
    last := at[layout.shards];
    WhatWasSeen(changes, layout, s, log, at, paths, list, []);
  }

  /** The updated file of the batch was listed, and its new parse was read. */
  lemma {:induction false} NewParseRead(changes: seq<Change>, layout: Layout, s: State, log: seq<Step>, at: seq<nat>,
                                        paths: seq<Path>, list: seq<Source>, k: nat)
    requires DistinctPaths(changes) && Orderly(changes) && k + 1 == |changes| && changes[k].Update?
    requires RunsBefore(changes, layout, s, log, at, paths, list)
    requires changes[k].path in paths && ReadAt(layout, at, paths, changes[k].path) > 2 * k
    ensures AtOneInstant(list, s, log, at)
  {
    hide Fits, FileSeen, ShardOf, PathLess, RunsBefore;
    var u := changes[k].path;
    var t := ReadAt(layout, at, paths, u);
    WhatWasSeen(changes, layout, s, log, at, paths, list, u);
    SeenBounds(s, changes, u, at[1 + ShardOf(layout, u)], at[layout.shards], t, ParseOf(paths, list, u));
    NewUpdateFits(s, changes, k, at[1 + ShardOf(layout, u)], at[layout.shards], t, ParseOf(paths, list, u));
    forall q: Path ensures Fits(s, changes, q, t, q in paths, ParseOf(paths, list, q)) {
      WhatWasSeen(changes, layout, s, log, at, paths, list, q);
      var c, r := at[1 + ShardOf(layout, q)], ReadAt(layout, at, paths, q);
      if j: nat :| j < k && changes[j].path == q {
        if q in paths {
          ReadInOrder(changes, layout, s, log, at, paths, list, u, q);
          ListedIsLate(s, changes, j, c, at[layout.shards], r, ParseOf(paths, list, q));
          assert false;
        }
        GoneFits(s, changes, j, ParseOf(paths, list, q), t);
      } else if q != u {
        OtherFits(s, changes, q, c, at[layout.shards], r, q in paths, ParseOf(paths, list, q), t);
      }
    }
    AllFit(changes, layout, s, log, at, paths, list, t);
  }

  lemma {:induction false} SeenBounds(s: State, changes: seq<Change>, q: Path, c: nat, last: nat, r: nat, parse: Parse)
    requires FileSeen(s, changes, q, c, last, r, true, parse)
    ensures c <= last <= r <= 2 * |changes|
  {
  }

  /** The updated file was listed only after the visit of its shard. */
  lemma {:induction false} UpdatedTooLate(changes: seq<Change>, layout: Layout, s: State, log: seq<Step>, at: seq<nat>,
                                          paths: seq<Path>, list: seq<Source>, k: nat)
    requires DistinctPaths(changes) && Orderly(changes) && k + 1 == |changes| && changes[k].Update?
    requires RunsBefore(changes, layout, s, log, at, paths, list)
    requires changes[k].path !in paths && at[layout.shards] > 2 * k + 1
    ensures AtOneInstant(list, s, log, at)
  {
    hide Fits, FileSeen, ShardOf, PathLess, RunsBefore;
    var u := changes[k].path;
    var t := 2 * k + 1;
    WhatWasSeen(changes, layout, s, log, at, paths, list, u);
    LateUpdateFits(s, changes, k, at[1 + ShardOf(layout, u)], at[layout.shards], ReadAt(layout, at, paths, u),
                   ParseOf(paths, list, u));
    forall q: Path ensures Fits(s, changes, q, t, q in paths, ParseOf(paths, list, q)) {
      WhatWasSeen(changes, layout, s, log, at, paths, list, q);
      var c, r := at[1 + ShardOf(layout, q)], ReadAt(layout, at, paths, q);
      if j: nat :| j < k && changes[j].path == q {
        if q in paths {
          ListedIsLate(s, changes, j, c, at[layout.shards], r, ParseOf(paths, list, q));
          SeenBounds(s, changes, q, c, at[layout.shards], r, ParseOf(paths, list, q));
          assert false;
        }
        GoneFits(s, changes, j, ParseOf(paths, list, q), t);
      } else if q != u {
        OtherFits(s, changes, q, c, at[layout.shards], r, q in paths, ParseOf(paths, list, q), t);
      }
    }
    AllFit(changes, layout, s, log, at, paths, list, t);
  }

  /** A removed file that was listed although its removal had begun when the listing ended. */
  ghost predicate HalfGone(changes: seq<Change>, paths: seq<Path>, last: nat, j: nat) {
    j < |changes| && changes[j].Remove? && changes[j].path in paths && last == 2 * j + 1
  }

  /** Otherwise the end of the listing is the instant, or the step before it. */
  lemma {:induction false} ListingEnds(changes: seq<Change>, layout: Layout, s: State, log: seq<Step>, at: seq<nat>,
                                       paths: seq<Path>, list: seq<Source>, t: nat)
    requires DistinctPaths(changes) && RunsBefore(changes, layout, s, log, at, paths, list)
    requires t == at[layout.shards] || t + 1 == at[layout.shards]
    requires t + 1 == at[layout.shards] <==> exists j: nat :: HalfGone(changes, paths, at[layout.shards], j)
    requires forall k: nat :: k < |changes| && changes[k].Update? ==>
               && (changes[k].path in paths ==> ReadAt(layout, at, paths, changes[k].path) <= 2 * k)
               && (changes[k].path !in paths ==> at[layout.shards] <= 2 * k + 1)
    ensures forall q :: Fits(s, changes, q, t, q in paths, ParseOf(paths, list, q))
  {
    hide Fits, FileSeen, ShardOf, PathLess, RunsBefore;
    var listed := LastListing(changes, layout, s, log, at, paths, list);
    forall q: Path ensures Fits(s, changes, q, t, q in paths, ParseOf(paths, list, q)) {
      WhatWasSeen(changes, layout, s, log, at, paths, list, q);
      var c, last, r := at[1 + ShardOf(layout, q)], at[layout.shards], ReadAt(layout, at, paths, q);
      if k: nat :| k < |changes| && changes[k].path == q {
        if changes[k].Update? {
          OldUpdateFits(s, changes, k, c, last, r, q in paths, ParseOf(paths, list, q), t);
        } else {
          assert HalfGone(changes, paths, last, k) <==> q in paths && last == 2 * k + 1;
          RemovedFits(s, changes, k, c, last, r, q in paths, ParseOf(paths, list, q), t);
        }
      } else {
        SeenEnds(s, changes, q, c, last, r, q in paths, ParseOf(paths, list, q));
        OtherFits(s, changes, q, c, last, r, q in paths, ParseOf(paths, list, q), t);
      }
    }
  }

  lemma {:induction false} SeenEnds(s: State, changes: seq<Change>, q: Path, c: nat, last: nat, r: nat, listed: bool,
                                    parse: Parse)
    requires FileSeen(s, changes, q, c, last, r, listed, parse)
    ensures last <= 2 * |changes|
  {
  }

  lemma {:induction false} OrderlyRun(changes: seq<Change>, layout: Layout, s: State, log: seq<Step>, at: seq<nat>,
                                      paths: seq<Path>, list: seq<Source>)
    requires DistinctPaths(changes) && Orderly(changes)
    requires RunsBefore(changes, layout, s, log, at, paths, list)
    ensures AtOneInstant(list, s, log, at)
  {
    hide Fits, FileSeen, ShardOf, PathLess, RunsBefore, AtOneInstant;
    var n := |changes|;
    var last := LastListing(changes, layout, s, log, at, paths, list);
    if n > 0 && changes[n - 1].Update? && changes[n - 1].path in paths
       && ReadAt(layout, at, paths, changes[n - 1].path) > 2 * (n - 1) {
      NewParseRead(changes, layout, s, log, at, paths, list, n - 1);
    } else if n > 0 && changes[n - 1].Update? && changes[n - 1].path !in paths && last > 2 * (n - 1) + 1 {
      UpdatedTooLate(changes, layout, s, log, at, paths, list, n - 1);
    } else {
      var t := last;
      if j: nat :| HalfGone(changes, paths, last, j) {
        t := last - 1;
        HalfGoneStarts(changes, layout, s, log, at, paths, list, j);
      }
      ListingEnds(changes, layout, s, log, at, paths, list, t);
      AllFit(changes, layout, s, log, at, paths, list, t);
    }
  }

  lemma {:induction false} HalfGoneStarts(changes: seq<Change>, layout: Layout, s: State, log: seq<Step>, at: seq<nat>,
                                          paths: seq<Path>, list: seq<Source>, j: nat)
    requires DistinctPaths(changes) && RunsBefore(changes, layout, s, log, at, paths, list)
    requires HalfGone(changes, paths, at[layout.shards], j)
    ensures at[0] <= at[layout.shards] - 1
  {
    hide FileSeen, ShardOf, RunsBefore;
    var q := changes[j].path;
    WhatWasSeen(changes, layout, s, log, at, paths, list, q);
    ListedIsLate(s, changes, j, at[1 + ShardOf(layout, q)], at[layout.shards], ReadAt(layout, at, paths, q),
                 ParseOf(paths, list, q));
  }

  // ----- From the steps of the batch to the marked batch -----

  /** A successful run sees no mark: it ends before the mark, or it starts behind it. */
  lemma {:induction false} MarkIsOutside(changes: seq<Change>, layout: Layout, s: State, log: seq<Step>, at: seq<nat>,
                                         paths: seq<Path>, list: seq<Source>)
    requires 2 * |changes| + 1 < REVISIONS && log <= MarkOnce(changes)
    requires Succeeds(layout, s, log, at, paths, list)
    ensures at[0] == at[|at| - 1] || at[|at| - 1] <= 2 * |changes|
    ensures |StepsOfAll(changes)| == 2 * |changes|
    ensures forall i :: at[0] <= i < at[|at| - 1] ==> !log[i].Mark?
  {
    hide Answers, After, StepsOfAll;
    BatchAt(changes, 0);
    NoMarks(log[at[0]..at[|at| - 1]]);
    SuccessSeesNoMark(layout, s, log, at, paths, list);
    assert at[|at| - 1] > 2 * |changes| ==> log[2 * |changes|] == Mark;
  }

  lemma {:induction false} EndsBefore(changes: seq<Change>, layout: Layout, s: State, log: seq<Step>, at: seq<nat>,
                                      paths: seq<Path>, list: seq<Source>)
    requires log <= MarkOnce(changes) && Succeeds(layout, s, log, at, paths, list)
    requires |StepsOfAll(changes)| == 2 * |changes| && at[|at| - 1] <= 2 * |changes|
    ensures RunsBefore(changes, layout, s, log, at, paths, list)
  {
    hide After, StepsOfAll, ListsAll, Cached;
    forall t | 0 <= t <= at[|at| - 1] ensures log[..t] == StepsOfAll(changes)[..t] {
    }
  }

  lemma {:induction false} OrderlyIsSafe(changes: seq<Change>)
    requires DistinctPaths(changes) && Orderly(changes) && 2 * |changes| + 1 < REVISIONS
    ensures SafeToRead(MarkOnce(changes))
  {
    hide Answers, After, IsContents, StepsOfAll, Orderly, PathLess, RunsBefore;
    forall layout: Layout, s: State, log: seq<Step>, at: seq<nat>, paths: seq<Path>, list: seq<Source>
      | log <= MarkOnce(changes) && Settled(s) && Succeeds(layout, s, log, at, paths, list)
      ensures AtOneInstant(list, s, log, at)
    {
      MarkIsOutside(changes, layout, s, log, at, paths, list);
      if at[0] == at[|at| - 1] {
        assert log[at[0]..at[|at| - 1]] == [];
        OneFileIsAtomic(layout, s, log, at, paths, list, []);
      } else {
        EndsBefore(changes, layout, s, log, at, paths, list);
        OrderlyRun(changes, layout, s, log, at, paths, list);
      }
    }
  }

  // ----- Updates of one file -----

  lemma {:induction false} UpdateStep(changes: seq<Change>, i: nat, p: Path)
    requires Updates(changes) && SamePath(changes) && (changes != [] ==> p == changes[0].path)
    requires i < |MarkOnce(changes)|
    ensures MarkOnce(changes)[i].Mark? || (MarkOnce(changes)[i].path == p && !Drops(MarkOnce(changes)[i]))
  {
    hide StepsOfAll;
    BatchAt(changes, i / 2);
  }

  lemma {:induction false} UpdatesAreOneFile(changes: seq<Change>, w: seq<Step>, a: nat, b: nat, p: Path)
    requires Updates(changes) && SamePath(changes) && (changes != [] ==> p == changes[0].path)
    requires a <= b <= |MarkOnce(changes)| && w == MarkOnce(changes)[a..b]
    ensures OneFile(w, p)
  {
    hide MarkOnce;
    forall i | 0 <= i < |w|
      ensures w[i].Mark? || (w[i].path == p && !Drops(w[i]))
    {
      UpdateStep(changes, a + i, p);
    }
  }

  lemma {:induction false} SameFileIsSafe(changes: seq<Change>)
    requires Updates(changes) && SamePath(changes)
    ensures SafeToRead(MarkOnce(changes))
  {
    hide Answers, After, IsContents, OneFile, MarkOnce;
    forall layout: Layout, s: State, log: seq<Step>, at: seq<nat>, paths: seq<Path>, list: seq<Source>
      | log <= MarkOnce(changes) && Settled(s) && Succeeds(layout, s, log, at, paths, list)
      ensures AtOneInstant(list, s, log, at)
    {
      var p := if changes == [] then [] else changes[0].path;
      assert log[at[0]..at[|at| - 1]] == MarkOnce(changes)[at[0]..at[|at| - 1]];
      UpdatesAreOneFile(changes, log[at[0]..at[|at| - 1]], at[0], at[|at| - 1], p);
      OneFileIsAtomic(layout, s, log, at, paths, list, p);
    }
  }

  // ----- Batches that can be read torn -----

  /** The reader starts before the batch and stops behind `t` of its steps. */
  ghost predicate TornAt(changes: seq<Change>, layout: Layout, s: State, t: nat, at: seq<nat>, paths: seq<Path>,
                         list: seq<Source>)
  {
    && t <= |StepsOfAll(changes)| && Settled(s) && |at| > 0
    && at[0] == 0 && at[|at| - 1] == t
    && Succeeds(layout, s, StepsOfAll(changes)[..t], at, paths, list)
    && forall u :: 0 <= u <= t ==> !IsContents(list, BatchState(s, changes, u))
  }

  lemma {:induction false} TornIsUnsafe(changes: seq<Change>, layout: Layout, s: State, t: nat, at: seq<nat>,
                                        paths: seq<Path>, list: seq<Source>)
    requires TornAt(changes, layout, s, t, at, paths, list)
    ensures !AtOneInstant(list, s, StepsOfAll(changes)[..t], at)
    ensures !SafeToRead(MarkOnce(changes))
  {
    hide Answers, After, IsContents, StepsOfAll;
    var log := StepsOfAll(changes)[..t];
    forall u | 0 <= u <= t ensures !IsContents(list, After(s, log[..u])) {
      assert log[..u] == StepsOfAll(changes)[..u];
      assert BatchState(s, changes, u) == After(s, log[..u]);
    }
    assert log <= MarkOnce(changes);
  }

  /** A run of the reader whose accesses fall on the points 0 and `t` of the batch. */
  lemma {:induction false} TwoPoints(changes: seq<Change>, s: State, t: nat, at: seq<nat>)
    requires t <= 2 * |changes| && s.revision < REVISIONS
    requires t <= |StepsOfAll(changes)| && Times(StepsOfAll(changes)[..t], at)
    requires forall k :: 0 <= k < |at| ==> at[k] == 0 || at[k] == t
    ensures |StepsOfAll(changes)| == 2 * |changes|
    ensures forall k :: 0 <= k < |at| ==> SeenBy(s, StepsOfAll(changes)[..t], at)[k] == BatchState(s, changes, at[k])
    ensures forall k :: 0 <= k < |at| ==> SeenBy(s, StepsOfAll(changes)[..t], at)[k].revision == s.revision
  {
    hide StepsOfAll, After;
    BatchAt(changes, 0);
    var log := StepsOfAll(changes)[..t];
    assert log[..t] == log && log[..0] == StepsOfAll(changes)[..0];
    BatchRevision(s, changes, 0);
    BatchRevision(s, changes, t);
  }

  lemma {:induction false} PointsInOrder(changes: seq<Change>, t: nat, at: seq<nat>, m: nat)
    requires t <= 2 * |changes| && m <= |at|
    requires forall k :: 0 <= k < |at| ==> at[k] == if k < m then 0 else t
    ensures |StepsOfAll(changes)| == 2 * |changes| && Times(StepsOfAll(changes)[..t], at)
  {
    BatchAt(changes, 0);
  }

  function OtherText(parse: Parse): Parse {
    parse.(text := parse.text + " ")
  }

  /** The state in which two updates are torn: only the file `q` is there, with another text. */
  function Before(q: Path, parse: Parse): State {
    State({q}, map[q := OtherText(parse)], 0)
  }

  /** Two updates of different files, where the later file is not touched before and the earlier
      one is not removed in between. */
  predicate TwoUpdates(changes: seq<Change>, i: nat, k: nat) {
    && i < k < |changes| && changes[i].Update? && changes[k].Update? && changes[i].path != changes[k].path
    && (forall m :: 0 <= m < k ==> changes[m].path != changes[k].path)
    && (forall m :: i <= m <= k ==> changes[m].Update?)
  }

  lemma {:induction false} NewParseBehind(changes: seq<Change>, s: State, k: nat)
    requires k < |changes| && changes[k].Update?
    ensures var x := BatchState(s, changes, 2 * k + 2);
            && changes[k].path in x.files
            && changes[k].path in x.trees && x.trees[changes[k].path] == changes[k].parse
  {
    hide BatchState;
    BatchNext(s, changes, 2 * k);
    BatchNext(s, changes, 2 * k + 1);
  }

  lemma {:induction false} StaysListed(changes: seq<Change>, s: State, x: nat, y: nat, p: Path)
    requires x <= y <= 2 * |changes| && p in BatchState(s, changes, x).files
    requires forall m :: x <= m < y ==> changes[m / 2].Update?
    ensures p in BatchState(s, changes, y).files
    decreases y - x
  {
    hide BatchState;
    if x < y {
      StaysListed(changes, s, x, y - 1, p);
      BatchNext(s, changes, y - 1);
    }
  }

  lemma {:induction false} NeverOnlyNew(changes: seq<Change>, i: nat, k: nat, t: nat)
    requires TwoUpdates(changes, i, k) && t <= 2 * k + 2
    ensures var q, parse := changes[k].path, changes[k].parse;
            !IsContents([Source(q, parse)], BatchState(Before(q, parse), changes, t))
  {
    hide BatchState;
    var q, parse := changes[k].path, changes[k].parse;
    var s, p := Before(q, parse), changes[i].path;
    if t <= 2 * k {
      BatchStart(s, changes);
      BatchUntouched(s, changes, 0, t, q);
      assert parse.text + " " != parse.text;
    } else {
      NewParseBehind(changes, s, i);
      StaysListed(changes, s, 2 * i + 2, t, p);
    }
  }

  lemma {:induction false} UpdatesTorn(changes: seq<Change>, i: nat, k: nat)
    requires TwoUpdates(changes, i, k)
    ensures var q, parse, t := changes[k].path, changes[k].parse, 2 * k + 2;
            TornAt(changes, Layout(_ => 0, 1), Before(q, parse), t, [0, 0, t, t], [q], [Source(q, parse)])
  {
    hide BatchState, IsContents, StepsOfAll, After;
    var q, parse, t := changes[k].path, changes[k].parse, 2 * k + 2;
    var s, at := Before(q, parse), [0, 0, t, t];
    PointsInOrder(changes, t, at, 2);
    TwoPoints(changes, s, t, at);
    BatchStart(s, changes);
    NewParseBehind(changes, s, k);
    forall u | 0 <= u <= t ensures !IsContents([Source(q, parse)], BatchState(s, changes, u)) {
      NeverOnlyNew(changes, i, k, u);
    }
  }

  /** An update right before a removal of another file: the update is missed by the visit of its
      shard, and the removal is not. */
  lemma {:induction false} UpdateRemoveTorn(changes: seq<Change>, i: nat)
    requires DistinctPaths(changes) && i + 1 < |changes| && changes[i].Update? && changes[i + 1].Remove?
    ensures var q, t := changes[i + 1].path, 2 * i + 4;
            TornAt(changes, Layout(x => if x == q then 1 else 0, 2), State({q}, map[q := NO_PARSE], 0), t,
                   [0, 0, t, t], [], [])
  {
    hide BatchState, StepsOfAll, After;
    var q, t := changes[i + 1].path, 2 * i + 4;
    var s, at := State({q}, map[q := NO_PARSE], 0), [0, 0, t, t];
    PointsInOrder(changes, t, at, 2);
    TwoPoints(changes, s, t, at);
    BatchStart(s, changes);
    RemovedAt(s, changes, i + 1, t);
    forall u | 0 <= u <= t ensures !IsContents([], BatchState(s, changes, u)) {
      RemovedAt(s, changes, i + 1, u);
      UpdatedAt(s, changes, i, u);
    }
  }

  /** A removal somewhere before an update of a file that sorts behind the removed one: the
      removed file is read before the batch, the updated one behind it. */
  lemma {:induction false} RemoveUpdateTorn(changes: seq<Change>, i: nat, k: nat)
    requires DistinctPaths(changes) && i < k < |changes| && changes[i].Remove? && changes[k].Update?
    requires PathLess(changes[i].path, changes[k].path)
    ensures var p, q, parse, t := changes[i].path, changes[k].path, changes[k].parse, 2 * k + 2;
            TornAt(changes, Layout(_ => 0, 1), State({p, q}, map[p := NO_PARSE, q := OtherText(parse)], 0), t,
                   [0, 0, 0, t, t], [p, q], [Source(p, NO_PARSE), Source(q, parse)])
  {
    hide BatchState, StepsOfAll, After, PathLess, IsContents;
    var p, q, parse, t := changes[i].path, changes[k].path, changes[k].parse, 2 * k + 2;
    var s, at := State({p, q}, map[p := NO_PARSE, q := OtherText(parse)], 0), [0, 0, 0, t, t];
    PointsInOrder(changes, t, at, 3);
    TwoPoints(changes, s, t, at);
    BatchStart(s, changes);
    NewParseBehind(changes, s, k);
    forall u | 0 <= u <= t ensures !IsContents([Source(p, NO_PARSE), Source(q, parse)], BatchState(s, changes, u)) {
      RemovedAt(s, changes, i, u);
      UpdatedAt(s, changes, k, u);
      NotBoth(BatchState(s, changes, u), p, q, parse);
    }
  }

  lemma {:induction false} NotBoth(x: State, p: Path, q: Path, parse: Parse)
    requires p != q
    requires p !in x.files || (q in x.trees ==> x.trees[q] == OtherText(parse))
    ensures !IsContents([Source(p, NO_PARSE), Source(q, parse)], x)
  {
    var list := [Source(p, NO_PARSE), Source(q, parse)];
    assert list[0].path == p && list[1].path == q;
    assert parse.text + " " != parse.text;
  }

  // ----- Exactly when -----

  lemma {:induction false} FirstOther(changes: seq<Change>) returns (k: nat)
    requires !SamePath(changes)
    ensures 0 < k < |changes| && changes[k].path != changes[0].path
    ensures forall i :: 0 <= i < k ==> changes[i].path == changes[0].path
  {
    k := 1;
    while k < |changes| && changes[k].path == changes[0].path
      invariant 0 < k
      invariant k <= |changes|
      invariant forall i :: 0 <= i < k ==> changes[i].path == changes[0].path
    {
      k := k + 1;
    }
  }

  lemma {:induction false} UpdatesOfTwoFiles(changes: seq<Change>)
    requires Updates(changes) && !SamePath(changes)
    ensures !SafeToRead(MarkOnce(changes))
  {
    hide TornAt, SafeToRead;
    var k := FirstOther(changes);
    UpdatesTorn(changes, 0, k);
    var q, parse, t := changes[k].path, changes[k].parse, 2 * k + 2;
    TornIsUnsafe(changes, Layout(_ => 0, 1), Before(q, parse), t, [0, 0, t, t], [q], [Source(q, parse)]);
  }

  lemma {:induction false} UpdateThenMore(changes: seq<Change>, i: nat)
    requires DistinctPaths(changes) && i + 1 < |changes| && changes[i].Update?
    ensures !SafeToRead(MarkOnce(changes))
  {
    hide TornAt, SafeToRead;
    if changes[i + 1].Update? {
      UpdatesTorn(changes, i, i + 1);
      var q, parse, t := changes[i + 1].path, changes[i + 1].parse, 2 * (i + 1) + 2;
      TornIsUnsafe(changes, Layout(_ => 0, 1), Before(q, parse), t, [0, 0, t, t], [q], [Source(q, parse)]);
    } else {
      UpdateRemoveTorn(changes, i);
      var q, t := changes[i + 1].path, 2 * i + 4;
      TornIsUnsafe(changes, Layout(x => if x == q then 1 else 0, 2), State({q}, map[q := NO_PARSE], 0), t,
                   [0, 0, t, t], [], []);
    }
  }

  lemma {:induction false} RemovedBefore(changes: seq<Change>, i: nat)
    requires DistinctPaths(changes) && i + 1 < |changes|
    requires changes[i].Remove? && changes[|changes| - 1].Update?
    requires !PathLess(changes[|changes| - 1].path, changes[i].path)
    ensures !SafeToRead(MarkOnce(changes))
  {
    hide TornAt, SafeToRead, PathLess;
    var k := |changes| - 1;
    PathOrder();
    RemoveUpdateTorn(changes, i, k);
    var p, q, parse, t := changes[i].path, changes[k].path, changes[k].parse, 2 * k + 2;
    TornIsUnsafe(changes, Layout(_ => 0, 1), State({p, q}, map[p := NO_PARSE, q := OtherText(parse)], 0), t,
                 [0, 0, 0, t, t], [p, q], [Source(p, NO_PARSE), Source(q, parse)]);
  }

  lemma {:induction false} NotOrderly(changes: seq<Change>)
    requires DistinctPaths(changes) && !Orderly(changes)
    ensures !SafeToRead(MarkOnce(changes))
  {
    hide SafeToRead, PathLess;
    if i: nat :| i + 1 < |changes| && changes[i].Update? {
      UpdateThenMore(changes, i);
    } else {
      var i: nat :| i < |changes| - 1 && !PathLess(changes[|changes| - 1].path, changes[i].path);
      RemovedBefore(changes, i);
    }
  }

  /** A writer that marks once behind a batch is safe to read without a lock if and only if the
      batch updates a single file, or removes files first and behind them updates at most one,
      which sorts before all of them. The batch changes different files, or only updates. */
  lemma {:induction false} BatchSafety(changes: seq<Change>)
    requires DistinctPaths(changes) || Updates(changes)
    requires 2 * |changes| + 1 < REVISIONS
    ensures SafeToRead(MarkOnce(changes)) <==> (Updates(changes) && SamePath(changes)) || Orderly(changes)
  {
    hide SafeToRead, PathLess;
    if Updates(changes) && SamePath(changes) {
      SameFileIsSafe(changes);
    } else if Updates(changes) {
      UpdatesOfTwoFiles(changes);
      assert |changes| > 1;
    } else if Orderly(changes) {
      OrderlyIsSafe(changes);
    } else {
      NotOrderly(changes);
    }
  }

  /** The two changes of a rename, marked once: removing the old file and adding the new one is
      safe exactly if the new name sorts before the old one, and the other order never is. */
  lemma {:induction false} RenameSafety(before: Path, after: Path, parse: Parse)
    requires before != after
    ensures SafeToRead(MarkOnce([Remove(before), Update(after, parse)])) <==> PathLess(after, before)
    ensures !SafeToRead(MarkOnce([Update(after, parse), Remove(before)]))
  {
    hide SafeToRead, PathLess, MarkOnce;
    var first, last := [Remove(before), Update(after, parse)], [Update(after, parse), Remove(before)];
    BatchSafety(first);
    BatchSafety(last);
    assert first[0] == Remove(before) && first[1] == Update(after, parse);
    assert last[0] == Update(after, parse) && last[1] == Remove(before);
    assert Orderly(first) <==> PathLess(first[1].path, first[0].path);
  }
}
