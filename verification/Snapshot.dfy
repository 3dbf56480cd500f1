/** The optimistic snapshot of a workspace whose file index other threads change while it is
    taken: what the reader returns, and when that is one single state of the workspace. */
module Snapshot {
  import opened Sorting

  /** A path by its components, which is how paths are ordered. */
  type Path = seq<string>

  predicate PathLess(a: Path, b: Path) { SeqLess(StringLess, a, b) }

  lemma {:induction false} PathOrder()
    ensures StrictOrder(PathLess)
  {
    StringOrder();
    forall x: Path, y: Path
      ensures !PathLess(x, x) && (PathLess(x, y) || PathLess(y, x) || x == y)
    {
      SeqTrichotomy(StringLess, x, y);
    }
    forall x: Path, y: Path, z: Path | PathLess(x, y) && PathLess(y, z)
      ensures PathLess(x, z)
    {
      SeqTransitive(StringLess, x, y, z);
    }
  }

  datatype Declaration = Declaration(name: string, kindKnown: bool, idKnown: bool)

  /** A text and what its syntax tree says: whether it holds an error node, and its object
      declarations in document order. One cache entry holds both. */
  datatype Parse = Parse(text: string, broken: bool, declarations: seq<Declaration>)

  datatype Source = Source(path: Path, parse: Parse)

  // ----- The workspace -----

  const REVISIONS: nat := 0x1_0000_0000_0000_0000

  /** The keys of `files`, the entries of `file_trees`, and the generation revision. */
  datatype State = State(files: set<Path>, trees: map<Path, Parse>, revision: nat)

  /** One atomic step of another thread. */
  datatype Step =
    | PutTree(path: Path, parse: Parse)
    | PutFile(path: Path)
    | DropFile(path: Path)
    | DropTree(path: Path)
    | Mark

  function Do(s: State, step: Step): State {
    match step
    case PutTree(path, parse) => s.(trees := s.trees[path := parse])
    case PutFile(path) => s.(files := s.files + {path})
    case DropFile(path) => s.(files := s.files - {path})
    case DropTree(path) => s.(trees := s.trees - {path})
    case Mark => s.(revision := (s.revision + 1) % REVISIONS)
  }

  function After(s: State, log: seq<Step>): State {
    if log == [] then s else Do(After(s, log[..|log| - 1]), log[|log| - 1])
  }

  /** No file is being added or removed. */
  predicate Settled(s: State) {
    s.files == s.trees.Keys && s.revision < REVISIONS
  }

  /** What a writer does to one file: the index inserts the parse before it lists the file,
      and unlists a file before it drops the parse. */
  datatype Change = Update(path: Path, parse: Parse) | Remove(path: Path)

  function StepsOf(change: Change): seq<Step> {
    match change
    case Update(path, parse) => [PutTree(path, parse), PutFile(path)]
    case Remove(path) => [DropFile(path), DropTree(path)]
  }

  function StepsOfAll(changes: seq<Change>): seq<Step> {
    if changes == [] then [] else StepsOf(changes[0]) + StepsOfAll(changes[1..])
  }

  /** A writer that marks a new generation behind every single change. */
  function MarkEach(changes: seq<Change>): seq<Step> {
    if changes == [] then [] else StepsOf(changes[0]) + [Mark] + MarkEach(changes[1..])
  }

  /** A writer that marks one generation behind a batch of changes. */
  function MarkOnce(changes: seq<Change>): seq<Step> {
    StepsOfAll(changes) + [Mark]
  }

  // ----- The reader -----

  type Positive = n: nat | n > 0 witness 1

  /** The concurrent map keeps its keys in shards, which an iteration visits one by one. */
  datatype Layout = Layout(hash: Path -> nat, shards: Positive)

  function ShardOf(layout: Layout, path: Path): nat {
    layout.hash(path) % layout.shards
  }

  /** Its accesses happen at these points of the log, in this order. */
  predicate Times(log: seq<Step>, at: seq<nat>) {
    && (forall k :: 0 <= k < |at| ==> at[k] <= |log|)
    && (forall j, k :: 0 <= j <= k < |at| ==> at[j] <= at[k])
  }

  function SeenBy(s: State, log: seq<Step>, at: seq<nat>): (seen: seq<State>)
    requires Times(log, at)
    ensures |seen| == |at|
    ensures forall k :: 0 <= k < |at| ==> seen[k] == After(s, log[..at[k]])
  {
    seq(|at|, k requires 0 <= k < |at| => After(s, log[..at[k]]))
  }

  predicate StrictlySorted(paths: seq<Path>) {
    forall i, j :: 0 <= i < j < |paths| ==> PathLess(paths[i], paths[j])
  }

  /** `paths` lists, in order and once each, what the visits of the shards found. */
  predicate Lists(layout: Layout, seen: seq<State>, paths: seq<Path>)
    requires |seen| > layout.shards
  {
    && StrictlySorted(paths)
    && (forall i :: 0 <= i < |paths| ==> paths[i] in seen[1 + ShardOf(layout, paths[i])].files)
  }

  ghost predicate ListsAll(layout: Layout, seen: seq<State>, paths: seq<Path>)
    requires |seen| > layout.shards
  {
    && Lists(layout, seen, paths)
    && (forall p: Path :: p in seen[1 + ShardOf(layout, p)].files ==> p in paths)
  }

  /** The first `n` paths were found in the parse cache when they were looked up. */
  predicate Cached(layout: Layout, seen: seq<State>, paths: seq<Path>, n: nat)
    requires n <= |paths| && |seen| > layout.shards + n
  {
    forall i :: 0 <= i < n ==> paths[i] in seen[layout.shards + 1 + i].trees
  }

  datatype Outcome = Ok(sources: seq<Source>) | MissingCachedParse(path: Path) | GenerationChanged

  /** What the reader answers when it sees these states in turn: the revision, every shard,
      every parse, and the revision again. */
  ghost predicate Answers(layout: Layout, seen: seq<State>, paths: seq<Path>, outcome: Outcome) {
    && |seen| > layout.shards
    && ListsAll(layout, seen, paths)
    && match outcome
       case Ok(list) =>
         && |seen| == layout.shards + |paths| + 2
         && Cached(layout, seen, paths, |paths|)
         && |list| == |paths|
         && (forall i :: 0 <= i < |paths| ==>
               list[i] == Source(paths[i], seen[layout.shards + 1 + i].trees[paths[i]]))
         && seen[|seen| - 1].revision == seen[0].revision
       case MissingCachedParse(path) =>
         var n := |seen| - layout.shards - 2;
         && 0 <= n < |paths|
         && Cached(layout, seen, paths, n)
         && path == paths[n] && path !in seen[|seen| - 1].trees
       case GenerationChanged =>
         && |seen| == layout.shards + |paths| + 2
         && Cached(layout, seen, paths, |paths|)
         && seen[|seen| - 1].revision != seen[0].revision
  }

  /** The list is the complete, sorted contents of one state, each file once. */
  ghost predicate IsContents(list: seq<Source>, s: State) {
    && (forall i, j :: 0 <= i < j < |list| ==> PathLess(list[i].path, list[j].path))
    && (forall p :: p in s.files <==> exists i :: 0 <= i < |list| && list[i].path == p)
    && (forall i :: 0 <= i < |list| ==> list[i].path in s.trees && list[i].parse == s.trees[list[i].path])
  }

  /** Some instant between the two reads of the revision has exactly these contents. */
  ghost predicate AtOneInstant(list: seq<Source>, s: State, log: seq<Step>, at: seq<nat>)
    requires |at| > 0 && Times(log, at)
  {
    exists t :: at[0] <= t <= at[|at| - 1] && IsContents(list, After(s, log[..t]))
  }

  /** A successful run of the reader against this log. */
  ghost predicate Succeeds(layout: Layout, s: State, log: seq<Step>, at: seq<nat>, paths: seq<Path>,
                           list: seq<Source>)
  {
    && |at| > 0
    && Times(log, at)
    && s.revision < REVISIONS
    && Answers(layout, SeenBy(s, log, at), paths, Ok(list))
  }

  // ----- What steps change -----

  predicate Drops(step: Step) { step.DropFile? || step.DropTree? }

  predicate Puts(step: Step) { step.PutFile? || step.PutTree? }

  /** These steps change one file only, and never put anything back that they dropped. */
  predicate OneFile(steps: seq<Step>, p: Path) {
    && (forall i :: 0 <= i < |steps| && !steps[i].Mark? ==> steps[i].path == p)
    && (forall i, j :: 0 <= i < j < |steps| && Drops(steps[i]) ==> !Puts(steps[j]))
  }

  lemma {:induction false} AfterStep(s: State, log: seq<Step>, t: nat)
    requires t < |log|
    ensures After(s, log[..t + 1]) == Do(After(s, log[..t]), log[t])
  {
    assert log[..t + 1][..t] == log[..t];
  }

  /** Nothing is changed about the file `q`. */
  predicate SameFor(x: State, y: State, q: Path) {
    && (q in x.files <==> q in y.files)
    && (q in x.trees <==> q in y.trees)
    && (q in x.trees ==> x.trees[q] == y.trees[q])
  }

  lemma {:induction false} Untouched(s: State, log: seq<Step>, a: nat, b: nat, q: Path)
    requires a <= b <= |log|
    requires forall i :: a <= i < b && !log[i].Mark? ==> log[i].path != q
    ensures SameFor(After(s, log[..a]), After(s, log[..b]), q)
    decreases b - a
  {
    hide After;
    if a < b {
      AfterStep(s, log, b - 1);
      Untouched(s, log, a, b - 1, q);
    }
  }

  lemma {:induction false} OthersStay(s: State, log: seq<Step>, a: nat, b: nat, p: Path, q: Path)
    requires a <= b <= |log| && q != p
    requires forall i :: a <= i < b && !log[i].Mark? ==> log[i].path == p
    ensures SameFor(After(s, log[..a]), After(s, log[..b]), q)
  {
    hide After;
    Untouched(s, log, a, b, q);
  }

  /** The point where a file that was listed is unlisted. */
  lemma {:induction false} FindDrop(s: State, log: seq<Step>, a: nat, b: nat, p: Path) returns (d: nat)
    requires a <= b <= |log|
    requires p in After(s, log[..a]).files && p !in After(s, log[..b]).files
    ensures a <= d < b && log[d] == DropFile(p) && p in After(s, log[..d]).files
    decreases b - a
  {
    AfterStep(s, log, b - 1);
    if p in After(s, log[..b - 1]).files {
      d := b - 1;
    } else {
      d := FindDrop(s, log, a, b - 1, p);
    }
  }

  /** Without new parses, a parse that is still there was there before. */
  lemma {:induction false} TreeWasThere(s: State, log: seq<Step>, a: nat, b: nat, p: Path)
    requires a <= b <= |log| && p in After(s, log[..b]).trees
    requires forall i :: a <= i < b ==> !log[i].PutTree?
    ensures p in After(s, log[..a]).trees && After(s, log[..a]).trees[p] == After(s, log[..b]).trees[p]
    decreases b - a
  {
    if a < b {
      AfterStep(s, log, b - 1);
      TreeWasThere(s, log, a, b - 1, p);
    }
  }

  // ----- One change at a time is seen whole -----

  lemma {:induction false} ShardInRange(layout: Layout, q: Path)
    ensures ShardOf(layout, q) < layout.shards
  {
  }

  lemma {:induction false} PathsOf(list: seq<Source>, paths: seq<Path>, s: State)
    requires |list| == |paths| && StrictlySorted(paths)
    requires forall i :: 0 <= i < |paths| ==> list[i].path == paths[i]
    requires forall q: Path :: q in s.files <==> q in paths
    requires forall i :: 0 <= i < |paths| ==> paths[i] in s.trees && list[i].parse == s.trees[paths[i]]
    ensures IsContents(list, s)
  {
  }

  /** `OneFile` for a part of the log, in terms of the log. */
  ghost predicate Confined(log: seq<Step>, a: nat, b: nat, p: Path)
    requires a <= b <= |log|
  {
    && (forall i :: a <= i < b && !log[i].Mark? ==> log[i].path == p)
    && (forall i, j :: a <= i < j < b && Drops(log[i]) ==> !Puts(log[j]))
  }

  lemma {:induction false} OneFileIsConfined(log: seq<Step>, a: nat, b: nat, p: Path)
    requires a <= b <= |log|
    ensures OneFile(log[a..b], p) <==> Confined(log, a, b, p)
  {
    var w := log[a..b];
    assert forall i :: 0 <= i < b - a ==> w[i] == log[a + i];
    assert forall i :: a <= i < b ==> log[i] == w[i - a];
  }

  lemma {:induction false} Unmoved(s: State, log: seq<Step>, a: nat, b: nat, p: Path, q: Path, x: nat, y: nat)
    requires a <= b <= |log| && Confined(log, a, b, p)
    requires a <= x <= b && a <= y <= b
    ensures q != p ==> SameFor(After(s, log[..x]), After(s, log[..y]), q)
  {
    hide After;
    if q != p {
      OthersStay(s, log, a, x, p, q);
      OthersStay(s, log, a, y, p, q);
    }
  }

  /** An instant whose contents are the list: it has the file as the reader saw it. */
  lemma {:induction false} SameForOthers(layout: Layout, s: State, log: seq<Step>, at: seq<nat>, paths: seq<Path>,
                                         list: seq<Source>, p: Path, t: nat)
    requires Succeeds(layout, s, log, at, paths, list)
    requires at[0] <= t <= at[|at| - 1] && Confined(log, at[0], at[|at| - 1], p)
    requires p in After(s, log[..t]).files <==> p in paths
    requires forall i :: 0 <= i < |paths| && paths[i] == p ==>
               p in After(s, log[..t]).trees && list[i].parse == After(s, log[..t]).trees[p]
    ensures IsContents(list, After(s, log[..t]))
  {
    hide After, ShardOf, PathLess, Confined;
    var a, b := at[0], at[|at| - 1];
    forall q: Path
      ensures q in After(s, log[..t]).files <==> q in paths
    {
      ShardInRange(layout, q);
      Unmoved(s, log, a, b, p, q, t, at[1 + ShardOf(layout, q)]);
    }
    forall i | 0 <= i < |paths|
      ensures paths[i] in After(s, log[..t]).trees
      ensures list[i].parse == After(s, log[..t]).trees[paths[i]]
    {
      Unmoved(s, log, a, b, p, paths[i], t, at[layout.shards + 1 + i]);
    }
    PathsOf(list, paths, After(s, log[..t]));
  }

  /** If the file was listed, its parse was read from a state that lists it, or from one where
      it has just been unlisted and its parse is still the old one. */
  lemma {:induction false} ListedInstant(s: State, log: seq<Step>, a: nat, b: nat, p: Path, c: nat, r: nat)
    returns (t: nat)
    requires a <= c <= r <= b <= |log| && Confined(log, a, b, p)
    requires p in After(s, log[..c]).files && p in After(s, log[..r]).trees
    ensures c <= t <= r && p in After(s, log[..t]).files
    ensures p in After(s, log[..t]).trees && After(s, log[..t]).trees[p] == After(s, log[..r]).trees[p]
  {
    hide After;
    if p in After(s, log[..r]).files {
      t := r;
    } else {
      t := FindDrop(s, log, c, r, p);
      TreeWasThere(s, log, t, r, p);
    }
  }

  /** What a successful run says about a file: whether its shard held it when visited ... */
  lemma {:induction false} WhatWasListed(layout: Layout, s: State, log: seq<Step>, at: seq<nat>, paths: seq<Path>,
                                         list: seq<Source>, p: Path)
    requires Succeeds(layout, s, log, at, paths, list)
    ensures 1 + ShardOf(layout, p) < |at|
    ensures at[0] <= at[1 + ShardOf(layout, p)] <= at[|at| - 1]
    ensures p in After(s, log[..at[1 + ShardOf(layout, p)]]).files <==> p in paths
  {
    hide After, ShardOf, PathLess, StrictlySorted;
    ShardInRange(layout, p);
  }

  /** ... and, if it is listed, which parse was found for it later. */
  lemma {:induction false} WhatWasRead(layout: Layout, s: State, log: seq<Step>, at: seq<nat>, paths: seq<Path>,
                                       list: seq<Source>, i: nat)
    requires Succeeds(layout, s, log, at, paths, list) && i < |paths|
    ensures |list| == |paths| && |at| == layout.shards + |paths| + 2
    ensures 1 + ShardOf(layout, paths[i]) < |at|
    ensures at[1 + ShardOf(layout, paths[i])] <= at[layout.shards + 1 + i] <= at[|at| - 1]
    ensures paths[i] in After(s, log[..at[layout.shards + 1 + i]]).trees
    ensures list[i].parse == After(s, log[..at[layout.shards + 1 + i]]).trees[paths[i]]
  {
    hide After, ShardOf, PathLess, StrictlySorted, Lists, ListsAll;
    ShardInRange(layout, paths[i]);
  }

  lemma {:induction false} ListsOnce(layout: Layout, s: State, log: seq<Step>, at: seq<nat>, paths: seq<Path>,
                                     list: seq<Source>)
    requires Succeeds(layout, s, log, at, paths, list)
    ensures |list| == |paths| && StrictlySorted(paths)
  {
    hide After, ShardOf, PathLess, StrictlySorted, Cached;
  }

  lemma {:induction false} FindInstant(layout: Layout, s: State, log: seq<Step>, at: seq<nat>, paths: seq<Path>,
                                       list: seq<Source>, p: Path) returns (t: nat)
    requires Succeeds(layout, s, log, at, paths, list)
    requires Confined(log, at[0], at[|at| - 1], p)
    ensures |list| == |paths|
    ensures at[0] <= t <= at[|at| - 1]
    ensures p in After(s, log[..t]).files <==> p in paths
    ensures forall i :: 0 <= i < |paths| && paths[i] == p ==>
              p in After(s, log[..t]).trees && list[i].parse == After(s, log[..t]).trees[p]
  {
    hide After, ShardOf, Confined, StrictlySorted, Answers;
    WhatWasListed(layout, s, log, at, paths, list, p);
    ListsOnce(layout, s, log, at, paths, list);
    var c := at[1 + ShardOf(layout, p)];
    t := c;
    if p in paths {
      var i :| 0 <= i < |paths| && paths[i] == p;
      WhatWasRead(layout, s, log, at, paths, list, i);
      t := ListedInstant(s, log, at[0], at[|at| - 1], p, c, at[layout.shards + 1 + i]);
      OnlyPlace(paths, i);
    }
  }

  /** While only one file changes, and nothing dropped comes back, a successful snapshot is the
      contents of one state, although no lock is held and no revision tells. */
  lemma {:induction false} OneFileIsAtomic(layout: Layout, s: State, log: seq<Step>, at: seq<nat>, paths: seq<Path>,
                                           list: seq<Source>, p: Path)
    requires Succeeds(layout, s, log, at, paths, list)
    requires OneFile(log[at[0]..at[|at| - 1]], p)
    ensures AtOneInstant(list, s, log, at)
  {
    hide After, Answers, IsContents, OneFile, Confined;
    OneFileIsConfined(log, at[0], at[|at| - 1], p);
    var t := FindInstant(layout, s, log, at, paths, list, p);
    SameForOthers(layout, s, log, at, paths, list, p, t);
  }

  lemma {:induction false} OnlyPlace(paths: seq<Path>, i: nat)
    requires StrictlySorted(paths) && i < |paths|
    ensures forall j :: 0 <= j < |paths| && paths[j] == paths[i] ==> j == i
  {
    PathOrder();
  }

  // ----- What the revision tells -----

  function Marks(steps: seq<Step>): nat {
    if steps == [] then 0 else Marks(steps[..|steps| - 1]) + if steps[|steps| - 1].Mark? then 1 else 0
  }

  lemma {:induction false} RevisionFits(s: State, log: seq<Step>)
    requires s.revision < REVISIONS
    ensures After(s, log).revision < REVISIONS
  {
    if log != [] {
      RevisionFits(s, log[..|log| - 1]);
    }
  }

  lemma {:induction false} NextRevision(r: nat, n: nat)
    ensures ((r + n) % REVISIONS + 1) % REVISIONS == (r + n + 1) % REVISIONS
  {
  }

  lemma {:induction false} RevisionCounts(s: State, log: seq<Step>, a: nat, b: nat)
    requires a <= b <= |log| && s.revision < REVISIONS
    ensures After(s, log[..b]).revision == (After(s, log[..a]).revision + Marks(log[a..b])) % REVISIONS
    decreases b
  {
    hide After;
    if a < b {
      RevisionCounts(s, log, a, b - 1);
      AfterStep(s, log, b - 1);
      assert log[a..b][..b - 1 - a] == log[a..b - 1] && log[a..b][b - 1 - a] == log[b - 1];
      NextRevision(After(s, log[..a]).revision, Marks(log[a..b - 1]));
    } else {
      RevisionFits(s, log[..a]);
      assert log[a..b] == [];
    }
  }

  lemma {:induction false} NoMarks(steps: seq<Step>)
    ensures Marks(steps) <= |steps|
    ensures Marks(steps) == 0 <==> forall i :: 0 <= i < |steps| ==> !steps[i].Mark?
  {
    if steps != [] {
      var n := |steps| - 1;
      NoMarks(steps[..n]);
      assert forall i :: 0 <= i < n ==> steps[..n][i] == steps[i];
      assert steps[n].Mark? ==> Marks(steps) > 0;
    }
  }

  /** Nothing was marked while a successful snapshot was taken, unless the revision came all
      the way round. */
  lemma {:induction false} SuccessSeesNoMark(layout: Layout, s: State, log: seq<Step>, at: seq<nat>, paths: seq<Path>,
                                             list: seq<Source>)
    requires Succeeds(layout, s, log, at, paths, list)
    requires Marks(log[at[0]..at[|at| - 1]]) < REVISIONS
    ensures forall i :: at[0] <= i < at[|at| - 1] ==> !log[i].Mark?
  {
    hide After, Lists, ListsAll, Marks;
    var a, b := at[0], at[|at| - 1];
    RevisionFits(s, log[..a]);
    RevisionCounts(s, log, a, b);
    NoWrap(After(s, log[..a]).revision, Marks(log[a..b]));
    NoMarks(log[a..b]);
    assert forall i :: a <= i < b ==> log[i] == log[a..b][i - a];
  }

  lemma {:induction false} NoWrap(r: nat, n: nat)
    requires r < REVISIONS && n < REVISIONS && (r + n) % REVISIONS == r
    ensures n == 0
  {
  }

  /** Every change made while the snapshot is taken is marked before it is finished. */
  predicate Published(log: seq<Step>, a: nat, b: nat)
    requires a <= b <= |log|
  {
    forall i :: a <= i < b && !log[i].Mark? ==> exists j :: i < j < b && log[j].Mark?
  }

  lemma {:induction false} PublishedHasMark(log: seq<Step>, a: nat, b: nat)
    requires a < b ==> b <= |log|
    ensures a < b && Published(log, a, b) ==> exists i :: a <= i < b && log[i].Mark?
  {
    if a < b && Published(log, a, b) && !log[a].Mark? {
      var j :| a < j < b && log[j].Mark?;
    }
  }

  /** If changes become visible only together with their mark, a successful snapshot is the
      contents of every state between its two looks at the revision. */
  lemma {:induction false} PublishedIsAtomic(layout: Layout, s: State, log: seq<Step>, at: seq<nat>, paths: seq<Path>,
                                             list: seq<Source>)
    requires Succeeds(layout, s, log, at, paths, list)
    requires Marks(log[at[0]..at[|at| - 1]]) < REVISIONS
    requires Published(log, at[0], at[|at| - 1])
    ensures forall t :: at[0] <= t <= at[|at| - 1] ==> IsContents(list, After(s, log[..t]))
  {
    hide Answers, After, IsContents;
    SuccessSeesNoMark(layout, s, log, at, paths, list);
    var a, b := at[0], at[|at| - 1];
    PublishedHasMark(log, a, b);
    assert a == b;
    OneFileIsAtomic(layout, s, log, at, paths, list, []);
  }

  /** While nothing changes, the snapshot of a settled workspace succeeds. */
  lemma {:induction false} QuietSucceeds(layout: Layout, s: State, log: seq<Step>, at: seq<nat>, paths: seq<Path>,
                                         outcome: Outcome)
    requires |at| > 0 && Times(log, at) && at[0] == at[|at| - 1]
    requires Answers(layout, SeenBy(s, log, at), paths, outcome)
    requires Settled(After(s, log[..at[0]]))
    ensures outcome.Ok? && IsContents(outcome.sources, After(s, log[..at[0]]))
  {
    hide After, ShardOf, PathLess;
    var now := After(s, log[..at[0]]);
    assert forall k :: 0 <= k < |at| ==> at[k] == at[0];
    forall q: Path ensures q in now.files <==> q in paths {
      ShardInRange(layout, q);
    }
    if outcome.Ok? {
      PathsOf(outcome.sources, paths, now);
    }
  }

  lemma {:induction false} TimesOf(layout: Layout, s: State, log: seq<Step>, at: seq<nat>, paths: seq<Path>,
                                   list: seq<Source>)
    requires Succeeds(layout, s, log, at, paths, list)
    ensures |at| > 0 && Times(log, at)
  {
  }

  // ----- The answer is determined -----

  lemma {:induction false} ListingIsSorted(paths: seq<Path>)
    requires StrictlySorted(paths)
    ensures IsSorted(PathLess, paths)
    ensures forall p :: multiset(paths)[p] == if p in paths then 1 else 0
  {
    PathOrder();
    forall p ensures multiset(paths)[p] == if p in paths then 1 else 0 {
      OncePerPath(paths, p);
    }
  }

  lemma {:induction false} OncePerPath(paths: seq<Path>, p: Path)
    requires StrictlySorted(paths)
    ensures multiset(paths)[p] == if p in paths then 1 else 0
  {
    if paths != [] {
      var n := |paths| - 1;
      OncePerPath(paths[..n], p);
      PathOrder();
      assert paths == paths[..n] + [paths[n]];
      assert paths[n] !in paths[..n];
    }
  }

  /** What the reader sees decides its answer. */
  lemma {:induction false} AnswersOnce(layout: Layout, seen: seq<State>, ps: seq<Path>, qs: seq<Path>, x: Outcome,
                                       y: Outcome)
    requires Answers(layout, seen, ps, x) && Answers(layout, seen, qs, y)
    ensures ps == qs && x == y
  {
    hide ShardOf, PathLess, StrictlySorted;
    ListingIsSorted(ps);
    ListingIsSorted(qs);
    PathOrder();
    assert forall p: Path :: p in ps <==> p in qs;
    assert multiset(ps) == multiset(qs);
    SortedUnique(PathLess, ps, qs);
    SameAnswer(layout, seen, ps, x, y);
  }

  lemma {:induction false} SameAnswer(layout: Layout, seen: seq<State>, ps: seq<Path>, x: Outcome, y: Outcome)
    requires Answers(layout, seen, ps, x) && Answers(layout, seen, ps, y)
    ensures x == y
  {
    hide ListsAll;
    if x.Ok? && y.Ok? {
      assert x.sources == y.sources;
    }
  }

  // ----- Sorting and removing repetitions -----

  function Dedup(xs: seq<Path>): seq<Path> {
    if |xs| <= 1 then xs
    else if xs[0] == xs[1] then Dedup(xs[1..])
    else [xs[0]] + Dedup(xs[1..])
  }

  lemma {:induction false} DedupLists(xs: seq<Path>)
    requires IsSorted(PathLess, xs)
    ensures StrictlySorted(Dedup(xs))
    ensures forall p :: p in Dedup(xs) <==> p in xs
    ensures xs != [] ==> Dedup(xs) != [] && Dedup(xs)[0] == xs[0]
  {
    hide PathLess;
    PathOrder();
    if |xs| > 1 {
      DedupLists(xs[1..]);
      assert xs == [xs[0]] + xs[1..];
      if xs[0] != xs[1] {
        var rest := Dedup(xs[1..]);
        assert PathLess(xs[0], xs[1]);
        forall j | 0 <= j < |rest| ensures PathLess(xs[0], rest[j]) {
          assert rest[0] == xs[1];
        }
      }
    }
  }

  // ----- Files without a usable declaration -----

  datatype Reason = ParseSource | MissingObjectDeclaration | InvalidObjectKind | InvalidObjectId

  datatype Usable = Usable(path: Path, parse: Parse, objects: seq<Declaration>)

  datatype Validated = Valid(source: Usable) | Skip(path: Path, reason: Reason)

  predicate Usable?(d: Declaration) { d.kindKnown && d.idKnown }

  function UsableOf(ds: seq<Declaration>): seq<Declaration> {
    if ds == [] then [] else (if Usable?(ds[0]) then [ds[0]] else []) + UsableOf(ds[1..])
  }

  /** A file is used if it has no error node and its first declaration is usable. */
  function Validate(source: Source): Validated {
    var ds := source.parse.declarations;
    if source.parse.broken then Skip(source.path, ParseSource)
    else if ds == [] then Skip(source.path, MissingObjectDeclaration)
    else if !ds[0].kindKnown then Skip(source.path, InvalidObjectKind)
    else if !ds[0].idKnown then Skip(source.path, InvalidObjectId)
    else Valid(Usable(source.path, source.parse, [ds[0]] + UsableOf(ds[1..])))
  }

  function UsedOf(list: seq<Source>): seq<Usable> {
    if list == [] then [] else
    var n := |list| - 1;
    var v := Validate(list[n]);
    UsedOf(list[..n]) + if v.Valid? then [v.source] else []
  }

  function SkippedOf(list: seq<Source>): seq<(Path, Reason)> {
    if list == [] then [] else
    var n := |list| - 1;
    var v := Validate(list[n]);
    SkippedOf(list[..n]) + if v.Skip? then [(v.path, v.reason)] else []
  }

  function Names(list: seq<Source>): seq<Path> {
    seq(|list|, i requires 0 <= i < |list| => list[i].path)
  }

  function UsedNames(used: seq<Usable>): seq<Path> {
    seq(|used|, i requires 0 <= i < |used| => used[i].path)
  }

  function SkippedNames(skipped: seq<(Path, Reason)>): seq<Path> {
    seq(|skipped|, i requires 0 <= i < |skipped| => skipped[i].0)
  }

  lemma {:induction false} SplitLast(list: seq<Source>)
    requires list != []
    ensures var n := |list| - 1;
            match Validate(list[n])
            case Valid(u) =>
              && u.path == list[n].path
              && UsedOf(list) == UsedOf(list[..n]) + [u]
              && SkippedOf(list) == SkippedOf(list[..n])
            case Skip(p, reason) =>
              && p == list[n].path
              && UsedOf(list) == UsedOf(list[..n])
              && SkippedOf(list) == SkippedOf(list[..n]) + [(p, reason)]
  {
  }

  /** No file is lost and none is reported twice: the listed paths are those of the used and
      of the skipped files together. */
  lemma {:induction false} SplitConserves(list: seq<Source>)
    ensures multiset(Names(list)) == multiset(UsedNames(UsedOf(list))) + multiset(SkippedNames(SkippedOf(list)))
  {
    if list != [] {
      hide UsedOf, SkippedOf, Validate;
      var n := |list| - 1;
      SplitConserves(list[..n]);
      SplitLast(list);
      assert Names(list) == Names(list[..n]) + [list[n].path];
      var used, skipped := UsedOf(list[..n]), SkippedOf(list[..n]);
      match Validate(list[n]) {
        case Valid(source) =>
          assert UsedNames(used + [source]) == UsedNames(used) + [list[n].path];
        case Skip(path, reason) =>
          assert SkippedNames(skipped + [(path, reason)]) == SkippedNames(skipped) + [list[n].path];
      }
    }
  }

  ghost predicate Answered(list: seq<Source>, v: Validated) {
    exists i :: 0 <= i < |list| && Validate(list[i]) == v
  }

  lemma {:induction false} AnsweredLast(list: seq<Source>, v: Validated)
    requires list != []
    ensures Answered(list, v) <==> Answered(list[..|list| - 1], v) || Validate(list[|list| - 1]) == v
  {
    hide Validate;
    var n := |list| - 1;
    assert forall i :: 0 <= i < n ==> list[..n][i] == list[i];
  }

  /** The used files are exactly the valid ones ... */
  lemma {:induction false} UsedIsExact(list: seq<Source>, u: Usable)
    ensures u in UsedOf(list) <==> Answered(list, Valid(u))
  {
    hide Validate, Answered;
    if list != [] {
      UsedIsExact(list[..|list| - 1], u);
      AnsweredLast(list, Valid(u));
    } else {
      NothingAnswered(Valid(u));
    }
  }

  /** ... and the others are skipped, each with its reason. */
  lemma {:induction false} SkippedIsExact(list: seq<Source>, p: Path, reason: Reason)
    ensures (p, reason) in SkippedOf(list) <==> Answered(list, Skip(p, reason))
  {
    hide Validate, Answered;
    if list != [] {
      SkippedIsExact(list[..|list| - 1], p, reason);
      AnsweredLast(list, Skip(p, reason));
    } else {
      NothingAnswered(Skip(p, reason));
    }
  }

  lemma {:induction false} NothingAnswered(v: Validated)
    ensures !Answered([], v)
  {
  }

  predicate Ordered(list: seq<Source>) {
    forall i, j :: 0 <= i < j < |list| ==> PathLess(list[i].path, list[j].path)
  }

  lemma {:induction false} AnsweredBefore(list: seq<Source>, v: Validated)
    requires Ordered(list) && list != [] && Answered(list[..|list| - 1], v)
    ensures PathLess(if v.Valid? then v.source.path else v.path, list[|list| - 1].path)
  {
    hide PathLess;
    var n := |list| - 1;
    var i :| 0 <= i < n && Validate(list[..n][i]) == v;
    assert list[..n][i] == list[i];
  }

  /** Both parts keep the order of the list. */
  lemma {:induction false} UsedKeepsOrder(list: seq<Source>)
    requires Ordered(list)
    ensures StrictlySorted(UsedNames(UsedOf(list)))
  {
    hide PathLess, Answered, UsedOf, SkippedOf;
    if list != [] {
      var n := |list| - 1;
      UsedKeepsOrder(list[..n]);
      SplitLast(list);
      var used := UsedOf(list[..n]);
      forall k | 0 <= k < |used| ensures PathLess(used[k].path, list[n].path) {
        UsedIsExact(list[..n], used[k]);
        AnsweredBefore(list, Valid(used[k]));
      }
      assert forall k :: 0 <= k < |used| ==> UsedNames(used)[k] == UsedNames(UsedOf(list))[k];
    } else {
      NoneIsSorted();
    }
  }

  lemma {:induction false} SkippedKeepsOrder(list: seq<Source>)
    requires Ordered(list)
    ensures StrictlySorted(SkippedNames(SkippedOf(list)))
  {
    hide PathLess, Answered, UsedOf, SkippedOf;
    if list != [] {
      var n := |list| - 1;
      SkippedKeepsOrder(list[..n]);
      SplitLast(list);
      var skipped := SkippedOf(list[..n]);
      forall k | 0 <= k < |skipped| ensures PathLess(skipped[k].0, list[n].path) {
        SkippedIsExact(list[..n], skipped[k].0, skipped[k].1);
        AnsweredBefore(list, Skip(skipped[k].0, skipped[k].1));
      }
      assert forall k :: 0 <= k < |skipped| ==> SkippedNames(skipped)[k] == SkippedNames(SkippedOf(list))[k];
    } else {
      NoneIsSorted();
    }
  }

  lemma {:induction false} NoneIsSorted()
    ensures StrictlySorted(UsedNames(UsedOf([]))) && StrictlySorted(SkippedNames(SkippedOf([])))
  {
  }
}
