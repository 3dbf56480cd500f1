/** The snapshot reader and the workspace it reads.

    Before each access of the reader other threads take any steps they like. `log` is
    what they have done so far, and `at` records how far the log had come at each access.
    The reader visits the shards of the file index one by one, sorts what it found and removes
    repetitions, looks every file up in the parse cache and compares the revision with the one
    it began with. Its answer is tied to the states it saw, and nothing else. */
module WorkspaceSources {
  import opened Options
  import opened Sorting
  import opened Snapshot

  /** A workspace shared with other threads: before each access of the reader they take the
      next of the steps in `coming`. */
  class Workspace {
    const layout: Layout
    var files: set<Path>
    var trees: map<Path, Parse>
    var revision: nat
    var coming: seq<seq<Step>>
    ghost const start: State
    ghost var log: seq<Step>
    ghost var at: seq<nat>

    function Now(): State
      reads this
    {
      State(files, trees, revision)
    }

    /** The state is the result of the logged steps, and the accesses made so far are points of
        the log. */
    ghost predicate Valid()
      reads this
    {
      && Now() == After(start, log)
      && start.revision < REVISIONS
      && Times(log, at)
    }

    constructor (layout: Layout, state: State, coming: seq<seq<Step>>)
      requires state.revision < REVISIONS
      ensures Valid() && Now() == state && this.layout == layout && start == state && log == [] && at == []
    {
      this.layout := layout;
      files, trees, revision := state.files, state.trees, state.revision;
      this.coming := coming;
      start, log, at := state, [], [];
    }

    /** One atomic step of another thread. */
    method Take(step: Step)
      requires Now() == After(start, log)
      modifies `files, `trees, `revision, `log
      ensures Now() == Do(old(Now()), step)
      ensures log == old(log) + [step] && Now() == After(start, log)
    {
      match step {
        case PutTree(path, parse) => trees := trees[path := parse];
        case PutFile(path) => files := files + {path};
        case DropFile(path) => files := files - {path};
        case DropTree(path) => trees := trees - {path};
        case Mark => revision := (revision + 1) % REVISIONS;
      }
      log := log + [step];
      assert log[..|log| - 1] == old(log);
    }

    /** The states that the accesses made so far saw. */
    ghost function Seen(): seq<State>
      requires Valid()
      reads this
    {
      SeenBy(start, log, at)
    }

    lemma {:induction false} SeenGrows(before: seq<Step>, times: seq<nat>)
      requires Valid() && Times(before, times)
      requires before <= log && at == times + [|log|]
      ensures Seen() == SeenBy(start, before, times) + [Now()]
    {
      hide After;
      forall k | 0 <= k < |times| ensures log[..times[k]] == before[..times[k]] {
      }
      assert log[..|log|] == log;
    }

    /** The other threads take their steps, and an access sees the state they leave. */
    method Interfere()
      requires Valid()
      modifies this
      ensures Valid() && old(log) <= log
      ensures at == old(at) + [|log|] && Seen() == old(Seen()) + [Now()]
      ensures log == old(log) + if old(coming) == [] then [] else old(coming)[0]
      ensures coming == if old(coming) == [] then [] else old(coming)[1..]
    {
      hide Do, After;
      ghost var before, times := log, at;
      if coming != [] {
        var steps := coming[0];
        coming := coming[1..];
        for i := 0 to |steps|
          invariant Now() == After(start, log)
          invariant log == old(log) + steps[..i]
          invariant at == old(at) && coming == old(coming)[1..]
        {
          Take(steps[i]);
        }
      }
      at := at + [|log|];
      SeenGrows(before, times);
    }

    method GenerationRevision() returns (r: nat)
      requires Valid()
      modifies this
      ensures Valid() && old(log) <= log
      ensures at == old(at) + [|log|] && Seen() == old(Seen()) + [Now()]
      ensures r == Now().revision
    {
      Interfere();
      r := revision;
    }

    /** The keys in one shard of `files`, in whatever order it holds them. */
    method KeysOf(shard: nat) returns (keys: seq<Path>)
      requires Valid()
      modifies this
      ensures Valid() && old(log) <= log
      ensures at == old(at) + [|log|] && Seen() == old(Seen()) + [Now()]
      ensures forall p :: p in keys <==> p in Now().files && ShardOf(layout, p) == shard
    {
      hide After, ShardOf;
      Interfere();
      keys := [];
      var left := set p | p in files && ShardOf(layout, p) == shard;
      while left != {}
        invariant forall p :: p in keys || p in left <==> p in files && ShardOf(layout, p) == shard
        decreases left
      {
        var p :| p in left;
        keys := keys + [p];
        left := left - {p};
      }
    }

    method GetCachedParse(path: Path) returns (parse: Option<Parse>)
      requires Valid()
      modifies this
      ensures Valid() && old(log) <= log
      ensures at == old(at) + [|log|] && Seen() == old(Seen()) + [Now()]
      ensures parse == if path in Now().trees then Some(Now().trees[path]) else None
    {
      Interfere();
      parse := if path in trees then Some(trees[path]) else None;
    }

    /** The listing at the start of the snapshot: every shard in turn, sorted, without
        repetitions. The states seen from place `n` on are those of this run. */
    method ListPaths(ghost n: nat) returns (paths: seq<Path>)
      requires Valid() && |at| == n + 1
      modifies this
      ensures Valid() && old(log) <= log && old(at) <= at && |at| == n + 1 + layout.shards
      ensures old(Seen()) <= Seen() && ListsAll(layout, Seen()[n..], paths)
    {
      hide After, ShardOf, PathLess, StrictlySorted, Dedup;
      var found := [];
      for k := 0 to layout.shards
        invariant Valid() && old(log) <= log && old(at) <= at && old(Seen()) <= Seen()
        invariant |at| == n + 1 + k
        invariant forall p :: p in found <==> ShardOf(layout, p) < k && p in Seen()[n + 1 + ShardOf(layout, p)].files
      {
        var keys := KeysOf(k);
        found := found + keys;
      }
      paths := Dedup(Sort(PathLess, found));
      ListingOf(found);
      forall p: Path ensures ShardOf(layout, p) < layout.shards {
        ShardInRange(layout, p);
      }
    }

    /** Looks up the listed files one by one; a file without a cached parse ends the snapshot. */
    method ReadSources(names: seq<Path>, ghost n: nat) returns (missing: Option<Path>, sources: seq<Source>)
      requires Valid() && |at| == n + 1 + layout.shards
      modifies this
      ensures Valid() && old(log) <= log && old(at) <= at && old(Seen()) <= Seen()
      ensures |sources| <= |names| && |at| > n + layout.shards + |sources|
      ensures Cached(layout, Seen()[n..], names, |sources|)
      ensures forall j :: 0 <= j < |sources| ==>
                sources[j] == Source(names[j], Seen()[n + layout.shards + 1 + j].trees[names[j]])
      ensures match missing
              case None => |sources| == |names| && |at| == n + 1 + layout.shards + |names|
              case Some(path) =>
                && |sources| < |names| && |at| == n + 2 + layout.shards + |sources|
                && path == names[|sources|] && path !in Seen()[|at| - 1].trees
    {
      hide After;
      sources := [];
      for i := 0 to |names|
        invariant Valid() && old(log) <= log && old(at) <= at && old(Seen()) <= Seen()
        invariant |at| == n + 1 + layout.shards + i && |sources| == i
        invariant Cached(layout, Seen()[n..], names, i)
        invariant forall j :: 0 <= j < i ==>
                    sources[j] == Source(names[j], Seen()[n + layout.shards + 1 + j].trees[names[j]])
      {
        var parse := GetCachedParse(names[i]);
        if parse.None? {
          return Some(names[i]), sources;
        }
        sources := sources + [Source(names[i], parse.value)];
      }
      missing := None;
    }

    /** `coherent_snapshot`. */
    method CoherentSnapshot() returns (outcome: Outcome, ghost paths: seq<Path>)
      requires Valid()
      modifies this
      ensures Valid() && old(log) <= log && old(at) <= at
      ensures Answers(layout, Seen()[|old(at)|..], paths, outcome)
    {
      hide After, ListsAll;
      ghost var n := |at|;
      var first := GenerationRevision();
      var names := ListPaths(n);
      paths := names;
      ghost var listing := Seen()[n..];
      var missing, sources := ReadSources(names, n);
      if missing.Some? {
        ListingKept(layout, listing, Seen()[n..], names);
        return MissingCachedParse(missing.value), names;
      }
      var last := GenerationRevision();
      ListingKept(layout, listing, Seen()[n..], names);
      outcome := if last != first then GenerationChanged else Ok(sources);
    }

    lemma {:induction false} SeenFrom(n: nat)
      requires Valid() && n <= |at|
      ensures Times(log, at[n..]) && Seen()[n..] == SeenBy(start, log, at[n..])
    {
      hide After;
    }

    /** `snapshot_with_skipped`: a snapshot, whose files are then used or skipped. */
    method SnapshotWithSkipped()
      returns (outcome: Outcome, sources: seq<Usable>, skipped: seq<(Path, Reason)>, ghost paths: seq<Path>)
      requires Valid()
      modifies this
      ensures Valid() && old(log) <= log && old(at) <= at
      ensures Answers(layout, Seen()[|old(at)|..], paths, outcome)
      ensures match outcome
              case Ok(list) =>
                && Succeeds(layout, start, log, at[|old(at)|..], paths, list)
                && sources == UsedOf(list) && skipped == SkippedOf(list)
              case _ => sources == [] && skipped == []
    {
      hide After, Answers;
      ghost var n := |at|;
      outcome, paths := CoherentSnapshot();
      sources, skipped := [], [];
      if outcome.Ok? {
        SeenFrom(n);
        AccessesMade(layout, Seen()[n..], paths, outcome);
        sources, skipped := Split(outcome.sources);
      }
    }
  }

  lemma {:induction false} AccessesMade(layout: Layout, seen: seq<State>, paths: seq<Path>, outcome: Outcome)
    requires Answers(layout, seen, paths, outcome)
    ensures |seen| > 0
  {
  }

  /** Later accesses do not change what was listed. */
  lemma {:induction false} ListingKept(layout: Layout, listing: seq<State>, seen: seq<State>, paths: seq<Path>)
    requires |listing| > layout.shards && listing <= seen && ListsAll(layout, listing, paths)
    ensures ListsAll(layout, seen, paths)
  {
    hide ShardOf, PathLess;
    forall p: Path ensures ShardOf(layout, p) < layout.shards {
      ShardInRange(layout, p);
    }
  }

  lemma {:induction false} ListingOf(found: seq<Path>)
    ensures StrictlySorted(Dedup(Sort(PathLess, found)))
    ensures forall p :: p in Dedup(Sort(PathLess, found)) <==> p in found
  {
    PathOrder();
    SortSorts(PathLess, found);
    DedupLists(Sort(PathLess, found));
    assert forall p :: p in Sort(PathLess, found) <==> p in multiset(Sort(PathLess, found));
    assert forall p :: p in found <==> p in multiset(found);
  }

  // ----- Files without a usable declaration -----

  /** Every file goes one of two ways. */
  method Split(list: seq<Source>) returns (sources: seq<Usable>, skipped: seq<(Path, Reason)>)
    ensures sources == UsedOf(list) && skipped == SkippedOf(list)
  {
    sources, skipped := [], [];
    for i := 0 to |list|
      invariant sources == UsedOf(list[..i]) && skipped == SkippedOf(list[..i])
    {
      assert list[..i + 1][..i] == list[..i];
      match Validate(list[i]) {
        case Valid(source) => sources := sources + [source];
        case Skip(path, reason) => skipped := skipped + [(path, reason)];
      }
    }
    assert list[..|list|] == list;
  }
}
