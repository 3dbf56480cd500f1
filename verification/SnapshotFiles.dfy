/** Which files a snapshot uses, in terms of what the files hold. */
module SnapshotFiles {
  import opened Snapshot

  /** A declaration with a known kind and a known id. */
  predicate IsUsable(d: Declaration) {
    d.kindKnown && d.idKnown
  }

  /** No error node, and a usable declaration in front. */
  predicate IsUsed(source: Source) {
    var ds := source.parse.declarations;
    !source.parse.broken && ds != [] && IsUsable(ds[0])
  }

  /** How many usable declarations stand in front of place `k`. */
  function Rank(ds: seq<Declaration>, k: nat): nat
    requires k <= |ds|
  {
    if k == 0 then 0 else Rank(ds, k - 1) + if IsUsable(ds[k - 1]) then 1 else 0
  }

  /** `objects` are the usable ones of `ds`, in their order. */
  ghost predicate PicksUsable(ds: seq<Declaration>, objects: seq<Declaration>) {
    && |objects| == Rank(ds, |ds|)
    && forall k :: 0 <= k < |ds| && IsUsable(ds[k]) ==> Rank(ds, k) < |objects| && objects[Rank(ds, k)] == ds[k]
  }

  lemma {:induction false} UsableUnfolds(ds: seq<Declaration>)
    requires ds != []
    ensures UsableOf(ds) == (if IsUsable(ds[0]) then [ds[0]] else []) + UsableOf(ds[1..])
  {
  }

  lemma {:induction false} UsableAppends(xs: seq<Declaration>, ys: seq<Declaration>)
    ensures UsableOf(xs + ys) == UsableOf(xs) + UsableOf(ys)
  {
    if xs == [] {
      assert xs + ys == ys;
    } else {
      hide UsableOf, IsUsable;
      assert (xs + ys)[1..] == xs[1..] + ys;
      UsableUnfolds(xs);
      UsableUnfolds(xs + ys);
      UsableAppends(xs[1..], ys);
      var first := if IsUsable(xs[0]) then [xs[0]] else [];
      assert first + (UsableOf(xs[1..]) + UsableOf(ys)) == first + UsableOf(xs[1..]) + UsableOf(ys);
    }
  }

  lemma {:induction false} UsableInFront(ds: seq<Declaration>, k: nat)
    requires k <= |ds|
    ensures |UsableOf(ds[..k])| == Rank(ds, k)
    ensures UsableOf(ds) == UsableOf(ds[..k]) + UsableOf(ds[k..])
  {
    UsableAppends(ds[..k], ds[k..]);
    assert ds[..k] + ds[k..] == ds;
    if k > 0 {
      UsableInFront(ds, k - 1);
      assert ds[..k] == ds[..k - 1] + [ds[k - 1]];
      UsableAppends(ds[..k - 1], [ds[k - 1]]);
    }
  }

  lemma {:induction false} UsableAre(ds: seq<Declaration>)
    ensures PicksUsable(ds, UsableOf(ds))
  {
    UsableInFront(ds, |ds|);
    assert ds[..|ds|] == ds;
    forall k | 0 <= k < |ds| && IsUsable(ds[k])
      ensures Rank(ds, k) < |UsableOf(ds)| && UsableOf(ds)[Rank(ds, k)] == ds[k]
    {
      UsableInFront(ds, k);
      FirstUsable(ds[k..]);
    }
  }

  lemma {:induction false} RankReached(ds: seq<Declaration>, n: nat, r: nat) returns (k: nat)
    requires n <= |ds| && r < Rank(ds, n)
    ensures k < n && IsUsable(ds[k]) && Rank(ds, k) == r
  {
    if r < Rank(ds, n - 1) {
      k := RankReached(ds, n - 1, r);
    } else {
      k := n - 1;
    }
  }

  lemma {:induction false} SamePicks(ds: seq<Declaration>, xs: seq<Declaration>, ys: seq<Declaration>)
    requires PicksUsable(ds, xs) && PicksUsable(ds, ys)
    ensures xs == ys
  {
    hide Rank;
    forall r | 0 <= r < |xs| ensures xs[r] == ys[r] {
      var k := RankReached(ds, |ds|, r);
    }
  }

  /** A used file is listed, holds no error node, has a usable declaration in front, and brings
      all its usable declarations in order; and every such file is used. */
  lemma {:induction false} UsedFiles(list: seq<Source>, u: Usable)
    ensures u in UsedOf(list) <==>
            && Source(u.path, u.parse) in list && IsUsed(Source(u.path, u.parse))
            && PicksUsable(u.parse.declarations, u.objects)
  {
    hide UsableOf, UsedOf, PicksUsable;
    UsedIsExact(list, u);
    var source, ds := Source(u.path, u.parse), u.parse.declarations;
    UsableAre(ds);
    if PicksUsable(ds, u.objects) {
      SamePicks(ds, u.objects, UsableOf(ds));
    }
    if IsUsed(source) {
      FirstUsable(ds);
    }
    if source in list {
      var i :| 0 <= i < |list| && list[i] == source;
    }
  }

  lemma {:induction false} FirstUsable(ds: seq<Declaration>)
    requires ds != [] && IsUsable(ds[0])
    ensures UsableOf(ds) == [ds[0]] + UsableOf(ds[1..])
  {
  }

  /** Every other listed file is skipped, with the first of these reasons that holds: an error
      node, no declaration, no known kind or no known id of the first declaration. */
  lemma {:induction false} SkippedFiles(list: seq<Source>, p: Path, reason: Reason)
    ensures (p, reason) in SkippedOf(list) <==>
            exists i :: 0 <= i < |list| && list[i].path == p && SkippedFor(list[i], reason)
  {
    hide SkippedOf;
    SkippedIsExact(list, p, reason);
    if i :| 0 <= i < |list| && list[i].path == p && SkippedFor(list[i], reason) {
      assert Validate(list[i]) == Skip(p, reason);
    }
    if i :| 0 <= i < |list| && Validate(list[i]) == Skip(p, reason) {
      assert list[i].path == p && SkippedFor(list[i], reason);
    }
  }

  predicate SkippedFor(source: Source, reason: Reason) {
    var ds := source.parse.declarations;
    match reason
    case ParseSource => source.parse.broken
    case MissingObjectDeclaration => !source.parse.broken && ds == []
    case InvalidObjectKind => !source.parse.broken && ds != [] && !ds[0].kindKnown
    case InvalidObjectId => !source.parse.broken && ds != [] && ds[0].kindKnown && !ds[0].idKnown
  }

  /** A file is either used or skipped, and for one reason. */
  lemma {:induction false} UsedOrSkipped(source: Source)
    ensures IsUsed(source) <==> forall reason :: !SkippedFor(source, reason)
    ensures forall x, y :: SkippedFor(source, x) && SkippedFor(source, y) ==> x == y
  {
    if !IsUsed(source) {
      assert || SkippedFor(source, ParseSource) || SkippedFor(source, MissingObjectDeclaration)
             || SkippedFor(source, InvalidObjectKind) || SkippedFor(source, InvalidObjectId);
    }
  }

  /** More declarations behind the first never change whether a file is used. */
  lemma {:induction false} FirstDecides(source: Source, more: Declaration)
    requires source.parse.declarations != []
    ensures var longer := source.(parse := source.parse.(declarations := source.parse.declarations + [more]));
            Validate(longer).Valid? <==> Validate(source).Valid?
    ensures Validate(source).Valid? <==> IsUsed(source)
  {
    hide UsableOf;
  }

  /** A mark counts the generation up by one, and from the last 64-bit number back to 0. */
  lemma {:induction false} MarkCounts(s: State)
    requires s.revision < 0x1_0000_0000_0000_0000
    ensures Do(s, Mark).revision == if s.revision == 18_446_744_073_709_551_615 then 0 else s.revision + 1
    ensures Do(s, Mark).files == s.files && Do(s, Mark).trees == s.trees
  {
  }
}
