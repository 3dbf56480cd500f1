/** `generate_test_stubs`: one test procedure per public method, under a fresh name.

    Names lose the characters an identifier cannot hold, so different methods can come to the
    same base name. The suffix loop then tries the base name and the base name with 2, 3 and
    so on behind it until one is free, ignoring the case of ASCII letters. It ends because the
    candidates are all different, whatever their case, while only finitely many names are
    taken; and the first free candidate is what makes the resulting names pairwise distinct. */
module TestStubs {
  import opened Decimal
  import opened Strings

  datatype Method = Method(name: string, isLocal: bool)

  /** `sanitize_identifier`, for whichever characters count as alphanumeric. */
  function Sanitized(alphanumeric: char -> bool, name: string): string {
    if name == [] then []
    else (if alphanumeric(name[0]) || name[0] == '_' then [name[0]] else []) + Sanitized(alphanumeric, name[1..])
  }

  /** The `k`-th name tried for a method. */
  function Candidate(base: string, k: nat): string {
    if k == 1 then base else base + Digits(k)
  }

  predicate Free(taken: seq<string>, base: string, k: nat) {
    Lower(Candidate(base, k)) !in taken
  }

  lemma {:induction false} LowerDigits(base: string, n: nat)
    ensures Lower(base + Digits(n)) == Lower(base) + Digits(n)
  {
    hide Digits;
    assert forall i :: 0 <= i < |Digits(n)| ==> IsDigit(Digits(n)[i]);
  }

  /** No two candidates are the same, even ignoring case. */
  lemma {:induction false} CandidatesDiffer(base: string, j: nat, k: nat)
    requires 1 <= j < k
    ensures Lower(Candidate(base, j)) != Lower(Candidate(base, k))
  {
    hide Digits;
    LowerDigits(base, j);
    LowerDigits(base, k);
    if j > 1 && Lower(base) + Digits(j) == Lower(base) + Digits(k) {
      assert (Lower(base) + Digits(j))[|base|..] == Digits(j);
      assert (Lower(base) + Digits(k))[|base|..] == Digits(k);
      DigitsInjective(j, k);
    }
  }

  predicate Distinct<T(==)>(xs: seq<T>) {
    forall i, j :: 0 <= i < j < |xs| ==> xs[i] != xs[j]
  }

  lemma {:induction false} DistinctOnce<T>(xs: seq<T>, x: T)
    requires Distinct(xs)
    ensures multiset(xs)[x] <= 1
  {
    if xs != [] {
      var n := |xs| - 1;
      DistinctOnce(xs[..n], x);
      assert xs == xs[..n] + [xs[n]];
      assert xs[n] !in xs[..n];
    }
  }

  /** Different pigeons in pigeonholes. */
  lemma {:induction false} Pigeonhole<T(!new)>(xs: seq<T>, holes: seq<T>)
    requires Distinct(xs) && forall i :: 0 <= i < |xs| ==> xs[i] in holes
    ensures |xs| <= |holes|
  {
    forall x ensures multiset(xs)[x] <= multiset(holes)[x] {
      DistinctOnce(xs, x);
      if x in multiset(xs) {
        assert x in holes;
      }
    }
    assert multiset(xs) <= multiset(holes);
    assert |multiset(holes)| == |multiset(xs)| + |multiset(holes) - multiset(xs)|;
  }

  /** While every candidate so far is taken, there are no more of them than taken names. */
  lemma {:induction false} FewTaken(taken: seq<string>, base: string, k: nat)
    requires forall j :: 1 <= j <= k ==> !Free(taken, base, j)
    ensures k <= |taken|
  {
    hide Candidate, Digits, Lower;
    var tried := seq(k, i requires 0 <= i < k => Lower(Candidate(base, i + 1)));
    forall i, j | 0 <= i < j < k ensures tried[i] != tried[j] {
      CandidatesDiffer(base, i + 1, j + 1);
    }
    forall i | 0 <= i < k ensures tried[i] in taken {
      assert !Free(taken, base, i + 1);
    }
    Pigeonhole(tried, taken);
  }

  /** The names chosen: each is the first free candidate of its method, and no method needs a
      suffix larger than its place in the list. */
  ghost predicate FirstFree(bases: seq<string>, names: seq<string>) {
    && |names| == |bases|
    && forall i :: 0 <= i < |names| ==> Chosen(bases, names, i)
  }

  ghost predicate Chosen(bases: seq<string>, names: seq<string>, i: nat)
    requires i < |names| == |bases|
  {
    exists k: nat :: ChosenAt(bases, names, i, k)
  }

  ghost predicate ChosenAt(bases: seq<string>, names: seq<string>, i: nat, k: nat)
    requires i < |names| == |bases|
  {
    && 1 <= k <= i + 1
    && names[i] == Candidate(bases[i], k)
    && Free(Lowered(names[..i]), bases[i], k)
    && forall j :: 1 <= j < k ==> !Free(Lowered(names[..i]), bases[i], j)
  }

  function Lowered(names: seq<string>): (l: seq<string>)
    ensures |l| == |names| && forall i :: 0 <= i < |names| ==> l[i] == Lower(names[i])
  {
    seq(|names|, i requires 0 <= i < |names| => Lower(names[i]))
  }

  function Bases(alphanumeric: char -> bool, methods: seq<Method>): seq<string> {
    if methods == [] then [] else
    var n := |methods| - 1;
    Bases(alphanumeric, methods[..n]) + if methods[n].isLocal then [] else [Sanitized(alphanumeric, methods[n].name)]
  }

  /** The suffix loop. */
  method FreshName(base: string, taken: seq<string>) returns (name: string, suffix: nat)
    ensures name == Candidate(base, suffix) && 1 <= suffix <= |taken| + 1
    ensures Free(taken, base, suffix) && forall j :: 1 <= j < suffix ==> !Free(taken, base, j)
  {
    hide Digits;
    name := base;
    suffix := 1;
    while Lower(name) in taken
      invariant suffix >= 1 && name == Candidate(base, suffix)
      invariant forall j :: 1 <= j < suffix ==> !Free(taken, base, j)
      decreases |taken| + 1 - suffix
    {
      FewTaken(taken, base, suffix);
      suffix := suffix + 1;
      name := base + Digits(suffix);
    }
    FewTaken(taken, base, suffix - 1);
  }

  /** `generate_test_stubs`, as far as the names of the stubs go. */
  method GenerateTestStubs(alphanumeric: char -> bool, methods: seq<Method>) returns (names: seq<string>)
    ensures FirstFree(Bases(alphanumeric, methods), names)
  {
    hide Free, Candidate, Sanitized, ChosenAt;
    names := [];
    var taken: seq<string> := [];
    ghost var bases: seq<string> := [];
    for i := 0 to |methods|
      invariant bases == Bases(alphanumeric, methods[..i])
      invariant taken == Lowered(names)
      invariant FirstFree(bases, names)
    {
      assert methods[..i + 1][..i] == methods[..i];
      if !methods[i].isLocal {
        var base := Sanitized(alphanumeric, methods[i].name);
        var name, suffix := FreshName(base, taken);
        OneMore(bases, names, base, name, suffix);
        bases := bases + [base];
        names := names + [name];
        taken := taken + [Lower(name)];
      }
    }
    assert methods[..|methods|] == methods;
  }

  lemma {:induction false} OneMore(bases: seq<string>, names: seq<string>, base: string, name: string, k: nat)
    requires FirstFree(bases, names) && 1 <= k <= |names| + 1
    requires name == Candidate(base, k) && Free(Lowered(names), base, k)
    requires forall j :: 1 <= j < k ==> !Free(Lowered(names), base, j)
    ensures FirstFree(bases + [base], names + [name])
  {
    hide Free, Candidate;
    var bs, ns := bases + [base], names + [name];
    forall i | 0 <= i < |ns| ensures Chosen(bs, ns, i) {
      if i < |names| {
        assert Chosen(bases, names, i);
        var m: nat :| ChosenAt(bases, names, i, m);
        assert ns[..i] == names[..i];
        assert ChosenAt(bs, ns, i, m);
      } else {
        assert ns[..i] == names;
        assert ChosenAt(bs, ns, i, k);
      }
    }
  }

  /** Names chosen this way are pairwise distinct, ignoring the case of ASCII letters. */
  lemma {:induction false} NamesAreDistinct(bases: seq<string>, names: seq<string>)
    requires FirstFree(bases, names)
    ensures Distinct(Lowered(names))
  {
    hide Candidate;
    forall i, j | 0 <= i < j < |names| ensures Lower(names[i]) != Lower(names[j]) {
      assert Chosen(bases, names, j);
      var k: nat :| ChosenAt(bases, names, j, k);
      assert Lowered(names[..j])[i] == Lower(names[i]);
    }
  }

  /** They are also the only names chosen this way ... */
  lemma {:induction false} NamesAreDetermined(bases: seq<string>, names: seq<string>, others: seq<string>, n: nat)
    requires FirstFree(bases, names) && FirstFree(bases, others) && n <= |bases|
    ensures names[..n] == others[..n]
  {
    hide Candidate, Free;
    if n > 0 {
      NamesAreDetermined(bases, names, others, n - 1);
      assert Chosen(bases, names, n - 1) && Chosen(bases, others, n - 1);
      var k: nat :| ChosenAt(bases, names, n - 1, k);
      var m: nat :| ChosenAt(bases, others, n - 1, m);
      assert names[..n] == names[..n - 1] + [names[n - 1]];
      assert others[..n] == others[..n - 1] + [others[n - 1]];
    }
  }

  /** ... and a name that no earlier stub has is kept as it is. */
  lemma {:induction false} UnusedNameIsKept(bases: seq<string>, names: seq<string>, i: nat)
    requires FirstFree(bases, names) && i < |names|
    ensures names[i] == bases[i] <==> Lower(bases[i]) !in Lowered(names[..i])
  {
    hide Digits;
    assert Chosen(bases, names, i);
    var k: nat :| ChosenAt(bases, names, i, k);
    assert Free(Lowered(names[..i]), bases[i], 1) <==> Lower(bases[i]) !in Lowered(names[..i]);
    assert k > 1 ==> |names[i]| > |bases[i]|;
  }
}
