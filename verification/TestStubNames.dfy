/** Which names test stubs get, character by character. */
module TestStubNames {
  import opened Decimal
  import opened Strings
  import opened TestStubs

  /** The characters an identifier can hold. */
  predicate Holds(alphanumeric: char -> bool, c: char) {
    alphanumeric(c) || c == '_'
  }

  /** Every other character is dropped, wherever it stands ... */
  lemma {:induction false} OthersAreDropped(alphanumeric: char -> bool, a: string, c: char, b: string)
    ensures Sanitized(alphanumeric, a + [c] + b)
            == Sanitized(alphanumeric, a) + (if Holds(alphanumeric, c) then [c] else []) + Sanitized(alphanumeric, b)
  {
    var s := a + [c] + b;
    if a == [] {
      assert s[1..] == b;
    } else {
      OthersAreDropped(alphanumeric, a[1..], c, b);
      assert s[1..] == a[1..] + [c] + b;
    }
  }

  /** ... and a name without any stays as it is. */
  lemma {:induction false} IdentifierStays(alphanumeric: char -> bool, s: string)
    requires forall i :: 0 <= i < |s| ==> Holds(alphanumeric, s[i])
    ensures Sanitized(alphanumeric, s) == s
  {
    if s != [] {
      IdentifierStays(alphanumeric, s[1..]);
      assert [s[0]] + s[1..] == s;
    }
  }

  /** Every public method has a stub, in order, and no local one has. */
  lemma {:induction false} PublicMethodsOnly(alphanumeric: char -> bool, a: seq<Method>, m: Method, b: seq<Method>)
    ensures Bases(alphanumeric, a + [m] + b)
            == Bases(alphanumeric, a) + (if m.isLocal then [] else [Sanitized(alphanumeric, m.name)])
               + Bases(alphanumeric, b)
  {
    hide Sanitized;
    var s := a + [m] + b;
    if b == [] {
      assert s == a + [m] && s[..|s| - 1] == a;
    } else {
      PublicMethodsOnly(alphanumeric, a, m, b[..|b| - 1]);
      assert s[..|s| - 1] == a + [m] + b[..|b| - 1];
    }
  }

  lemma {:induction false} LowerJoins(a: string, b: string)
    ensures Lower(a + b) == Lower(a) + Lower(b)
  {
  }

  lemma {:induction false} SameCandidates(a: string, b: string, k: nat)
    requires Lower(a) == Lower(b)
    ensures Lower(Candidate(a, k)) == Lower(Candidate(b, k))
  {
    hide Digits, Lower;
    LowerJoins(a, Digits(k));
    LowerJoins(b, Digits(k));
  }

  /** Methods whose names differ in letter case only are numbered: the first keeps its name, the
      second gets a 2 behind it, and so on. */
  lemma {:induction false} RepeatsAreNumbered(bases: seq<string>, names: seq<string>, i: nat)
    requires FirstFree(bases, names) && i < |names|
    requires forall j :: 0 <= j < |bases| ==> Lower(bases[j]) == Lower(bases[0])
    ensures names[i] == if i == 0 then bases[0] else bases[i] + Digits(i + 1)
    decreases i
  {
    hide Candidate, Digits, Lower;
    var taken := Lowered(names[..i]);
    forall m: nat | 1 <= m <= i ensures Lower(Candidate(bases[0], m)) in taken {
      RepeatsAreNumbered(bases, names, m - 1);
      NumberedIs(bases, m - 1);
      SameCandidates(bases[m - 1], bases[0], m);
      assert taken[m - 1] == Lower(names[m - 1]);
    }
    assert Chosen(bases, names, i);
    var k: nat :| ChosenAt(bases, names, i, k);
    SameCandidates(bases[i], bases[0], k);
    NumberedIs(bases, i);
  }

  lemma {:induction false} NumberedIs(bases: seq<string>, j: nat)
    requires j < |bases|
    ensures Candidate(bases[j], j + 1) == if j == 0 then bases[0] else bases[j] + Digits(j + 1)
  {
    hide Digits;
  }
}
