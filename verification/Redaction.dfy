/** `sanitize_error_body`. */
module Redaction {
  // An HTTP error body is cut to 512 bytes and the values that follow credential-bearing words
  // are blanked, one word after another, each in its own pass over the text that the earlier
  // passes rewrote in place.

  import opened Options
  import opened Strings
  import opened Decimal

  type Needle = n: string | n != [] witness "="

  const ERROR_BODY_MAX := 512
  const REDACTED := "[REDACTED]"
  const HEADER_NEEDLES: seq<Needle> := [
    "Authorization: Bearer ", "Authorization:Bearer ", "Authorization: Basic ", "Authorization:Basic "
  ]
  const FIELD_NEEDLES: seq<Needle> := [
    "access_token=", "refresh_token=", "client_secret=", "client_assertion=", "password=", "pwd=", "username="
  ]
  const NEEDLES := HEADER_NEEDLES + FIELD_NEEDLES

  predicate IsTerminator(c: char) {
    IsWhitespace(c) || c == '"' || c == '&'
  }

  // ----- Occurrences and ends of values -----

  /** The lower-case needle `n` occurs in `s` at `i`, whatever the case of the letters of `s`. */
  predicate MatchAt(s: string, n: string, i: int) {
    0 <= i && i + |n| <= |s| && forall k :: 0 <= k < |n| ==> LowerChar(s[i + k]) == n[k]
  }

  /** Searches for an occurrence at or after `from`. */
  function FindFrom(s: string, n: string, from: nat): (r: Option<nat>)
    requires from <= |s|
    ensures r.Some? ==> from <= r.value && r.value + |n| <= |s|
    decreases |s| - from
  {
    if MatchAt(s, n, from) then Some(from)
    else if from == |s| then None
    else FindFrom(s, n, from + 1)
  }

  /** The search finds the first occurrence, if there is one. */
  lemma {:induction false} FindFromIsFirst(s: string, n: string, from: nat)
    requires from <= |s|
    ensures var r := FindFrom(s, n, from);
            && (r.None? ==> forall i :: from <= i ==> !MatchAt(s, n, i))
            && (r.Some? ==> MatchAt(s, n, r.value) && forall i :: from <= i < r.value ==> !MatchAt(s, n, i))
    decreases |s| - from
  {
    if !MatchAt(s, n, from) && from < |s| {
      FindFromIsFirst(s, n, from + 1);
    }
  }

  lemma {:induction false} FoundFirst(s: string, n: string, i: nat)
    requires MatchAt(s, n, i) && forall j :: 0 <= j < i ==> !MatchAt(s, n, j)
    ensures FindFrom(s, n, 0) == Some(i)
  {
    FindFromIsFirst(s, n, 0);
  }

  /** Skips to a terminator at or after `from`, or the end. */
  function ValueEnd(s: string, from: nat): (e: nat)
    requires from <= |s|
    ensures from <= e <= |s|
    decreases |s| - from
  {
    if from == |s| || IsTerminator(s[from]) then from else ValueEnd(s, from + 1)
  }

  /** A value ends at the first terminator, or at the end of the text. */
  lemma {:induction false} ValueEndIsFirst(s: string, from: nat, e: nat)
    requires from <= e <= |s|
    ensures ValueEnd(s, from) == e <==>
            Unterminated(s[from..e]) && StartsTerminated(s[e..])
    decreases |s| - from
  {
    if from == e {
    } else if IsTerminator(s[from]) {
      assert s[from..e][0] == s[from];
    } else {
      ValueEndIsFirst(s, from + 1, e);
      assert s[from..e] == [s[from]] + s[from + 1..e];
    }
  }

  predicate StartsTerminated(s: string) {
    s == [] || IsTerminator(s[0])
  }

  predicate Unterminated(s: string) {
    forall i :: 0 <= i < |s| ==> !IsTerminator(s[i])
  }

  // ----- One pass -----

  /** What the pass for one needle makes of a text: the value after its first occurrence is
      replaced, and the pass goes on behind the replacement. */
  function Pass(s: string, n: Needle): string
    decreases |s|
  {
    var r := FindFrom(s, n, 0);
    if r.None? then s else
    var start := r.value + |n|;
    s[..start] + REDACTED + Pass(s[ValueEnd(s, start)..], n)
  }

  function Passes(s: string, needles: seq<Needle>): string {
    if needles == [] then s
    else Pass(Passes(s, needles[..|needles| - 1]), needles[|needles| - 1])
  }

  /** What the proofs need of a needle: it holds no bracket, and its last character does not
      occur in the replacement. */
  predicate Separable(n: Needle) {
    && '[' !in n && ']' !in n
    && n[|n| - 1] !in Lower(REDACTED)
  }

  /** The replacement stands at `e`, followed by a terminator or the end. */
  predicate MarkedAt(s: string, e: int) {
    && 0 <= e <= |s| - |REDACTED|
    && s[e..e + |REDACTED|] == REDACTED
    && (e + |REDACTED| == |s| || IsTerminator(s[e + |REDACTED|]))
  }

  /** Every occurrence of `n` is followed by the replacement. */
  ghost predicate Blanked(s: string, n: string) {
    forall i :: MatchAt(s, n, i) ==> MarkedAt(s, i + |n|)
  }

  lemma {:induction false} MatchAvoidsBrackets(s: string, n: Needle, i: int, p: int)
    requires Separable(n) && MatchAt(s, n, i) && 0 <= p < |s| && (s[p] == '[' || s[p] == ']')
    ensures p < i || i + |n| <= p
  {
    forall q | i <= q < i + |n|
      ensures s[q] != '[' && s[q] != ']'
    {
      assert LowerChar(s[i + (q - i)]) == n[q - i];
      assert n[q - i] in n;
    }
  }

  lemma {:induction false} MatchEndsOutside(s: string, n: Needle, i: int, e: int)
    requires Separable(n) && MatchAt(s, n, i)
    requires 0 <= e && e + |REDACTED| <= |s| && s[e..e + |REDACTED|] == REDACTED
    ensures i + |n| <= e || e + |REDACTED| < i + |n|
  {
    assert LowerChar(s[i + (|n| - 1)]) == n[|n| - 1];
    forall p | e <= p < e + |REDACTED|
      ensures LowerChar(s[p]) in Lower(REDACTED)
    {
      assert s[p] == REDACTED[p - e];
      assert Lower(REDACTED)[p - e] in Lower(REDACTED);
    }
  }

  /** An occurrence of a separable needle does not touch a replacement. */
  lemma {:induction false} MatchInJoin(a: string, b: string, n: Needle, i: int)
    requires Separable(n) && MatchAt(a + REDACTED + b, n, i)
    ensures (i + |n| <= |a| && MatchAt(a, n, i)) ||
            (i >= |a| + |REDACTED| && MatchAt(b, n, i - |a| - |REDACTED|))
  {
    var s := a + REDACTED + b;
    assert s[|a|..|a| + |REDACTED|] == REDACTED;
    MatchAvoidsBrackets(s, n, i, |a|);
    MatchAvoidsBrackets(s, n, i, |a| + |REDACTED| - 1);
    MatchEndsOutside(s, n, i, |a|);
    if i + |n| <= |a| {
      assert s[..|a|] == a;
      MatchInPrefix(s, |a|, n, i);
    } else {
      var v := |a| + |REDACTED|;
      assert s[v..] == b;
      forall k | 0 <= k < |n| ensures LowerChar(b[i - v + k]) == n[k] {
        assert s[i + k] == s[v..][i - v + k];
      }
    }
  }

  lemma {:induction false} MatchInSuffix(s: string, v: nat, n: string, i: int)
    requires v <= |s| && MatchAt(s[v..], n, i)
    ensures MatchAt(s, n, v + i)
  {
    forall k | 0 <= k < |n| ensures LowerChar(s[v + i + k]) == n[k] {
      assert s[v..][i + k] == s[v + i + k];
    }
  }

  lemma {:induction false} MatchInPrefix(s: string, v: nat, n: string, i: int)
    requires v <= |s| && i + |n| <= v
    ensures MatchAt(s[..v], n, i) <==> MatchAt(s, n, i)
  {
  }

  /** A pass keeps the first character, and an empty text empty. */
  lemma {:induction false} PassKeepsFirst(s: string, n: Needle)
    ensures Pass(s, n) == [] <==> s == []
    ensures s != [] ==> Pass(s, n)[0] == s[0]
  {
  }

  lemma {:induction false} PassKeepsStart(s: string, n: Needle)
    requires StartsTerminated(s)
    ensures StartsTerminated(Pass(s, n))
  {
    PassKeepsFirst(s, n);
  }

  lemma {:induction false} MarkedInJoin(a: string, b: string, e: int)
    requires MarkedAt(b, e)
    ensures MarkedAt(a + REDACTED + b, |a| + |REDACTED| + e)
  {
    var s := a + REDACTED + b;
    var f := |a| + |REDACTED| + e;
    assert s[f..f + |REDACTED|] == b[e..e + |REDACTED|];
  }

  lemma {:induction false} MarkedAtJoin(a: string, b: string)
    requires StartsTerminated(b)
    ensures MarkedAt(a + REDACTED + b, |a|)
  {
    var s := a + REDACTED + b;
    assert s[|a|..|a| + |REDACTED|] == REDACTED;
  }

  lemma {:induction false} BlankedSuffix(s: string, v: nat, n: string)
    requires v <= |s| && Blanked(s, n)
    ensures Blanked(s[v..], n)
  {
    forall i | MatchAt(s[v..], n, i)
      ensures MarkedAt(s[v..], i + |n|)
    {
      MatchInSuffix(s, v, n, i);
      var e := v + i + |n|;
      assert s[v..][i + |n|..i + |n| + |REDACTED|] == s[e..e + |REDACTED|];
    }
  }

  /** A text put together around a replacement is blanked when its parts are. */
  lemma {:induction false} BlankedJoin(a: string, b: string, n: Needle)
    requires Separable(n) && Blanked(b, n)
    requires StartsTerminated(b)
    requires forall i :: MatchAt(a, n, i) && i + |n| < |a| ==>
                           i + |n| + |REDACTED| < |a| && MarkedAt(a, i + |n|)
    ensures Blanked(a + REDACTED + b, n)
  {
    var s := a + REDACTED + b;
    forall i | MatchAt(s, n, i)
      ensures MarkedAt(s, i + |n|)
    {
      MatchInJoin(a, b, n, i);
      var e := i + |n|;
      if e == |a| {
        MarkedAtJoin(a, b);
      } else if e < |a| {
        assert s[e..e + |REDACTED|] == a[e..e + |REDACTED|];
      } else {
        MarkedInJoin(a, b, e - |a| - |REDACTED|);
      }
    }
  }

  lemma {:induction false} UnmatchedBlanked(s: string, n: Needle)
    requires FindFrom(s, n, 0).None?
    ensures Pass(s, n) == s && Blanked(s, n)
  {
    FindFromIsFirst(s, n, 0);
  }

  /** The pass for a needle leaves each of its occurrences followed by the replacement. */
  lemma {:induction false} PassBlanks(s: string, n: Needle)
    requires Separable(n)
    ensures Blanked(Pass(s, n), n)
    decreases |s|
  {
    hide FindFrom, ValueEnd, StartsTerminated, Unterminated, Blanked, MarkedAt;
    FindFromIsFirst(s, n, 0);
    match FindFrom(s, n, 0)
    case None => UnmatchedBlanked(s, n);
    case Some(first) =>
      var start := first + |n|;
      var tail := s[ValueEnd(s, start)..];
      CutIsValue(s, start);
      PassBlanks(tail, n);
      PassKeepsStart(tail, n);
      forall i | MatchAt(s[..start], n, i)
        ensures i == first
      {
        MatchInPrefix(s, start, n, i);
      }
      BlankedJoin(s[..start], Pass(tail, n), n);
  }

  /** A later pass undoes no earlier one and creates no occurrence that is not blanked. */
  lemma {:induction false} PassKeepsBlanked(s: string, n: Needle, m: Needle)
    requires Separable(n) && Separable(m) && Blanked(s, m)
    ensures Blanked(Pass(s, n), m)
    decreases |s|
  {
    FindFromIsFirst(s, n, 0);
    match FindFrom(s, n, 0)
    case None =>
    case Some(first) =>
      var start := first + |n|;
      var v := ValueEnd(s, start);
      CutIsValue(s, start);
      BlankedSuffix(s, v, m);
      PassKeepsBlanked(s[v..], n, m);
      PassKeepsStart(s[v..], n);
      MarksBeforeCut(s, n, first, m);
      BlankedJoin(s[..start], Pass(s[v..], n), m);
      PassUnfolds(s, n, first, v, s[..start], s[v..]);
  }

  lemma {:induction false} MarksBeforeCut(s: string, n: Needle, first: nat, m: Needle)
    requires Separable(n) && Separable(m) && Blanked(s, m) && MatchAt(s, n, first)
    ensures var a := s[..first + |n|];
            forall i :: MatchAt(a, m, i) && i + |m| < |a| ==>
                          i + |m| + |REDACTED| < |a| && MarkedAt(a, i + |m|)
  {
    var start := first + |n|;
    var a := s[..start];
    forall i | MatchAt(a, m, i) && i + |m| < |a|
      ensures i + |m| + |REDACTED| < |a| && MarkedAt(a, i + |m|)
    {
      var e := i + |m|;
      MatchInPrefix(s, start, m, i);
      assert MarkedAt(s, e);
      MatchEndsOutside(s, n, first, e);
      assert a[e..e + |REDACTED|] == s[e..e + |REDACTED|];
    }
  }

  lemma {:induction false} CutIsValue(s: string, start: nat)
    requires start <= |s|
    ensures Unterminated(s[start..ValueEnd(s, start)]) && StartsTerminated(s[ValueEnd(s, start)..])
  {
    ValueEndIsFirst(s, start, ValueEnd(s, start));
  }

  lemma {:induction false} MarkedValueEnd(s: string, e: nat)
    requires MarkedAt(s, e)
    ensures ValueEnd(s, e) == e + |REDACTED|
  {
    var v := e + |REDACTED|;
    assert s[e..v] == REDACTED;
    ValueEndIsFirst(s, e, v);
  }

  lemma {:induction false} PassUnfolds(s: string, n: Needle, i: nat, v: nat, head: string, tail: string)
    requires FindFrom(s, n, 0) == Some(i) && ValueEnd(s, i + |n|) == v
    requires s[..i + |n|] == head && s[v..] == tail
    ensures Pass(s, n) == head + REDACTED + Pass(tail, n)
  {
    hide FindFrom, ValueEnd;
  }

  /** A text in which every occurrence is already blanked is left as it is. */
  lemma {:induction false} PassOfBlanked(s: string, n: Needle)
    requires Blanked(s, n)
    ensures Pass(s, n) == s
    decreases |s|
  {
    hide Pass, FindFrom, ValueEnd, MatchAt;
    FindFromIsFirst(s, n, 0);
    match FindFrom(s, n, 0)
    case None => PassOfNone(s, n);
    case Some(first) =>
      var start := first + |n|;
      assert MarkedAt(s, start);
      var v := start + |REDACTED|;
      MarkedValueEnd(s, start);
      BlankedSuffix(s, v, n);
      PassOfBlanked(s[v..], n);
      PassUnfolds(s, n, first, v, s[..start], s[v..]);
      assert s[start..v] == REDACTED;
      assert s == s[..start] + s[start..v] + s[v..];
  }

  // ----- All passes -----

  ghost predicate AllSeparable(needles: seq<Needle>) {
    forall n :: n in needles ==> Separable(n)
  }

  ghost predicate AllBlanked(s: string, needles: seq<Needle>) {
    forall n :: n in needles ==> Blanked(s, n)
  }

  /** After all passes every occurrence of every needle is followed by the replacement. */
  lemma {:induction false} PassesBlankAll(s: string, needles: seq<Needle>)
    requires AllSeparable(needles)
    ensures AllBlanked(Passes(s, needles), needles)
  {
    if needles != [] {
      var k := |needles| - 1;
      var before := Passes(s, needles[..k]);
      PassesBlankAll(s, needles[..k]);
      PassBlanks(before, needles[k]);
      forall n | n in needles
        ensures Blanked(Pass(before, needles[k]), n)
      {
        if n != needles[k] {
          assert n in needles[..k];
          PassKeepsBlanked(before, needles[k], n);
        }
      }
    }
  }

  lemma {:induction false} PassesOfBlanked(s: string, needles: seq<Needle>)
    requires AllSeparable(needles) && AllBlanked(s, needles)
    ensures Passes(s, needles) == s
  {
    if needles != [] {
      PassesOfBlanked(s, needles[..|needles| - 1]);
      PassOfBlanked(s, needles[|needles| - 1]);
    }
  }

  /** The passes leave a text as it is exactly when it needs no redaction, so redacting an
      already redacted text changes nothing. */
  lemma {:induction false} PassesFixpoint(s: string, needles: seq<Needle>)
    requires AllSeparable(needles)
    ensures Passes(s, needles) == s <==> AllBlanked(s, needles)
    ensures Passes(Passes(s, needles), needles) == Passes(s, needles)
  {
    PassesBlankAll(s, needles);
    PassesOfBlanked(Passes(s, needles), needles);
    if AllBlanked(s, needles) {
      PassesOfBlanked(s, needles);
    }
  }

  // ----- What is cut out -----

  /** A text with the values to cut out marked in it. */
  datatype Doc = End(text: string) | Cut(kept: string, cut: string, rest: Doc)

  function Original(d: Doc): string {
    match d
    case End(text) => text
    case Cut(kept, cut, rest) => kept + cut + Original(rest)
  }

  function Shown(d: Doc): string {
    match d
    case End(text) => text
    case Cut(kept, cut, rest) => kept + REDACTED + Shown(rest)
  }

  /** The text ends with an occurrence of one of the needles. */
  predicate EndsWithNeedle(s: string, needles: seq<Needle>) {
    exists n :: n in needles && MatchAt(s, n, |s| - |n|)
  }

  /** Every cut starts right behind an occurrence of a needle in the original text (`before`
      is the part of it left of `d`) and reaches to the next terminator, or to the end. */
  ghost predicate CutsValues(d: Doc, before: string, needles: seq<Needle>) {
    match d
    case End(_) => true
    case Cut(kept, cut, rest) =>
      && EndsWithNeedle(before + kept, needles)
      && kept != []
      && Unterminated(cut)
      && StartsTerminated(Original(rest))
      && CutsValues(rest, before + kept + cut, needles)
  }

  ghost function DocSize(d: Doc): nat {
    match d
    case End(text) => |text|
    case Cut(kept, _, rest) => 1 + |kept| + DocSize(rest)
  }

  /** The cuts after one more pass. A match in a kept part cuts it there; when the value runs
      up to the next cut, the two become one. */
  ghost function PassDoc(d: Doc, n: Needle): Doc
    decreases DocSize(d)
  {
    match d
    case End(text) =>
      (match FindFrom(text, n, 0)
       case None => d
       case Some(i) =>
         var start := i + |n|;
         var v := ValueEnd(text, start);
         Cut(text[..start], text[start..v], PassDoc(End(text[v..]), n)))
    case Cut(kept, cut, rest) =>
      (match FindFrom(kept, n, 0)
       case None => Cut(kept, cut, PassDoc(rest, n))
       case Some(i) =>
         var start := i + |n|;
         var v := ValueEnd(kept, start);
         if v < |kept| then Cut(kept[..start], kept[start..v], PassDoc(Cut(kept[v..], cut, rest), n))
         else Cut(kept[..start], kept[start..] + cut, PassDoc(rest, n)))
  }

  lemma {:induction false} PassDocKeepsOriginal(d: Doc, n: Needle)
    ensures Original(PassDoc(d, n)) == Original(d)
    decreases DocSize(d)
  {
    hide FindFrom, ValueEnd;
    match d
    case End(text) =>
      var r := FindFrom(text, n, 0);
      if r.Some? {
        var start := r.value + |n|;
        var v := ValueEnd(text, start);
        PassDocKeepsOriginal(End(text[v..]), n);
        assert text[..start] + text[start..v] + text[v..] == text;
      }
    case Cut(kept, cut, rest) =>
      var r := FindFrom(kept, n, 0);
      if r.None? {
        PassDocKeepsOriginal(rest, n);
      } else {
        var start := r.value + |n|;
        var v := ValueEnd(kept, start);
        KeptParts(kept, cut, Original(rest), start, v);
        if v < |kept| {
          PassDocKeepsOriginal(Cut(kept[v..], cut, rest), n);
        } else {
          PassDocKeepsOriginal(rest, n);
        }
      }
  }

  lemma {:induction false} KeptParts(kept: string, cut: string, o: string, start: nat, v: nat)
    requires start <= v <= |kept|
    ensures kept[..start] + kept[start..v] + (kept[v..] + cut + o) == kept + cut + o
    ensures kept[..start] + (kept[start..] + cut) + o == kept + cut + o
  {
    assert kept == kept[..start] + kept[start..v] + kept[v..];
  }

  lemma {:induction false} ShownStarts(d: Doc, before: string, needles: seq<Needle>)
    requires CutsValues(d, before, needles)
    ensures StartsTerminated(Shown(d)) <==> StartsTerminated(Original(d))
  {
    if d.Cut? {
      assert Shown(d)[0] == d.kept[0] == Original(d)[0];
    }
  }

  lemma {:induction false} MatchBehindReplacement(kept: string, tail: string, n: Needle, i: int)
    requires Separable(n) && MatchAt(tail, n, i)
    ensures MatchAt(kept + REDACTED + tail, n, |kept| + |REDACTED| + i)
  {
    var s := kept + REDACTED + tail;
    assert s[|kept| + |REDACTED|..] == tail;
    MatchInSuffix(s, |kept| + |REDACTED|, n, i);
  }

  lemma {:induction false} FindInKept(kept: string, tail: string, n: Needle)
    requires Separable(n) && FindFrom(kept, n, 0).Some?
    ensures FindFrom(kept + REDACTED + tail, n, 0) == FindFrom(kept, n, 0)
  {
    var s := kept + REDACTED + tail;
    FindFromIsFirst(kept, n, 0);
    var i := FindFrom(kept, n, 0).value;
    assert s[..|kept|] == kept;
    MatchInPrefix(s, |kept|, n, i);
    forall j | 0 <= j < i ensures !MatchAt(s, n, j) {
      if MatchAt(s, n, j) {
        MatchInJoin(kept, tail, n, j);
      }
    }
    FoundFirst(s, n, i);
  }

  lemma {:induction false} MatchesBehindKept(kept: string, tail: string, n: Needle, j: int)
    requires Separable(n) && FindFrom(kept, n, 0).None? && MatchAt(kept + REDACTED + tail, n, j)
    ensures MatchAt(tail, n, j - |kept| - |REDACTED|)
  {
    FindFromIsFirst(kept, n, 0);
    MatchInJoin(kept, tail, n, j);
  }

  lemma {:induction false} FindNowhere(kept: string, tail: string, n: Needle)
    requires Separable(n) && FindFrom(kept, n, 0).None? && FindFrom(tail, n, 0).None?
    ensures FindFrom(kept + REDACTED + tail, n, 0).None?
  {
    var s := kept + REDACTED + tail;
    FindFromIsFirst(tail, n, 0);
    FindFromIsFirst(s, n, 0);
    var r := FindFrom(s, n, 0);
    if r.Some? {
      MatchesBehindKept(kept, tail, n, r.value);
    }
  }

  lemma {:induction false} FindInTail(kept: string, tail: string, n: Needle, i: nat)
    requires Separable(n) && FindFrom(kept, n, 0).None? && FindFrom(tail, n, 0) == Some(i)
    ensures FindFrom(kept + REDACTED + tail, n, 0) == Some(|kept| + |REDACTED| + i)
  {
    hide MatchAt;
    var s := kept + REDACTED + tail;
    FindFromIsFirst(tail, n, 0);
    MatchBehindReplacement(kept, tail, n, i);
    forall j | 0 <= j < |kept| + |REDACTED| + i
      ensures !MatchAt(s, n, j)
    {
      if MatchAt(s, n, j) {
        MatchesBehindKept(kept, tail, n, j);
      }
    }
    FoundFirst(s, n, |kept| + |REDACTED| + i);
  }

  lemma {:induction false} ValueEndInSuffix(s: string, p: nat, from: nat)
    requires p + from <= |s|
    ensures ValueEnd(s, p + from) == p + ValueEnd(s[p..], from)
  {
    var v := ValueEnd(s[p..], from);
    ValueEndIsFirst(s[p..], from, v);
    assert s[p..][from..v] == s[p + from..p + v];
    assert s[p..][v..] == s[p + v..];
    ValueEndIsFirst(s, p + from, p + v);
  }

  /** A pass that finds nothing in a kept part goes on behind the replacement. */
  lemma {:induction false} PassInTail(kept: string, tail: string, n: Needle)
    requires Separable(n) && FindFrom(kept, n, 0).None?
    ensures Pass(kept + REDACTED + tail, n) == kept + REDACTED + Pass(tail, n)
  {
    hide FindFrom, Pass;
    var t := FindFrom(tail, n, 0);
    if t.None? {
      FindNowhere(kept, tail, n);
      PassOfNone(kept + REDACTED + tail, n);
      PassOfNone(tail, n);
    } else {
      FindInTail(kept, tail, n, t.value);
      PassFoundInTail(kept, tail, n, t.value);
    }
  }

  lemma {:induction false} PassOfNone(s: string, n: Needle)
    requires FindFrom(s, n, 0).None?
    ensures Pass(s, n) == s
  {
  }

  lemma {:induction false} PassFoundInTail(kept: string, tail: string, n: Needle, i: nat)
    requires FindFrom(tail, n, 0) == Some(i)
    requires FindFrom(kept + REDACTED + tail, n, 0) == Some(|kept| + |REDACTED| + i)
    ensures Pass(kept + REDACTED + tail, n) == kept + REDACTED + Pass(tail, n)
  {
    hide FindFrom, ValueEnd, Pass;
    var s := kept + REDACTED + tail;
    var p, start := |kept| + |REDACTED|, i + |n|;
    var e := ValueEnd(tail, start);
    assert s[p..] == tail;
    ValueEndInSuffix(s, p, start);
    PassUnfolds(tail, n, i, e, tail[..start], tail[e..]);
    assert s[p + e..] == tail[e..];
    assert s[..p + start] == kept + REDACTED + tail[..start];
    PassUnfolds(s, n, p + i, p + e, kept + REDACTED + tail[..start], tail[e..]);
    Regroup(kept, tail[..start], Pass(tail[e..], n));
  }

  lemma {:induction false} Regroup(a: string, b: string, c: string)
    ensures (a + REDACTED + b) + REDACTED + c == a + REDACTED + (b + REDACTED + c)
  {
  }

  lemma {:induction false} ValueEndInJoin(kept: string, tail: string, start: nat)
    requires start <= |kept| && StartsTerminated(tail)
    ensures ValueEnd(kept + REDACTED + tail, start) ==
            if ValueEnd(kept, start) < |kept| then ValueEnd(kept, start) else |kept| + |REDACTED|
  {
    var s := kept + REDACTED + tail;
    var v := ValueEnd(kept, start);
    ValueEndIsFirst(kept, start, v);
    assert s[start..v] == kept[start..v];
    if v < |kept| {
      assert s[v] == kept[v];
      ValueEndIsFirst(s, start, v);
    } else {
      var e := |kept| + |REDACTED|;
      assert s[start..e] == kept[start..v] + REDACTED;
      assert s[e..] == tail;
      ValueEndIsFirst(s, start, e);
    }
  }

  /** A pass that cuts inside a kept part, or through the replacement behind it. */
  lemma {:induction false} PassInKept(kept: string, tail: string, n: Needle)
    requires Separable(n) && FindFrom(kept, n, 0).Some? && StartsTerminated(tail)
    ensures var start := FindFrom(kept, n, 0).value + |n|;
            var v := ValueEnd(kept, start);
            Pass(kept + REDACTED + tail, n) ==
            kept[..start] + REDACTED + Pass(if v < |kept| then kept[v..] + REDACTED + tail else tail, n)
  {
    hide FindFrom, ValueEnd, Pass, Separable, StartsTerminated;
    var s := kept + REDACTED + tail;
    var start := FindFrom(kept, n, 0).value + |n|;
    var v := ValueEnd(kept, start);
    FindInKept(kept, tail, n);
    ValueEndInJoin(kept, tail, start);
    assert s[..start] == kept[..start];
    if v < |kept| {
      assert s[v..] == kept[v..] + REDACTED + tail;
      PassUnfolds(s, n, start - |n|, v, kept[..start], kept[v..] + REDACTED + tail);
    } else {
      assert s[|kept| + |REDACTED|..] == tail;
      PassUnfolds(s, n, start - |n|, |kept| + |REDACTED|, kept[..start], tail);
    }
  }

  /** What the pass shows is what it shows of the text with the cuts made so far. */
  lemma {:induction false} PassDocShowsPass(d: Doc, before: string, needles: seq<Needle>, n: Needle)
    requires Separable(n) && CutsValues(d, before, needles)
    ensures Shown(PassDoc(d, n)) == Pass(Shown(d), n)
    decreases DocSize(d)
  {
    hide FindFrom, ValueEnd, Pass;
    match d
    case End(text) =>
      var r := FindFrom(text, n, 0);
      if r.None? {
        PassOfNone(text, n);
      } else {
        var v := ValueEnd(text, r.value + |n|);
        PassUnfolds(text, n, r.value, v, text[..r.value + |n|], text[v..]);
        PassDocShowsPass(End(text[v..]), before, needles, n);
      }
    case Cut(kept, cut, rest) =>
      PassCutShowsPass(kept, cut, rest, before, needles, n);
  }

  lemma {:induction false} PassCutShowsPass(kept: string, cut: string, rest: Doc, before: string,
                                            needles: seq<Needle>, n: Needle)
    requires Separable(n) && CutsValues(Cut(kept, cut, rest), before, needles)
    ensures Shown(PassDoc(Cut(kept, cut, rest), n)) == Pass(kept + REDACTED + Shown(rest), n)
    decreases DocSize(Cut(kept, cut, rest)), 0
  {
    hide FindFrom, ValueEnd, Pass, StartsTerminated, Unterminated, EndsWithNeedle, Separable, PassDoc;
    var r := FindFrom(kept, n, 0);
    ShownStarts(rest, before + kept + cut, needles);
    if r.None? {
      PassDocShowsPass(rest, before + kept + cut, needles, n);
      ShowsBehind(kept, cut, rest, n);
    } else if ValueEnd(kept, r.value + |n|) < |kept| {
      var start := r.value + |n|;
      var v := ValueEnd(kept, start);
      SplitBefore(before, kept, start, v);
      PassDocShowsPass(Cut(kept[v..], cut, rest), before + kept[..start] + kept[start..v], needles, n);
      ShowsInside(kept, cut, rest, n, start, v);
    } else {
      PassDocShowsPass(rest, before + kept + cut, needles, n);
      ShowsThrough(kept, cut, rest, n, r.value + |n|);
    }
  }

  lemma {:induction false} ShowsBehind(kept: string, cut: string, rest: Doc, n: Needle)
    requires Separable(n) && FindFrom(kept, n, 0).None?
    requires Shown(PassDoc(rest, n)) == Pass(Shown(rest), n)
    ensures Shown(PassDoc(Cut(kept, cut, rest), n)) == Pass(kept + REDACTED + Shown(rest), n)
  {
    hide FindFrom, ValueEnd, Pass;
    PassInTail(kept, Shown(rest), n);
  }

  lemma {:induction false} ShowsInside(kept: string, cut: string, rest: Doc, n: Needle, start: nat, v: nat)
    requires Separable(n) && StartsTerminated(Shown(rest))
    requires start >= |n| && FindFrom(kept, n, 0) == Some(start - |n|) && v == ValueEnd(kept, start) < |kept|
    requires Shown(PassDoc(Cut(kept[v..], cut, rest), n)) == Pass(kept[v..] + REDACTED + Shown(rest), n)
    ensures Shown(PassDoc(Cut(kept, cut, rest), n)) == Pass(kept + REDACTED + Shown(rest), n)
  {
    hide StartsTerminated, FindFrom, ValueEnd, PassDoc, Pass, Separable;
    PassInKept(kept, Shown(rest), n);
    PassDocUnfolds(kept, cut, rest, n);
  }

  lemma {:induction false} ShowsThrough(kept: string, cut: string, rest: Doc, n: Needle, start: nat)
    requires Separable(n) && StartsTerminated(Shown(rest))
    requires start >= |n| && FindFrom(kept, n, 0) == Some(start - |n|) && ValueEnd(kept, start) == |kept|
    requires Shown(PassDoc(rest, n)) == Pass(Shown(rest), n)
    ensures Shown(PassDoc(Cut(kept, cut, rest), n)) == Pass(kept + REDACTED + Shown(rest), n)
  {
    hide StartsTerminated, FindFrom, ValueEnd, PassDoc, Pass, Separable;
    PassInKept(kept, Shown(rest), n);
    PassDocUnfolds(kept, cut, rest, n);
  }

  lemma {:induction false} PassDocUnfolds(kept: string, cut: string, rest: Doc, n: Needle)
    requires FindFrom(kept, n, 0).Some?
    ensures var start := FindFrom(kept, n, 0).value + |n|;
            var v := ValueEnd(kept, start);
            PassDoc(Cut(kept, cut, rest), n) ==
            if v < |kept| then Cut(kept[..start], kept[start..v], PassDoc(Cut(kept[v..], cut, rest), n))
            else Cut(kept[..start], kept[start..] + cut, PassDoc(rest, n))
  {
    hide FindFrom, ValueEnd;
  }

  lemma {:induction false} SplitBefore(before: string, kept: string, start: nat, v: nat)
    requires start <= v <= |kept|
    ensures before + kept[..start] + kept[start..v] + kept[v..] == before + kept
  {
    assert kept == kept[..start] + kept[start..v] + kept[v..];
  }

  lemma {:induction false} NeedleAtEnd(before: string, s: string, n: Needle, needles: seq<Needle>)
    requires FindFrom(s, n, 0).Some?
    ensures EndsWithNeedle(before + s[..FindFrom(s, n, 0).value + |n|], needles + [n])
  {
    FindFromIsFirst(s, n, 0);
    var i := FindFrom(s, n, 0).value;
    var t := before + s[..i + |n|];
    forall k | 0 <= k < |n| ensures LowerChar(t[|t| - |n| + k]) == n[k] {
      assert t[|t| - |n| + k] == s[i + k];
    }
    assert n == (needles + [n])[|needles|];
    assert MatchAt(t, n, |t| - |n|);
  }

  lemma {:induction false} MoreNeedles(s: string, needles: seq<Needle>, n: Needle)
    requires EndsWithNeedle(s, needles)
    ensures EndsWithNeedle(s, needles + [n])
  {
    var m :| m in needles && MatchAt(s, m, |s| - |m|);
    assert m in needles + [n];
  }

  lemma {:induction false} StartsOfPassDoc(d: Doc, n: Needle)
    requires StartsTerminated(Original(d))
    ensures StartsTerminated(Original(PassDoc(d, n)))
  {
    PassDocKeepsOriginal(d, n);
  }

  /** The cuts of a further pass start behind needles and end at terminators as well. */
  lemma {:induction false} PassDocCutsValues(d: Doc, before: string, needles: seq<Needle>, n: Needle)
    requires CutsValues(d, before, needles)
    ensures CutsValues(PassDoc(d, n), before, needles + [n])
    decreases DocSize(d)
  {
    match d
    case End(text) =>
      var r := FindFrom(text, n, 0);
      if r.Some? {
        var start := r.value + |n|;
        var v := ValueEnd(text, start);
        PassDocCutsValues(End(text[v..]), before + text[..start] + text[start..v], needles, n);
        CutsEnd(text, before, needles, n, start, v);
      }
    case Cut(kept, cut, rest) =>
      PassCutCutsValues(kept, cut, rest, before, needles, n);
  }

  lemma {:induction false} CutsEnd(text: string, before: string, needles: seq<Needle>, n: Needle, start: nat, v: nat)
    requires start >= |n| && FindFrom(text, n, 0) == Some(start - |n|) && v == ValueEnd(text, start)
    requires CutsValues(PassDoc(End(text[v..]), n), before + text[..start] + text[start..v], needles + [n])
    ensures CutsValues(PassDoc(End(text), n), before, needles + [n])
  {
    hide Unterminated, StartsTerminated, FindFrom, ValueEnd, EndsWithNeedle;
    NeedleAtEnd(before, text, n, needles);
    CutIsValue(text, start);
    StartsOfPassDoc(End(text[v..]), n);
  }

  lemma {:induction false} PassCutCutsValues(kept: string, cut: string, rest: Doc, before: string,
                                             needles: seq<Needle>, n: Needle)
    requires CutsValues(Cut(kept, cut, rest), before, needles)
    ensures CutsValues(PassDoc(Cut(kept, cut, rest), n), before, needles + [n])
    decreases DocSize(Cut(kept, cut, rest)), 0
  {
    hide FindFrom, ValueEnd, EndsWithNeedle;
    var r := FindFrom(kept, n, 0);
    if r.None? {
      MoreNeedles(before + kept, needles, n);
      PassDocCutsValues(rest, before + kept + cut, needles, n);
      StartsOfPassDoc(rest, n);
    } else if ValueEnd(kept, r.value + |n|) < |kept| {
      var start := r.value + |n|;
      var v := ValueEnd(kept, start);
      SplitBefore(before, kept, start, v);
      PassDocCutsValues(Cut(kept[v..], cut, rest), before + kept[..start] + kept[start..v], needles, n);
      CutsInside(kept, cut, rest, before, needles, n, start, v);
    } else {
      PassDocCutsValues(rest, before + kept + cut, needles, n);
      CutsThrough(kept, cut, rest, before, needles, n, r.value + |n|);
    }
  }

  lemma {:induction false} CutsInside(kept: string, cut: string, rest: Doc, before: string,
                                      needles: seq<Needle>, n: Needle, start: nat, v: nat)
    requires start >= |n| && FindFrom(kept, n, 0) == Some(start - |n|) && v == ValueEnd(kept, start) < |kept|
    requires CutsValues(PassDoc(Cut(kept[v..], cut, rest), n), before + kept[..start] + kept[start..v], needles + [n])
    ensures CutsValues(PassDoc(Cut(kept, cut, rest), n), before, needles + [n])
  {
    hide Unterminated, FindFrom, ValueEnd, EndsWithNeedle, PassDoc;
    var d' := Cut(kept[v..], cut, rest);
    NeedleAtEnd(before, kept, n, needles);
    CutIsValue(kept, start);
    assert StartsTerminated(Original(d')) by {
      assert Original(d')[0] == kept[v..][0];
    }
    StartsOfPassDoc(d', n);
    PassDocUnfolds(kept, cut, rest, n);
  }

  lemma {:induction false} CutsThrough(kept: string, cut: string, rest: Doc, before: string,
                                       needles: seq<Needle>, n: Needle, start: nat)
    requires start >= |n| && FindFrom(kept, n, 0) == Some(start - |n|) && ValueEnd(kept, start) == |kept|
    requires Unterminated(cut) && StartsTerminated(Original(rest))
    requires CutsValues(PassDoc(rest, n), before + kept + cut, needles + [n])
    ensures CutsValues(PassDoc(Cut(kept, cut, rest), n), before, needles + [n])
  {
    hide StartsTerminated, Unterminated, FindFrom, ValueEnd, EndsWithNeedle, PassDoc;
    NeedleAtEnd(before, kept, n, needles);
    JoinedCut(kept, start, cut);
    CutKept(before, kept, cut, start);
    StartsOfPassDoc(rest, n);
    PassDocUnfolds(kept, cut, rest, n);
  }

  lemma {:induction false} JoinedCut(kept: string, start: nat, cut: string)
    requires start <= |kept| == ValueEnd(kept, start) && Unterminated(cut)
    ensures Unterminated(kept[start..] + cut)
  {
    CutIsValue(kept, start);
    assert kept[start..|kept|] == kept[start..];
  }

  lemma {:induction false} CutKept(before: string, kept: string, cut: string, start: nat)
    requires start <= |kept|
    ensures before + kept[..start] + (kept[start..] + cut) == before + kept + cut
  {
    assert kept == kept[..start] + kept[start..];
  }

  /** The cuts that the passes for all needles make, one pass after another. */
  ghost function Redacted(s: string, needles: seq<Needle>): Doc {
    if needles == [] then End(s)
    else PassDoc(Redacted(s, needles[..|needles| - 1]), needles[|needles| - 1])
  }

  /** The output of the passes is the input with values cut out: each cut starts right behind
      a needle and ends at the next terminator or the end, and all other text is kept. */
  lemma {:induction false} PassesCutValues(s: string, needles: seq<Needle>)
    requires AllSeparable(needles)
    ensures Original(Redacted(s, needles)) == s && Shown(Redacted(s, needles)) == Passes(s, needles)
    ensures CutsValues(Redacted(s, needles), "", needles)
  {
    if needles != [] {
      var k := |needles| - 1;
      var earlier := needles[..k];
      assert earlier + [needles[k]] == needles;
      PassesCutValues(s, earlier);
      var d := Redacted(s, earlier);
      PassDocKeepsOriginal(d, needles[k]);
      PassDocShowsPass(d, "", earlier, needles[k]);
      PassDocCutsValues(d, "", earlier, needles[k]);
    }
  }

  // ----- Truncation -----

  /** Bytes of a character in UTF-8. */
  function Utf8Len(c: char): (n: nat)
    ensures 1 <= n <= 4
  {
    var u := c as int;
    if u < 0x80 then 1 else if u < 0x800 then 2 else if u < 0x1_0000 then 3 else 4
  }

  function ByteLen(s: string): nat {
    if s == [] then 0 else Utf8Len(s[0]) + ByteLen(s[1..])
  }

  /** Byte offset `b` does not lie inside a character. */
  predicate IsCharBoundary(s: string, b: nat)
    decreases |s|
  {
    b == 0 || (s != [] && Utf8Len(s[0]) <= b && IsCharBoundary(s[1..], b - Utf8Len(s[0])))
  }

  /** The number of characters left of a boundary. */
  function CharsBefore(s: string, b: nat): (k: nat)
    requires IsCharBoundary(s, b)
    ensures k <= |s|
    decreases |s|
  {
    if b == 0 then 0 else 1 + CharsBefore(s[1..], b - Utf8Len(s[0]))
  }

  /** The number of leading characters that fit in `max` bytes. */
  function FittingChars(s: string, max: nat): (k: nat)
    ensures k <= |s|
  {
    if s == [] || Utf8Len(s[0]) > max then 0 else 1 + FittingChars(s[1..], max - Utf8Len(s[0]))
  }

  /** The fitting prefix is the longest one: it fits, and it does not with one more character. */
  lemma {:induction false} FittingIsLongest(s: string, max: nat)
    ensures ByteLen(s[..FittingChars(s, max)]) <= max
    ensures FittingChars(s, max) < |s| ==> ByteLen(s[..FittingChars(s, max) + 1]) > max
    ensures FittingChars(s, max) < |s| ==> ByteLen(s[..FittingChars(s, max)]) > max - 4
    decreases |s|
  {
    if s != [] && Utf8Len(s[0]) <= max {
      var k := FittingChars(s[1..], max - Utf8Len(s[0]));
      FittingIsLongest(s[1..], max - Utf8Len(s[0]));
      assert s[..k + 1][1..] == s[1..][..k];
      if k + 1 < |s| {
        assert s[..k + 2][1..] == s[1..][..k + 1];
      }
    } else if s != [] {
      assert s[..1][1..] == [];
    }
  }

  lemma {:induction false} BoundaryBytes(s: string, b: nat)
    requires IsCharBoundary(s, b)
    ensures ByteLen(s[..CharsBefore(s, b)]) == b
    decreases |s|
  {
    if b > 0 {
      BoundaryBytes(s[1..], b - Utf8Len(s[0]));
      var k := CharsBefore(s, b);
      assert s[..k][1..] == s[1..][..k - 1];
    }
  }

  /** The last boundary up to `max` is the end of the fitting prefix. */
  lemma {:induction false} LastBoundary(s: string, max: nat, b: nat)
    ensures IsCharBoundary(s, ByteLen(s[..FittingChars(s, max)]))
    ensures b <= max && IsCharBoundary(s, b) ==>
              b <= ByteLen(s[..FittingChars(s, max)]) &&
              (b == ByteLen(s[..FittingChars(s, max)]) ==> CharsBefore(s, b) == FittingChars(s, max))
    decreases |s|
  {
    if s != [] && Utf8Len(s[0]) <= max {
      var u := Utf8Len(s[0]);
      var k := FittingChars(s[1..], max - u);
      assert s[..k + 1][1..] == s[1..][..k];
      LastBoundary(s[1..], max - u, if b >= u then b - u else 0);
    }
  }

  function Truncated(body: string): string {
    if ByteLen(body) <= ERROR_BODY_MAX then body else
    var k := FittingChars(body, ERROR_BODY_MAX);
    body[..k] + "... [" + Digits(ByteLen(body[k..])) + " more bytes truncated]"
  }

  lemma {:induction false} ByteLenOfParts(a: string, b: string)
    ensures ByteLen(a + b) == ByteLen(a) + ByteLen(b)
  {
    if a == [] {
      assert a + b == b;
    } else {
      assert (a + b)[1..] == a[1..] + b;
      ByteLenOfParts(a[1..], b);
    }
  }

  lemma {:induction false} StartIsBoundary(s: string)
    ensures IsCharBoundary(s, 0)
  {
  }

  /** Where the search for a boundary starts, where it stops, and what is left behind it. */
  lemma {:induction false} FitsBelow(body: string)
    ensures ByteLen(body[..FittingChars(body, ERROR_BODY_MAX)]) <= ERROR_BODY_MAX
    ensures IsCharBoundary(body, ByteLen(body[..FittingChars(body, ERROR_BODY_MAX)]))
  {
    hide IsCharBoundary, CharsBefore, FittingChars, ByteLen;
    FittingIsLongest(body, ERROR_BODY_MAX);
    LastBoundary(body, ERROR_BODY_MAX, 0);
  }

  lemma {:induction false} CutAtBoundary(body: string, cut: nat)
    requires ByteLen(body[..FittingChars(body, ERROR_BODY_MAX)]) <= cut <= ERROR_BODY_MAX
    requires cut == 0 || IsCharBoundary(body, cut)
    ensures IsCharBoundary(body, cut) && CharsBefore(body, cut) == FittingChars(body, ERROR_BODY_MAX)
    ensures ByteLen(body) - cut == ByteLen(body[FittingChars(body, ERROR_BODY_MAX)..])
  {
    hide IsCharBoundary, CharsBefore, FittingChars, ByteLen;
    var fits := FittingChars(body, ERROR_BODY_MAX);
    StartIsBoundary(body);
    LastBoundary(body, ERROR_BODY_MAX, cut);
    ByteLenOfParts(body[..fits], body[fits..]);
    assert body[..fits] + body[fits..] == body;
  }

  /** Cuts a body of more than 512 bytes back to the last character boundary. */
  method TruncateBody(body: string) returns (out: string)
    ensures out == Truncated(body)
  {
    hide IsCharBoundary, CharsBefore, FittingChars, Digits, ByteLen;
    if ByteLen(body) > ERROR_BODY_MAX {
      var cut: nat := ERROR_BODY_MAX;
      FitsBelow(body);
      while cut > 0 && !IsCharBoundary(body, cut)
        invariant ByteLen(body[..FittingChars(body, ERROR_BODY_MAX)]) <= cut <= ERROR_BODY_MAX
      {
        cut := cut - 1;
      }
      CutAtBoundary(body, cut);
      out := body[..CharsBefore(body, cut)] + "... [" + Digits(ByteLen(body) - cut) + " more bytes truncated]";
    } else {
      out := body;
    }
  }

  function Lowered(needles: seq<Needle>): (l: seq<Needle>)
    ensures |l| == |needles| && forall k :: 0 <= k < |l| ==> l[k] == Lower(needles[k])
  {
    seq(|needles|, k requires 0 <= k < |needles| => Lower(needles[k]))
  }

  predicate PlainNeedle(n: Needle) {
    (forall i :: 0 <= i < |n| ==> n[i] != '[' && n[i] != ']') && (n[|n| - 1] == ' ' || n[|n| - 1] == '=')
  }

  lemma {:induction false} LoweredSeparable(n: Needle)
    requires PlainNeedle(n)
    ensures Separable(Lower(n))
  {
    var l := Lower(n);
    forall c | c in l ensures c != '[' && c != ']' {
      var k :| 0 <= k < |l| && l[k] == c;
      assert n[k] in n;
    }
    assert forall c :: c in Lower(REDACTED) ==> c != ' ' && c != '=';
  }

  lemma {:induction false} NeedlesPlain()
    ensures forall k :: 0 <= k < |NEEDLES| ==> PlainNeedle(NEEDLES[k])
  {
    hide PlainNeedle;
    HeaderNeedlesPlain();
    FieldNeedlesPlain();
  }

  lemma {:induction false} HeaderNeedlesPlain()
    ensures forall k :: 0 <= k < |HEADER_NEEDLES| ==> PlainNeedle(HEADER_NEEDLES[k])
  {
    assert PlainNeedle("Authorization: Bearer ") && PlainNeedle("Authorization:Bearer ");
    assert PlainNeedle("Authorization: Basic ") && PlainNeedle("Authorization:Basic ");
  }

  lemma {:induction false} FieldNeedlesPlain()
    ensures forall k :: 0 <= k < |FIELD_NEEDLES| ==> PlainNeedle(FIELD_NEEDLES[k])
  {
    assert PlainNeedle("access_token=") && PlainNeedle("refresh_token=");
    assert PlainNeedle("client_secret=") && PlainNeedle("client_assertion=");
    assert PlainNeedle("password=") && PlainNeedle("pwd=") && PlainNeedle("username=");
  }

  lemma {:induction false} NeedlesSeparable(needles: seq<Needle>)
    requires forall k :: 0 <= k < |needles| ==> PlainNeedle(needles[k])
    ensures AllSeparable(Lowered(needles))
  {
    forall n | n in Lowered(needles) ensures Separable(n) {
      var k :| 0 <= k < |needles| && n == Lower(needles[k]);
      LoweredSeparable(needles[k]);
    }
  }

  /** Blanks the values behind one needle in place, moving the start of the search behind each
      replacement. */
  method RedactNeedle(text: string, needle: Needle) returns (out: string)
    ensures out == Pass(text, needle)
  {
    out := text;
    var searchFrom: nat := 0;
    var found := FindFrom(out[searchFrom..], needle, 0);
    while found.Some?
      invariant searchFrom <= |out|
      invariant found == FindFrom(out[searchFrom..], needle, 0)
      invariant Pass(text, needle) == out[..searchFrom] + Pass(out[searchFrom..], needle)
      decreases |out| - searchFrom
    {
      var idx := searchFrom + found.value;
      var valueStart := idx + |needle|;
      var valueEnd := ValueEnd(out, valueStart);
      ghost var before, at := out, searchFrom;
      out := out[..valueStart] + REDACTED + out[valueEnd..];
      searchFrom := valueStart + |REDACTED|;
      ReplaceStep(before, at, needle, found.value, valueEnd);
      found := FindFrom(out[searchFrom..], needle, 0);
    }
    PassOfNone(out[searchFrom..], needle);
    assert out == out[..searchFrom] + out[searchFrom..];
  }

  lemma {:induction false} ReplaceStep(s: string, at: nat, n: Needle, i: nat, e: nat)
    requires at <= |s| && FindFrom(s[at..], n, 0) == Some(i)
    requires e == ValueEnd(s, at + i + |n|)
    ensures var start := at + i + |n|;
            var s' := s[..start] + REDACTED + s[e..];
            s[..at] + Pass(s[at..], n) == s'[..start + |REDACTED|] + Pass(s'[start + |REDACTED|..], n)
  {
    hide FindFrom, ValueEnd, Pass;
    var start := at + i + |n|;
    var s' := s[..start] + REDACTED + s[e..];
    var t := s[at..];
    ValueEndInSuffix(s, at, i + |n|);
    assert t[e - at..] == s[e..];
    PassUnfolds(t, n, i, e - at, t[..i + |n|], s[e..]);
    assert s'[start + |REDACTED|..] == s[e..];
    Rejoin(s, at, start, s[e..], Pass(s[e..], n));
  }

  lemma {:induction false} Rejoin(s: string, at: nat, start: nat, tail: string, tail': string)
    requires at <= start <= |s|
    ensures s[..at] + (s[at..][..start - at] + REDACTED + tail') ==
            (s[..start] + REDACTED + tail)[..start + |REDACTED|] + tail'
  {
    assert s[..at] + s[at..][..start - at] == s[..start];
    assert (s[..start] + REDACTED + tail)[..start + |REDACTED|] == s[..start] + REDACTED;
  }

  /** `sanitize_error_body` as a function of the body. */
  function Sanitized(body: string): string {
    Passes(Truncated(body), Lowered(NEEDLES))
  }

  /** In the result every occurrence of every needle, in any letter case, is followed by the
      replacement, and the result is the truncated body with nothing but values cut out. */
  method SanitizeErrorBody(body: string) returns (out: string)
    ensures out == Sanitized(body)
    ensures AllBlanked(out, Lowered(NEEDLES))
    ensures var d := Redacted(Truncated(body), Lowered(NEEDLES));
            Original(d) == Truncated(body) && Shown(d) == out && CutsValues(d, "", Lowered(NEEDLES))
  {
    hide Pass, Truncated, PlainNeedle, Separable, Blanked, CutsValues, Original, Shown;
    out := TruncateBody(body);
    ghost var lowered := Lowered(NEEDLES);
    for k := 0 to |NEEDLES|
      invariant out == Passes(Truncated(body), lowered[..k])
    {
      assert lowered[..k + 1][..k] == lowered[..k];
      var needleLower := Lower(NEEDLES[k]);
      out := RedactNeedle(out, needleLower);
    }
    assert lowered[..|NEEDLES|] == lowered;
    NeedlesPlain();
    NeedlesSeparable(NEEDLES);
    PassesBlankAll(Truncated(body), lowered);
    PassesCutValues(Truncated(body), lowered);
  }
}
