/** What redaction does to the value behind each credential word of the original text. */
module RedactionCoverage {
  import opened Strings
  import opened Redaction

  /** What keeps one needle from reaching over the end of another: the blanks inside a needle
      follow a colon, and the one at its end does not. */
  predicate Edged(n: Needle) {
    var z := |n| - 1;
    && (n[z] == '=' || (n[z] == ' ' && z > 0 && n[z - 1] != ':'))
    && forall k :: 0 <= k < z ==> Inner(n, k)
  }

  predicate Inner(n: Needle, k: nat)
    requires k < |n|
  {
    n[k] != '=' && (n[k] == ' ' ==> k > 0 && n[k - 1] == ':')
  }

  ghost predicate AllEdged(needles: seq<Needle>) {
    forall n :: n in needles ==> Edged(n)
  }

  lemma {:induction false} MatchInner(s: string, m: Needle, i: int, p: int)
    requires Edged(m) && MatchAt(s, m, i) && i <= p < i + |m| - 1
    ensures LowerChar(s[p]) != '=' && (LowerChar(s[p]) == ' ' ==> p > i && LowerChar(s[p - 1]) == ':')
  {
    assert Inner(m, p - i);
    assert LowerChar(s[i + (p - i)]) == m[p - i];
    assert p > i ==> LowerChar(s[i + (p - i - 1)]) == m[p - i - 1];
  }

  lemma {:induction false} MatchEnd(s: string, n: Needle, j: int)
    requires Edged(n) && MatchAt(s, n, j)
    ensures var c, z := LowerChar(s[j + |n| - 1]), j + |n| - 1;
            c == '=' || (c == ' ' && z > 0 && LowerChar(s[z - 1]) != ':')
  {
    assert LowerChar(s[j + (|n| - 1)]) == n[|n| - 1];
    assert |n| > 1 ==> LowerChar(s[j + (|n| - 2)]) == n[|n| - 2];
  }

  lemma {:induction false} NoOverlap(s: string, m: Needle, n: Needle, i: int, j: int)
    requires Edged(m) && Edged(n) && MatchAt(s, m, i) && MatchAt(s, n, j)
    ensures !(i < j + |n| < i + |m|)
  {
    hide Edged;
    if i < j + |n| < i + |m| {
      MatchEnd(s, n, j);
      MatchInner(s, m, i, j + |n| - 1);
    }
  }

  /** These characters of the original lie inside a cut. */
  predicate Gone(d: Doc, a: int, b: int) {
    match d
    case End(_) => false
    case Cut(kept, cut, rest) =>
      || |kept| <= a <= b <= |kept| + |cut|
      || Gone(rest, a - |kept| - |cut|, b - |kept| - |cut|)
  }

  /** The occurrence begins in the value behind another needle, and reaches over its end. */
  ghost predicate Overlaid(s: string, needles: seq<Needle>, m: Needle, i: int) {
    exists n, j :: n in needles && MatchAt(s, n, j) && j + |n| <= i < ValueEnd(s, j + |n|) < i + |m|
  }

  /** The value behind the occurrence is cut out whole, or reads like the replacement already,
      or the occurrence begins in the value of another. */
  ghost predicate ValueGone(d: Doc, before: string, needles: seq<Needle>, m: Needle, i: nat) {
    var s := Original(d);
    && i + |m| <= |s|
    && (Gone(d, i + |m|, ValueEnd(s, i + |m|)) || MarkedAt(s, i + |m|)
        || Overlaid(before + s, needles, m, |before| + i))
  }

  /** Every value of a blanked text is gone. */
  lemma {:induction false} ValuesAreGone(d: Doc, before: string, needles: seq<Needle>, m: Needle, i: nat)
    requires AllSeparable(needles) && AllEdged(needles) && m in needles
    requires CutsValues(d, before, needles) && Blanked(Shown(d), m)
    requires MatchAt(Original(d), m, i)
    ensures ValueGone(d, before, needles, m, i)
  {
    hide ValueEnd, StartsTerminated, Unterminated, MarkedAt, EndsWithNeedle, Blanked, Edged, Separable, Overlaid;
    match d
    case End(text) => BlankedHere(text, m, i);
    case Cut(kept, cut, rest) =>
      var behind := |kept| + |cut|;
      if i >= behind {
        InRest(d, m, i);
        ValuesAreGone(rest, before + kept + cut, needles, m, i - behind);
        GoneInRest(kept, cut, rest, before, needles, m, i - behind);
      } else if i >= |kept| {
        InCut(kept, cut, rest, before, needles, m, i);
      } else {
        InKept(kept, cut, rest, before, needles, m, i);
      }
  }

  lemma {:induction false} BlankedHere(s: string, m: Needle, i: nat)
    requires Blanked(s, m) && MatchAt(s, m, i)
    ensures i + |m| <= |s| && MarkedAt(s, i + |m|)
  {
  }

  lemma {:induction false} InRest(d: Doc, m: Needle, i: nat)
    requires d.Cut? && MatchAt(Original(d), m, i) && i >= |d.kept| + |d.cut|
    requires Blanked(Shown(d), m)
    ensures MatchAt(Original(d.rest), m, i - |d.kept| - |d.cut|) && Blanked(Shown(d.rest), m)
  {
    hide Blanked;
    var s, v := Original(d), |d.kept| + |d.cut|;
    forall k | 0 <= k < |m| ensures LowerChar(Original(d.rest)[i - v + k]) == m[k] {
      assert s[i + k] == Original(d.rest)[i - v + k];
    }
    assert Shown(d)[|d.kept| + |REDACTED|..] == Shown(d.rest);
    BlankedSuffix(Shown(d), |d.kept| + |REDACTED|, m);
  }

  lemma {:induction false} GoneInRest(kept: string, cut: string, rest: Doc, before: string, needles: seq<Needle>,
                                      m: Needle, i: nat)
    requires ValueGone(rest, before + kept + cut, needles, m, i)
    ensures ValueGone(Cut(kept, cut, rest), before, needles, m, |kept| + |cut| + i)
  {
    hide ValueEnd, Overlaid, MarkedAt;
    var s, v := Original(Cut(kept, cut, rest)), |kept| + |cut|;
    assert s[v..] == Original(rest);
    ValueEndInSuffix(s, v, i + |m|);
    assert before + kept + cut + Original(rest) == before + s;
    if MarkedAt(Original(rest), i + |m|) {
      MarkedInSuffix(s, v, i + |m|);
    }
  }

  lemma {:induction false} MarkedInSuffix(s: string, v: nat, e: nat)
    requires v <= |s| && MarkedAt(s[v..], e)
    ensures MarkedAt(s, v + e)
  {
    assert s[v..][e..e + |REDACTED|] == s[v + e..v + e + |REDACTED|];
  }

  /** The value of a cut ends where the cut ends. */
  lemma {:induction false} CutEnd(a: string, cut: string, b: string, k: nat)
    requires k <= |cut| && Unterminated(cut) && StartsTerminated(b)
    ensures ValueEnd(a + cut + b, |a| + k) == |a| + |cut|
  {
    hide ValueEnd;
    var s := a + cut + b;
    assert s[|a| + k..|a| + |cut|] == cut[k..];
    assert s[|a| + |cut|..] == b;
    ValueEndIsFirst(s, |a| + k, |a| + |cut|);
  }

  lemma {:induction false} NeedleBefore(before: string, kept: string, tail: string, needles: seq<Needle>)
    returns (n: Needle)
    requires EndsWithNeedle(before + kept, needles)
    ensures n in needles && MatchAt(before + (kept + tail), n, |before| + |kept| - |n|)
  {
    var s := before + kept;
    n :| n in needles && MatchAt(s, n, |s| - |n|);
    assert before + (kept + tail) == s + tail;
    assert (s + tail)[..|s|] == s;
    MatchInPrefix(s + tail, |s|, n, |s| - |n|);
  }

  lemma {:induction false} InCut(kept: string, cut: string, rest: Doc, before: string, needles: seq<Needle>,
                                 m: Needle, i: nat)
    requires CutsValues(Cut(kept, cut, rest), before, needles) && m in needles
    requires MatchAt(Original(Cut(kept, cut, rest)), m, i) && |kept| <= i < |kept| + |cut|
    ensures ValueGone(Cut(kept, cut, rest), before, needles, m, i)
  {
    hide ValueEnd, StartsTerminated, Unterminated, MarkedAt, EndsWithNeedle;
    var s := Original(Cut(kept, cut, rest));
    if i + |m| <= |kept| + |cut| {
      CutEnd(kept, cut, Original(rest), i + |m| - |kept|);
    } else {
      var n := NeedleBefore(before, kept, cut + Original(rest), needles);
      assert kept + (cut + Original(rest)) == s;
      assert before + s == (before + kept) + cut + Original(rest);
      CutEnd(before + kept, cut, Original(rest), 0);
      var j := |before| + |kept| - |n|;
      assert MatchAt(before + s, n, j);
      assert ValueEnd(before + s, j + |n|) == |before| + |kept| + |cut|;
    }
  }

  lemma {:induction false} InKept(kept: string, cut: string, rest: Doc, before: string, needles: seq<Needle>,
                                  m: Needle, i: nat)
    requires AllEdged(needles) && m in needles
    requires CutsValues(Cut(kept, cut, rest), before, needles) && Blanked(Shown(Cut(kept, cut, rest)), m)
    requires MatchAt(Original(Cut(kept, cut, rest)), m, i) && i < |kept|
    ensures ValueGone(Cut(kept, cut, rest), before, needles, m, i)
  {
    hide ValueEnd, StartsTerminated, Unterminated, MarkedAt, EndsWithNeedle, Edged, Blanked, MatchAt;
    var s, e := Original(Cut(kept, cut, rest)), i + |m|;
    assert kept + (cut + Original(rest)) == s;
    EndsInKept(kept, cut + Original(rest), before, needles, m, i);
    if e == |kept| {
      CutEnd(kept, cut, Original(rest), 0);
    } else {
      SameStart(kept, cut + Original(rest), REDACTED + Shown(rest), m, i);
      assert kept + (REDACTED + Shown(rest)) == Shown(Cut(kept, cut, rest));
      BlankedHere(Shown(Cut(kept, cut, rest)), m, i);
      MarkedInKept(kept, Shown(rest), cut + Original(rest), e);
    }
  }

  lemma {:induction false} EndsInKept(kept: string, tail: string, before: string, needles: seq<Needle>, m: Needle,
                                      i: nat)
    requires AllEdged(needles) && m in needles && EndsWithNeedle(before + kept, needles)
    requires MatchAt(kept + tail, m, i) && i < |kept|
    ensures i + |m| <= |kept|
  {
    hide EndsWithNeedle, Edged;
    var n := NeedleBefore(before, kept, tail, needles);
    var s := before + (kept + tail);
    assert s[|before|..] == kept + tail;
    MatchInSuffix(s, |before|, m, i);
    NoOverlap(s, m, n, |before| + i, |before| + |kept| - |n|);
  }

  lemma {:induction false} SameStart(kept: string, a: string, b: string, m: Needle, i: nat)
    requires MatchAt(kept + a, m, i) && i + |m| <= |kept|
    ensures MatchAt(kept + b, m, i)
  {
    forall k | 0 <= k < |m| ensures LowerChar((kept + b)[i + k]) == m[k] {
      assert (kept + b)[i + k] == (kept + a)[i + k];
    }
  }

  lemma {:induction false} InsideReplacement(s: string, e: nat, p: nat)
    requires e < p < |s| && e + |REDACTED| <= |s| && s[e..e + |REDACTED|] == REDACTED
    ensures p < e + |REDACTED| ==> s[p] != '['
  {
    assert forall k :: 1 <= k < |REDACTED| ==> REDACTED[k] != '[';
    assert forall q :: e <= q < e + |REDACTED| ==> s[q] == s[e..e + |REDACTED|][q - e];
  }

  /** A replacement that stands in a kept part, and not at its end, was there before. */
  lemma {:induction false} MarkedInKept(kept: string, shown: string, tail: string, e: nat)
    requires e < |kept| && MarkedAt(kept + REDACTED + shown, e)
    ensures MarkedAt(kept + tail, e)
  {
    var s, v := kept + REDACTED + shown, e + |REDACTED|;
    assert s[|kept|] == '[';
    assert s[e..v] == REDACTED && !IsTerminator('[');
    InsideReplacement(s, e, |kept|);
    assert v < |kept|;
    assert (kept + tail)[e..v] == s[e..v];
  }

  // ----- The needles themselves -----

  lemma {:induction false} LoweredEdged(n: Needle)
    requires Edged(n)
    ensures Edged(Lower(n))
  {
    var l := Lower(n);
    assert forall k :: 0 <= k < |n| ==> (l[k] == ' ' <==> n[k] == ' ') && (l[k] == '=' <==> n[k] == '=')
                                        && (l[k] == ':' <==> n[k] == ':');
    forall k | 0 <= k < |n| - 1 ensures Inner(l, k) {
      assert Inner(n, k);
    }
  }

  lemma {:induction false} BearerEdged()
    ensures Edged("Authorization: Bearer ") && Edged("Authorization:Bearer ")
  {
  }

  lemma {:induction false} BasicEdged()
    ensures Edged("Authorization: Basic ") && Edged("Authorization:Basic ")
  {
  }

  lemma {:induction false} HeaderNeedlesEdged()
    ensures forall k :: 0 <= k < |HEADER_NEEDLES| ==> Edged(HEADER_NEEDLES[k])
  {
    hide Edged;
    BearerEdged();
    BasicEdged();
  }

  lemma {:induction false} SecretsEdged()
    ensures Edged("access_token=") && Edged("refresh_token=")
    ensures Edged("client_secret=") && Edged("client_assertion=")
  {
  }

  lemma {:induction false} LoginsEdged()
    ensures Edged("password=") && Edged("pwd=") && Edged("username=")
  {
  }

  lemma {:induction false} FieldNeedlesEdged()
    ensures forall k :: 0 <= k < |FIELD_NEEDLES| ==> Edged(FIELD_NEEDLES[k])
  {
    hide Edged;
    SecretsEdged();
    LoginsEdged();
  }

  lemma {:induction false} NeedlesEdged()
    ensures AllEdged(Lowered(NEEDLES))
  {
    hide Edged;
    HeaderNeedlesEdged();
    FieldNeedlesEdged();
    forall n | n in Lowered(NEEDLES) ensures Edged(n) {
      var k :| 0 <= k < |NEEDLES| && n == Lower(NEEDLES[k]);
      LoweredEdged(NEEDLES[k]);
    }
  }

  lemma {:induction false} EndTerminates(s: string, from: nat)
    requires from <= |s|
    ensures ValueEnd(s, from) == |s| || IsTerminator(s[ValueEnd(s, from)])
  {
    hide ValueEnd;
    CutIsValue(s, from);
  }

  lemma {:induction false} MatchUnterminated(s: string, m: Needle, i: nat)
    requires MatchAt(s, m, i) && Unterminated(m)
    ensures forall p :: i <= p < i + |m| ==> !IsTerminator(s[p])
  {
    forall p | i <= p < i + |m| ensures !IsTerminator(s[p]) {
      assert LowerChar(s[i + (p - i)]) == m[p - i];
    }
  }

  /** A needle that holds no terminator is never overlaid. */
  lemma {:induction false} NotOverlaid(s: string, needles: seq<Needle>, m: Needle, i: nat)
    requires MatchAt(s, m, i) && Unterminated(m)
    ensures !Overlaid(s, needles, m, i)
  {
    hide ValueEnd, IsTerminator;
    MatchUnterminated(s, m, i);
    forall n, j | n in needles && MatchAt(s, n, j) && j + |n| <= i < ValueEnd(s, j + |n|)
      ensures i + |m| <= ValueEnd(s, j + |n|)
    {
      EndTerminates(s, j + |n|);
    }
  }

  predicate IsWord(s: string) {
    forall k :: 0 <= k < |s| ==> 'a' <= s[k] <= 'z' || s[k] == '_' || s[k] == '='
  }

  lemma {:induction false} WordIsLower(s: string)
    requires IsWord(s)
    ensures Lower(s) == s && Unterminated(s)
  {
  }

  lemma {:induction false} FieldsAreWords()
    ensures forall k :: 0 <= k < |FIELD_NEEDLES| ==> IsWord(FIELD_NEEDLES[k])
  {
    assert IsWord("access_token=") && IsWord("refresh_token=");
    assert IsWord("client_secret=") && IsWord("client_assertion=");
    assert IsWord("password=") && IsWord("pwd=") && IsWord("username=");
  }

  lemma {:induction false} FieldsUnterminated()
    ensures forall k :: 0 <= k < |FIELD_NEEDLES| ==> Unterminated(Lower(FIELD_NEEDLES[k]))
  {
    hide IsWord, Unterminated;
    FieldsAreWords();
    forall k | 0 <= k < |FIELD_NEEDLES| ensures Unterminated(Lower(FIELD_NEEDLES[k])) {
      WordIsLower(FIELD_NEEDLES[k]);
    }
  }

  // ----- A header word in the value of another -----

  lemma {:induction false} FirstPass(s: string, n: Needle, needles: seq<Needle>)
    ensures Passes(s, [n] + needles) == Passes(Pass(s, n), needles)
  {
    if needles != [] {
      var k := |needles| - 1;
      FirstPass(s, n, needles[..k]);
      assert ([n] + needles)[..k + 1] == [n] + needles[..k];
    } else {
      assert [n] + needles == [n] && [n][..0] == [];
    }
  }

  const OUTER := "Authorization: Bearer "
  const INNER := "Authorization:"

  lemma {:induction false} OuterCharacters()
    ensures forall z :: 0 <= z < |OUTER| ==> LowerChar(OUTER[z]) != '='
    ensures forall z :: 0 <= z < |OUTER| - 1 && LowerChar(OUTER[z]) == ' ' ==> z > 0 && LowerChar(OUTER[z - 1]) == ':'
  {
  }

  lemma {:induction false} NothingEndsInside(n: Needle, i: int)
    requires Edged(n) && MatchAt(OUTER, n, i)
    ensures i + |n| == |OUTER|
  {
    OuterCharacters();
    var z := i + |n| - 1;
    assert LowerChar(OUTER[i + (|n| - 1)]) == n[|n| - 1];
    assert |n| > 1 ==> LowerChar(OUTER[i + (|n| - 2)]) == n[|n| - 2];
  }

  predicate EndsLong(n: Needle) {
    n[|n| - 1] == '=' || (n[|n| - 1] == ' ' && |n| > 7)
  }

  lemma {:induction false} HeadersEndLong()
    ensures forall k :: 0 <= k < |HEADER_NEEDLES| ==> EndsLong(HEADER_NEEDLES[k])
  {
    assert EndsLong("Authorization: Bearer ") && EndsLong("Authorization:Bearer ");
    assert EndsLong("Authorization: Basic ") && EndsLong("Authorization:Basic ");
  }

  lemma {:induction false} FieldsEndLong()
    ensures forall k :: 0 <= k < |FIELD_NEEDLES| ==> EndsLong(FIELD_NEEDLES[k])
  {
    assert EndsLong("access_token=") && EndsLong("refresh_token=");
    assert EndsLong("client_secret=") && EndsLong("client_assertion=");
    assert EndsLong("password=") && EndsLong("pwd=") && EndsLong("username=");
  }

  lemma {:induction false} LoweredEndsLong(n: Needle)
    requires EndsLong(n)
    ensures EndsLong(Lower(n))
  {
  }

  lemma {:induction false} NeedlesEndLong()
    ensures forall n :: n in Lowered(NEEDLES) ==> EndsLong(n)
  {
    hide EndsLong;
    HeadersEndLong();
    FieldsEndLong();
    forall n | n in Lowered(NEEDLES) ensures EndsLong(n) {
      var k :| 0 <= k < |NEEDLES| && n == Lower(NEEDLES[k]);
      LoweredEndsLong(NEEDLES[k]);
    }
  }

  lemma {:induction false} LastOfMatch(s: string, n: Needle, i: int)
    requires MatchAt(s, n, i)
    ensures LowerChar(s[i + |n| - 1]) == n[|n| - 1]
  {
    assert LowerChar(s[i + (|n| - 1)]) == n[|n| - 1];
  }

  lemma {:induction false} NothingInTail(x: string, n: Needle)
    requires EndsLong(n) && ' ' !in x && '=' !in x
    ensures Blanked(" Basic " + x, n)
  {
    var s := " Basic " + x;
    forall i | i + |n| <= |s| ensures !MatchAt(s, n, i) {
      var z := i + |n| - 1;
      assert z >= 7 ==> s[z] == x[z - 7] && x[z - 7] in x;
      if MatchAt(s, n, i) {
        LastOfMatch(s, n, i);
      }
    }
  }

  lemma {:induction false} OuterValue(x: string)
    requires ' ' !in x && '=' !in x
    ensures Pass(OUTER + INNER + " Basic " + x, Lower(OUTER)) == OUTER + REDACTED + (" Basic " + x)
  {
    hide ValueEnd, FindFrom, Blanked;
    var s, n, tail := OUTER + INNER + " Basic " + x, Lower(OUTER), " Basic " + x;
    assert OUTER + INNER + tail == s;
    assert MatchAt(s, n, 0);
    FoundFirst(s, n, 0);
    assert Unterminated(INNER) && StartsTerminated(tail);
    assert s[|OUTER|..|OUTER| + |INNER|] == INNER && s[|OUTER| + |INNER|..] == tail;
    ValueEndIsFirst(s, |OUTER|, |OUTER| + |INNER|);
    NothingInTail(x, n);
    PassOfBlanked(tail, n);
    PassUnfolds(s, n, 0, |OUTER| + |INNER|, OUTER, tail);
  }

  lemma {:induction false} HeaderTexts(x: string)
    ensures "Authorization: Bearer Authorization: Basic " + x == OUTER + INNER + " Basic " + x
    ensures "Authorization: Bearer [REDACTED] Basic " + x == OUTER + REDACTED + (" Basic " + x)
    ensures Lowered(NEEDLES) == [Lower(OUTER)] + Lowered(NEEDLES)[1..]
  {
    assert "Authorization: Bearer [REDACTED] Basic " == OUTER + REDACTED + " Basic ";
    assert "Authorization: Bearer Authorization: Basic " == OUTER + INNER + " Basic ";
  }

  /** The exception is real: the inner header loses its name to the outer one's value, and what
      follows it stays in the output. */
  lemma {:induction false} HeaderInHeader(x: string)
    requires ' ' !in x && '=' !in x
    ensures Passes("Authorization: Bearer Authorization: Basic " + x, Lowered(NEEDLES)) ==
            "Authorization: Bearer [REDACTED] Basic " + x
  {
    hide Pass, Blanked, Separable, Edged, EndsLong, PlainNeedle;
    var s, needles := OUTER + INNER + " Basic " + x, Lowered(NEEDLES);
    HeaderTexts(x);
    var out := OUTER + REDACTED + (" Basic " + x);
    FirstPass(s, Lower(OUTER), needles[1..]);
    OuterValue(x);
    NeedlesPlain();
    NeedlesSeparable(NEEDLES);
    NeedlesEdged();
    NeedlesEndLong();
    forall n | n in needles ensures Blanked(out, n) {
      NothingInTail(x, n);
      forall i | MatchAt(OUTER, n, i) ensures i + |n| == |OUTER| {
        NothingEndsInside(n, i);
      }
      BlankedJoin(OUTER, " Basic " + x, n);
    }
    PassesOfBlanked(out, needles[1..]);
  }
}
