/** Exactly which bodies keep a value behind a credential word. */
module RedactionNesting {
  import opened Strings
  import opened Redaction
  import opened RedactionCoverage

  // ----- Cuts of later passes -----

  /** The position lies in a cut. */
  predicate InCut(d: Doc, p: int) {
    match d
    case End(_) => false
    case Cut(kept, cut, rest) =>
      |kept| <= p < |kept| + |cut| || InCut(rest, p - |kept| - |cut|)
  }

  /** A cut starts at the position. */
  predicate CutStarts(d: Doc, c: int) {
    match d
    case End(_) => false
    case Cut(kept, cut, rest) => c == |kept| || CutStarts(rest, c - |kept| - |cut|)
  }

  lemma {:induction false} NothingBefore(d: Doc, a: int, b: int)
    requires a < 0
    ensures !InCut(d, a) && !CutStarts(d, a) && !Gone(d, a, b)
  {
    if d.Cut? {
      NothingBefore(d.rest, a - |d.kept| - |d.cut|, b - |d.kept| - |d.cut|);
    }
  }

  lemma {:induction false} GoneIsInCut(d: Doc, a: int, b: int, p: int)
    requires Gone(d, a, b) && a <= p < b
    ensures InCut(d, p)
  {
    var kept, cut := d.kept, d.cut;
    if !(|kept| <= a <= b <= |kept| + |cut|) {
      GoneIsInCut(d.rest, a - |kept| - |cut|, b - |kept| - |cut|, p - |kept| - |cut|);
    }
  }

  lemma {:induction false} GoneUnfolds(kept: string, cut: string, rest: Doc, a: int, b: int)
    ensures Gone(Cut(kept, cut, rest), a, b) <==>
            |kept| <= a <= b <= |kept| + |cut| || Gone(rest, a - |kept| - |cut|, b - |kept| - |cut|)
  {
  }

  /** What is cut out stays cut out. */
  lemma {:induction false} GoneGrows(d: Doc, n: Needle, a: int, b: int)
    requires Gone(d, a, b)
    ensures Gone(PassDoc(d, n), a, b)
    decreases DocSize(d)
  {
    hide FindFrom, ValueEnd, Gone, PassDoc;
    assert d.Cut? by {
      OnlyCutsGone(d, a, b);
    }
    var kept, cut, rest := d.kept, d.cut, d.rest;
    var a', b' := a - |kept| - |cut|, b - |kept| - |cut|;
    var r := FindFrom(kept, n, 0);
    GoneUnfolds(kept, cut, rest, a, b);
    if Gone(rest, a', b') {
      GoneGrows(rest, n, a', b');
    }
    if r.None? {
      PassDocBehind(kept, cut, rest, n);
      GoneUnfolds(kept, cut, PassDoc(rest, n), a, b);
    } else {
      PassDocUnfolds(kept, cut, rest, n);
      var start := r.value + |n|;
      var v := ValueEnd(kept, start);
      if v < |kept| {
        var d' := Cut(kept[v..], cut, rest);
        GoneUnfolds(kept[v..], cut, rest, a - v, b - v);
        GoneGrows(d', n, a - v, b - v);
        GoneUnfolds(kept[..start], kept[start..v], PassDoc(d', n), a, b);
      } else {
        GoneUnfolds(kept[..start], kept[start..] + cut, PassDoc(rest, n), a, b);
      }
    }
  }

  lemma {:induction false} OnlyCutsGone(d: Doc, a: int, b: int)
    requires Gone(d, a, b)
    ensures d.Cut?
  {
  }

  /** A pass cuts behind its own needle only where the needle was still there. */
  ghost predicate NewCut(d: Doc, n: Needle, c: int) {
    MatchAt(Original(d), n, c - |n|) && !InCut(PassDoc(d, n), c - |n|)
  }

  lemma {:induction false} CutsAreNew(d: Doc, n: Needle, c: int)
    requires CutStarts(PassDoc(d, n), c)
    ensures CutStarts(d, c) || NewCut(d, n, c)
    decreases DocSize(d)
  {
    match d
    case End(text) => CutsOfEnd(text, n, c);
    case Cut(kept, cut, rest) => CutsOfCut(kept, cut, rest, n, c);
  }

  lemma {:induction false} CutsOfEnd(text: string, n: Needle, c: int)
    requires CutStarts(PassDoc(End(text), n), c)
    ensures NewCut(End(text), n, c)
    decreases |text|, 0
  {
    hide FindFrom, ValueEnd, MatchAt;
    FindFromIsFirst(text, n, 0);
    var start := FindFrom(text, n, 0).value + |n|;
    var v := ValueEnd(text, start);
    var tail := PassDoc(End(text[v..]), n);
    if c == start {
      NothingBefore(tail, start - |n| - v, 0);
    } else {
      CutsAreNew(End(text[v..]), n, c - v);
      assert NewCut(End(text[v..]), n, c - v);
      MatchInSuffix(text, v, n, c - v - |n|);
      MatchStarts(text[v..], n, c - v - |n|);
    }
  }

  lemma {:induction false} MatchStarts(s: string, n: Needle, i: int)
    requires MatchAt(s, n, i)
    ensures 0 <= i && i + |n| <= |s|
  {
  }

  lemma {:induction false} CutsOfCut(kept: string, cut: string, rest: Doc, n: Needle, c: int)
    requires CutStarts(PassDoc(Cut(kept, cut, rest), n), c)
    ensures CutStarts(Cut(kept, cut, rest), c) || NewCut(Cut(kept, cut, rest), n, c)
    decreases DocSize(Cut(kept, cut, rest)), 0
  {
    hide FindFrom, ValueEnd, MatchAt, CutStarts, InCut, NewCut, PassDoc;
    var d, w := Cut(kept, cut, rest), |kept| + |cut|;
    StartsUnfold(kept, cut, rest, c);
    var r := FindFrom(kept, n, 0);
    if r.None? {
      PassDocBehind(kept, cut, rest, n);
      StartsUnfold(kept, cut, PassDoc(rest, n), c);
      if c != |kept| {
        CutsAreNew(rest, n, c - w);
        if NewCut(rest, n, c - w) {
          NewInRest(d, n, c, w, rest, kept, cut);
        }
      }
    } else {
      PassDocUnfolds(kept, cut, rest, n);
      var start := r.value + |n|;
      var v := ValueEnd(kept, start);
      if v < |kept| {
        var d' := Cut(kept[v..], cut, rest);
        StartsUnfold(kept[..start], kept[start..v], PassDoc(d', n), c);
        if c == start {
          NewAtFound(d, n, kept[..start], kept[start..v], PassDoc(d', n));
        } else {
          CutsAreNew(d', n, c - v);
          CutsInRest(d, n, c, v, kept[..start], kept[start..v]);
        }
      } else {
        StartsUnfold(kept[..start], kept[start..] + cut, PassDoc(rest, n), c);
        if c == start {
          NewAtFound(d, n, kept[..start], kept[start..] + cut, PassDoc(rest, n));
        } else {
          CutsAreNew(rest, n, c - w);
          if NewCut(rest, n, c - w) {
            NewInRest(d, n, c, w, rest, kept[..start], kept[start..] + cut);
          }
        }
      }
    }
  }

  lemma {:induction false} PassDocBehind(kept: string, cut: string, rest: Doc, n: Needle)
    requires FindFrom(kept, n, 0).None?
    ensures PassDoc(Cut(kept, cut, rest), n) == Cut(kept, cut, PassDoc(rest, n))
  {
    hide FindFrom;
  }

  lemma {:induction false} CutsInRest(d: Doc, n: Needle, c: int, v: nat, head: string, cut: string)
    requires d.Cut? && v < |d.kept| && |head| + |cut| == v
    requires var d' := Cut(d.kept[v..], d.cut, d.rest);
             && PassDoc(d, n) == Cut(head, cut, PassDoc(d', n))
             && (CutStarts(d', c - v) || NewCut(d', n, c - v))
    ensures CutStarts(d, c) || NewCut(d, n, c)
  {
    hide PassDoc, NewCut, CutStarts;
    var d' := Cut(d.kept[v..], d.cut, d.rest);
    StartsUnfold(d.kept[v..], d.cut, d.rest, c - v);
    StartsUnfold(d.kept, d.cut, d.rest, c);
    if NewCut(d', n, c - v) {
      assert Original(d)[v..] == Original(d');
      NewInRest(d, n, c, v, d', head, cut);
    }
  }

  lemma {:induction false} StartsUnfold(kept: string, cut: string, rest: Doc, c: int)
    ensures CutStarts(Cut(kept, cut, rest), c) <==> c == |kept| || CutStarts(rest, c - |kept| - |cut|)
  {
  }

  lemma {:induction false} InCutUnfolds(kept: string, cut: string, rest: Doc, p: int)
    ensures InCut(Cut(kept, cut, rest), p) <==> |kept| <= p < |kept| + |cut| || InCut(rest, p - |kept| - |cut|)
  {
  }

  lemma {:induction false} NewAtFound(d: Doc, n: Needle, head: string, cut: string, tail: Doc)
    requires d.Cut? && FindFrom(d.kept, n, 0).Some? && PassDoc(d, n) == Cut(head, cut, tail)
    requires head == d.kept[..FindFrom(d.kept, n, 0).value + |n|]
    ensures NewCut(d, n, |head|)
  {
    hide PassDoc, FindFrom;
    FindFromIsFirst(d.kept, n, 0);
    var i := FindFrom(d.kept, n, 0).value;
    NothingBefore(tail, i - |head| - |cut|, 0);
    assert Original(d)[..|d.kept|] == d.kept;
    MatchInPrefix(Original(d), |d.kept|, n, i);
  }

  lemma {:induction false} NewInRest(d: Doc, n: Needle, c: int, w: nat, rest: Doc, head: string, cut: string)
    requires w <= |Original(d)| && Original(d)[w..] == Original(rest) && |head| + |cut| == w
    requires PassDoc(d, n) == Cut(head, cut, PassDoc(rest, n))
    requires NewCut(rest, n, c - w)
    ensures NewCut(d, n, c)
  {
    hide PassDoc, MatchAt;
    MatchInSuffix(Original(d), w, n, c - w - |n|);
    MatchStarts(Original(rest), n, c - w - |n|);
    InCutUnfolds(head, cut, PassDoc(rest, n), c - |n|);
  }

  // ----- Headers in the values of headers -----

  function Needles(): (needles: seq<Needle>)
    ensures |needles| == |NEEDLES|
  {
    Lowered(NEEDLES)
  }

  /** The first `k` needles. */
  function First(k: nat): (needles: seq<Needle>)
    requires k <= |NEEDLES|
    ensures |needles| == k
  {
    Needles()[..k]
  }

  /** The value is neither empty nor the replacement. */
  predicate HasValue(s: string, e: nat) {
    e <= |s| && ValueEnd(s, e) > e && !MarkedAt(s, e)
  }

  /** A header begins in the value of one that is listed no later, and reaches over its end. */
  predicate Nest(s: string, k: nat, l: nat, j: nat, i: nat) {
    && k <= l < |HEADER_NEEDLES|
    && MatchAt(s, Needles()[k], j) && MatchAt(s, Needles()[l], i)
    && j + |Needles()[k]| <= i < ValueEnd(s, j + |Needles()[k]|) < i + |Needles()[l]|
  }

  /** It has a value of its own behind it. */
  predicate Keeps(s: string, k: nat, l: nat, j: nat, i: nat) {
    Nest(s, k, l, j, i) && HasValue(s, i + |Needles()[l]|)
  }

  ghost predicate Nested(s: string) {
    exists k: nat, l: nat, j: nat, i: nat :: Keeps(s, k, l, j, i)
  }

  /** The value of the outer header is cut out in its own pass. */
  ghost predicate OuterCut(s: string, k: nat, j: nat)
    requires k < |NEEDLES| && j + |Needles()[k]| <= |s|
  {
    var e := j + |Needles()[k]|;
    Gone(Redacted(s, First(k + 1)), e, ValueEnd(s, e))
  }

  lemma {:induction false} NestBounds(s: string, k: nat, l: nat, j: nat, i: nat)
    requires Nest(s, k, l, j, i)
    ensures k <= l < |HEADER_NEEDLES| < |NEEDLES|
    ensures j + |Needles()[k]| <= i < ValueEnd(s, j + |Needles()[k]|) < i + |Needles()[l]| <= |s|
    ensures MatchAt(s, Needles()[k], j) && MatchAt(s, Needles()[l], i)
  {
  }

  /** The whole value from `e` on is cut out, unless there is nothing to cut out. */
  predicate ValueCut(d: Doc, s: string, e: nat) {
    HasValue(s, e) ==> Gone(d, e, ValueEnd(s, e))
  }

  /** So it is behind every occurrence of every needle. */
  ghost predicate AllValuesCut(s: string) {
    forall l: nat, i: nat :: l < |NEEDLES| && MatchAt(s, Needles()[l], i) ==>
      ValueCut(Redacted(s, Needles()), s, i + |Needles()[l]|)
  }

  lemma {:induction false} NeedleFacts()
    ensures AllSeparable(Needles()) && AllEdged(Needles())
  {
    NeedlesPlain();
    NeedlesSeparable(NEEDLES);
    NeedlesEdged();
  }

  lemma {:induction false} FirstFacts(k: nat)
    requires k <= |NEEDLES|
    ensures AllSeparable(First(k)) && AllEdged(First(k))
  {
    hide Separable, Edged;
    NeedleFacts();
  }

  lemma {:induction false} NextPass(s: string, k: nat)
    requires k < |NEEDLES|
    ensures Redacted(s, First(k + 1)) == PassDoc(Redacted(s, First(k)), Needles()[k])
  {
    hide PassDoc;
    assert First(k + 1)[..k] == First(k);
  }

  lemma {:induction false} GoneLater(s: string, k: nat, m: nat, a: int, b: int)
    requires k <= m <= |NEEDLES| && Gone(Redacted(s, First(k)), a, b)
    ensures Gone(Redacted(s, First(m)), a, b)
    decreases m
  {
    hide Redacted, PassDoc, Gone;
    if k < m {
      GoneLater(s, k, m - 1, a, b);
      NextPass(s, m - 1);
      GoneGrows(Redacted(s, First(m - 1)), Needles()[m - 1], a, b);
    }
  }

  lemma {:induction false} FieldsStayWhole(s: string, l: nat, i: nat)
    requires |HEADER_NEEDLES| <= l < |NEEDLES| && MatchAt(s, Needles()[l], i)
    ensures !Overlaid(s, First(l + 1), Needles()[l], i)
  {
    hide ValueEnd, MatchAt;
    var k := l - |HEADER_NEEDLES|;
    assert NEEDLES[l] == FIELD_NEEDLES[k];
    FieldsUnterminated();
    NotOverlaid(s, First(l + 1), Needles()[l], i);
  }

  /** Its own pass cuts the value of a needle out, unless the needle is nested. */
  lemma {:induction false} CutOrNested(s: string, l: nat, i: nat) returns (k: nat, j: nat)
    requires l < |NEEDLES| && MatchAt(s, Needles()[l], i)
    requires HasValue(s, i + |Needles()[l]|)
    ensures var e := i + |Needles()[l]|;
            Gone(Redacted(s, First(l + 1)), e, ValueEnd(s, e)) || Nest(s, k, l, j, i)
  {
    hide MatchAt, ValueEnd, Redacted, CutsValues, Original, Shown, Gone, MarkedAt, Separable, Edged, Blanked, Passes;
    var n, needles := Needles()[l], First(l + 1);
    var d := Redacted(s, needles);
    assert needles[l] == n;
    FirstFacts(l + 1);
    PassesCutValues(s, needles);
    PassesBlankAll(s, needles);
    ValuesAreGone(d, "", needles, n, i);
    assert "" + s == s;
    k, j := 0, 0;
    if Overlaid(s, needles, n, i) {
      k, j := OuterNeedle(s, l, i);
    }
  }

  lemma {:induction false} OuterNeedle(s: string, l: nat, i: nat) returns (k: nat, j: nat)
    requires l < |NEEDLES| && MatchAt(s, Needles()[l], i)
    requires Overlaid(s, First(l + 1), Needles()[l], i)
    ensures Nest(s, k, l, j, i)
  {
    hide ValueEnd, MatchAt;
    if l >= |HEADER_NEEDLES| {
      FieldsStayWhole(s, l, i);
      assert false;
    }
    var needles, n := First(l + 1), Needles()[l];
    forall m, p | m in needles && MatchAt(s, m, p) ensures 0 <= p && p + |m| <= |s| {
      MatchStarts(s, m, p);
    }
    var m, p :| m in needles && MatchAt(s, m, p) && p + |m| <= i < ValueEnd(s, p + |m|) < i + |n|;
    k :| k < |needles| && needles[k] == m;
    j := p;
  }

  // ----- Where no header is nested -----

  lemma {:induction false} CutIfNotNested(s: string, l: nat, i: nat)
    requires !Nested(s) && l < |NEEDLES| && MatchAt(s, Needles()[l], i)
    ensures ValueCut(Redacted(s, Needles()), s, i + |Needles()[l]|)
  {
    hide MatchAt, ValueEnd, Redacted, Gone, HasValue, Nest;
    var e := i + |Needles()[l]|;
    if HasValue(s, e) {
      var k, j := CutOrNested(s, l, i);
      assert !Keeps(s, k, l, j, i);
      GoneLater(s, l + 1, |NEEDLES|, e, ValueEnd(s, e));
      assert First(|NEEDLES|) == Needles();
    }
  }

  // ----- Where one is -----

  /** A value that holds the beginning of a header is not the replacement. */
  lemma {:induction false} OuterHasValue(s: string, k: nat, l: nat, j: nat, i: nat)
    requires Nest(s, k, l, j, i)
    ensures HasValue(s, j + |Needles()[k]|)
  {
    hide MatchAt, ValueEnd, Separable, Edged;
    var e := j + |Needles()[k]|;
    NeedleFacts();
    MatchStarts(s, Needles()[k], j);
    if MarkedAt(s, e) {
      MarkedValueEnd(s, e);
      var p := e + |REDACTED| - 1;
      assert s[p] == s[e..e + |REDACTED|][|REDACTED| - 1];
      MatchAvoidsBrackets(s, Needles()[l], i, p);
    }
  }

  /** There is a nested header whose outer one has its value cut out in its own pass: the
      leftmost one. */
  lemma {:induction false} LeftmostNest(s: string, k: nat, l: nat, j: nat, i: nat)
    returns (k': nat, l': nat, j': nat, i': nat)
    requires Keeps(s, k, l, j, i)
    ensures Keeps(s, k', l', j', i') && OuterCut(s, k', j')
    decreases i
  {
    hide MatchAt, ValueEnd, Redacted, Gone, HasValue, Nest;
    NestBounds(s, k, l, j, i);
    OuterHasValue(s, k, l, j, i);
    var k1, j1 := CutOrNested(s, k, j);
    if Nest(s, k1, k, j1, j) {
      k', l', j', i' := LeftmostNest(s, k1, k, j1, j);
    } else {
      k', l', j', i' := k, l, j, i;
    }
  }

  lemma {:induction false} HeaderTails()
    ensures var n := Needles()[0]; n[|n| - 1] == ' ' && n[|n| - 2] == 'r' && n[|n| - 8] == ' '
    ensures var n := Needles()[1]; n[|n| - 1] == ' ' && n[|n| - 2] == 'r' && n[|n| - 8] == ':'
    ensures var n := Needles()[2]; n[|n| - 1] == ' ' && n[|n| - 2] == 'c' && n[|n| - 7] == ' '
    ensures var n := Needles()[3]; n[|n| - 1] == ' ' && n[|n| - 2] == 'c' && n[|n| - 7] == ':'
    ensures forall k :: 0 <= k < 4 ==> |Needles()[k]| >= 20
  {
    assert NEEDLES[0] == "Authorization: Bearer " && NEEDLES[1] == "Authorization:Bearer ";
    assert NEEDLES[2] == "Authorization: Basic " && NEEDLES[3] == "Authorization:Basic ";
  }

  lemma {:induction false} FieldTails()
    ensures forall k :: |HEADER_NEEDLES| <= k < |NEEDLES| ==> Needles()[k][|Needles()[k]| - 1] == '='
  {
    forall k | 0 <= k < |FIELD_NEEDLES| ensures FIELD_NEEDLES[k][|FIELD_NEEDLES[k]| - 1] == '=' {
      assert k == 0 || k == 1 || k == 2 || k == 3 || k == 4 || k == 5 || k == 6;
    }
    forall k | |HEADER_NEEDLES| <= k < |NEEDLES| ensures Needles()[k][|Needles()[k]| - 1] == '=' {
      assert NEEDLES[k] == FIELD_NEEDLES[k - |HEADER_NEEDLES|];
    }
  }

  lemma {:induction false} FromTheEnd(s: string, n: Needle, i: int, q: nat)
    requires MatchAt(s, n, i) && 0 < q <= |n|
    ensures LowerChar(s[i + |n| - q]) == n[|n| - q]
  {
    assert LowerChar(s[i + (|n| - q)]) == n[|n| - q];
  }

  /** No other needle ends where a header ends. */
  lemma {:induction false} EndsAlone(s: string, l: nat, m: nat, i: int, j: int)
    requires l < |HEADER_NEEDLES| && m < |NEEDLES|
    requires MatchAt(s, Needles()[l], i) && MatchAt(s, Needles()[m], j)
    requires i + |Needles()[l]| == j + |Needles()[m]|
    ensures l == m
  {
    hide MatchAt, Needles;
    HeaderTails();
    FieldTails();
    FromTheEnd(s, Needles()[l], i, 1);
    FromTheEnd(s, Needles()[m], j, 1);
    if m < |HEADER_NEEDLES| {
      FromTheEnd(s, Needles()[l], i, 2);
      FromTheEnd(s, Needles()[m], j, 2);
      FromTheEnd(s, Needles()[l], i, 7);
      FromTheEnd(s, Needles()[m], j, 7);
      FromTheEnd(s, Needles()[l], i, 8);
      FromTheEnd(s, Needles()[m], j, 8);
    }
  }

  /** No pass cuts behind a header whose beginning is cut out before its own pass is over. */
  lemma {:induction false} NeverCutBehind(s: string, k: nat, l: nat, j: nat, i: nat, m: nat)
    requires Nest(s, k, l, j, i) && OuterCut(s, k, j) && m <= |NEEDLES|
    ensures !CutStarts(Redacted(s, First(m)), i + |Needles()[l]|)
    decreases m
  {
    hide MatchAt, ValueEnd, Gone, PassDoc, InCut, Original, Nest, OuterCut, Needles, First;
    NestBounds(s, k, l, j, i);
    if m == 0 {
      assert First(0) == [];
    } else {
      hide Redacted, CutStarts;
      NeverCutBehind(s, k, l, j, i, m - 1);
      NextPass(s, m - 1);
      NotCutNext(s, k, l, j, i, m - 1);
    }
  }

  lemma {:induction false} NotCutNext(s: string, k: nat, l: nat, j: nat, i: nat, m: nat)
    requires Nest(s, k, l, j, i) && OuterCut(s, k, j) && m < |NEEDLES|
    requires var c := i + |Needles()[l]|; !CutStarts(Redacted(s, First(m)), c)
    ensures var c := i + |Needles()[l]|; !CutStarts(PassDoc(Redacted(s, First(m)), Needles()[m]), c)
  {
    hide MatchAt, ValueEnd, Gone, PassDoc, InCut, Original, Nest, Needles, First, Redacted, CutStarts, CutsValues;
    NestBounds(s, k, l, j, i);
    var c, d, n := i + |Needles()[l]|, Redacted(s, First(m)), Needles()[m];
    if CutStarts(PassDoc(d, n), c) {
      CutsAreNew(d, n, c);
      FirstFacts(m);
      PassesCutValues(s, First(m));
      EndsAlone(s, l, m, i, c - |n|);
      InOuterCut(s, k, l, j, i, l + 1);
      NextPass(s, l);
    }
  }

  lemma {:induction false} InOuterCut(s: string, k: nat, l: nat, j: nat, i: nat, m: nat)
    requires Nest(s, k, l, j, i) && OuterCut(s, k, j) && k < m <= |NEEDLES|
    ensures InCut(Redacted(s, First(m)), i)
  {
    hide MatchAt, ValueEnd, Gone, InCut, Nest, Needles, First, Redacted;
    NestBounds(s, k, l, j, i);
    var e := j + |Needles()[k]|;
    GoneLater(s, k + 1, m, e, ValueEnd(s, e));
    GoneIsInCut(Redacted(s, First(m)), e, ValueEnd(s, e), i);
  }

  lemma {:induction false} InsideCut(kept: string, cut: string, tail: string, c: nat)
    requires Unterminated(cut) && |kept| < c <= |kept| + |cut|
    ensures !IsTerminator((kept + cut + tail)[c - 1])
  {
    assert (kept + cut + tail)[c - 1] == cut[c - 1 - |kept|];
  }

  /** A position behind a terminator lies in a cut only if one starts there. */
  lemma {:induction false} CutStartsThere(d: Doc, before: string, needles: seq<Needle>, c: nat)
    requires CutsValues(d, before, needles) && InCut(d, c) && 0 < c <= |Original(d)|
    requires IsTerminator(Original(d)[c - 1])
    ensures CutStarts(d, c)
  {
    hide EndsWithNeedle, StartsTerminated, IsTerminator, Unterminated;
    var kept, cut, rest := d.kept, d.cut, d.rest;
    var w := |kept| + |cut|;
    if |kept| < c <= w {
      InsideCut(kept, cut, Original(rest), c);
    } else if c > w {
      assert Original(d)[c - 1] == Original(rest)[c - w - 1];
      CutStartsThere(rest, before + kept + cut, needles, c - w);
    } else if c < |kept| {
      NothingBefore(rest, c - w, 0);
    }
  }

  /** The value of that nested header stays, from its first character on. */
  lemma {:induction false} NestedStays(s: string, k: nat, l: nat, j: nat, i: nat)
    requires Nest(s, k, l, j, i) && OuterCut(s, k, j)
    ensures !InCut(Redacted(s, Needles()), i + |Needles()[l]|)
  {
    hide ValueEnd, Gone, PassDoc, InCut, Original, Redacted, CutStarts, CutsValues, MatchAt, MarkedAt, Nest, OuterCut;
    NestBounds(s, k, l, j, i);
    var c := i + |Needles()[l]|;
    var d := Redacted(s, Needles());
    assert First(|NEEDLES|) == Needles();
    NeverCutBehind(s, k, l, j, i, |NEEDLES|);
    NeedleFacts();
    PassesCutValues(s, Needles());
    HeaderTails();
    FromTheEnd(s, Needles()[l], i, 1);
    assert LowerChar(s[c - 1]) == ' ';
    if InCut(d, c) {
      CutStartsThere(d, "", Needles(), c);
    }
  }

  lemma {:induction false} NotAllCut(s: string, k: nat, l: nat, j: nat, i: nat)
    requires Keeps(s, k, l, j, i) && OuterCut(s, k, j)
    ensures !AllValuesCut(s)
  {
    hide MatchAt, Redacted, Gone, InCut, MarkedAt, ValueEnd, OuterCut, Nest;
    NestBounds(s, k, l, j, i);
    var c := i + |Needles()[l]|;
    NestedStays(s, k, l, j, i);
    if Gone(Redacted(s, Needles()), c, ValueEnd(s, c)) {
      GoneIsInCut(Redacted(s, Needles()), c, ValueEnd(s, c), c);
    }
    assert !ValueCut(Redacted(s, Needles()), s, c);
  }

  /** Redaction cuts out the whole value behind every credential word if and only if no header
      with a value begins in the value of a header listed no later and reaches over its end. */
  lemma {:induction false} ValuesCutExactly(s: string)
    ensures AllValuesCut(s) <==> !Nested(s)
    ensures Original(Redacted(s, Needles())) == s && Shown(Redacted(s, Needles())) == Passes(s, Needles())
  {
    hide MatchAt, ValueCut, Redacted, Keeps, CutsValues, Separable, Edged, OuterCut, Passes;
    NeedleFacts();
    PassesCutValues(s, Needles());
    if Nested(s) {
      var k: nat, l: nat, j: nat, i: nat :| Keeps(s, k, l, j, i);
      var k', l', j', i' := LeftmostNest(s, k, l, j, i);
      NotAllCut(s, k', l', j', i');
    } else {
      forall l: nat, i: nat | l < |NEEDLES| && MatchAt(s, Needles()[l], i)
        ensures i + |Needles()[l]| <= |s| && ValueCut(Redacted(s, Needles()), s, i + |Needles()[l]|)
      {
        MatchStarts(s, Needles()[l], i);
        CutIfNotNested(s, l, i);
      }
    }
  }

  /** Word by word: the whole value behind it is cut out, unless the word is such a header. */
  lemma {:induction false} ValueCutUnlessNested(s: string, l: nat, i: nat)
    requires l < |NEEDLES| && MatchAt(s, Needles()[l], i)
    ensures ValueCut(Redacted(s, Needles()), s, i + |Needles()[l]|) || exists k: nat, j: nat :: Nest(s, k, l, j, i)
  {
    hide MatchAt, ValueEnd, Redacted, Gone, HasValue, Nest;
    var e := i + |Needles()[l]|;
    MatchStarts(s, Needles()[l], i);
    if HasValue(s, e) {
      var k, j := CutOrNested(s, l, i);
      if !Nest(s, k, l, j, i) {
        GoneLater(s, l + 1, |NEEDLES|, e, ValueEnd(s, e));
        assert First(|NEEDLES|) == Needles();
      }
    }
  }

  /** So the words in front of an equals sign never keep their value. */
  lemma {:induction false} FieldsAreCut(s: string, l: nat, i: nat)
    requires |HEADER_NEEDLES| <= l < |NEEDLES| && MatchAt(s, Needles()[l], i)
    ensures ValueCut(Redacted(s, Needles()), s, i + |Needles()[l]|)
  {
    hide MatchAt, ValueCut, Redacted, Nest;
    ValueCutUnlessNested(s, l, i);
    forall k: nat, j: nat ensures !Nest(s, k, l, j, i) {
      if Nest(s, k, l, j, i) {
        NestBounds(s, k, l, j, i);
      }
    }
  }
}
