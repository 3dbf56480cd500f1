/** What redaction does to a body, with the words and characters written out. */
module RedactionWords {
  import opened Options
  import opened Strings
  import opened Spelling
  import opened Redaction
  import opened RedactionCoverage

  /** The words in front of a credential. */
  predicate IsWord(w: string) {
    || w in ["Authorization: Bearer ", "Authorization:Bearer ", "Authorization: Basic ", "Authorization:Basic "]
    || w in ["access_token=", "refresh_token=", "client_secret=", "client_assertion="]
    || w in ["password=", "pwd=", "username="]
  }

  /** The characters that end a credential. */
  predicate Ends(c: char) {
    White(c) || c == '"' || c == '&'
  }

  /** A credential: it reaches to the first character that ends it. */
  predicate IsValue(v: string) {
    forall i :: 0 <= i < |v| ==> !Ends(v[i])
  }

  /** One of the words stands at `i`, in any letter case, and ends before `e`. */
  predicate WordAt(s: string, w: string, i: nat) {
    IsWord(w) && i + |w| <= |s| && SameButCase(s[i..i + |w|], w)
  }

  lemma {:induction false} WordsAreNeedles(w: string)
    ensures IsWord(w) <==> exists k :: 0 <= k < |NEEDLES| && NEEDLES[k] == w
  {
    assert |NEEDLES| == 11;
    assert NEEDLES[0] == "Authorization: Bearer " && NEEDLES[1] == "Authorization:Bearer ";
    assert NEEDLES[2] == "Authorization: Basic " && NEEDLES[3] == "Authorization:Basic ";
    assert NEEDLES[4] == "access_token=" && NEEDLES[5] == "refresh_token=" && NEEDLES[6] == "client_secret=";
    assert NEEDLES[7] == "client_assertion=" && NEEDLES[8] == "password=" && NEEDLES[9] == "pwd=";
    assert NEEDLES[10] == "username=";
  }

  lemma {:induction false} WordMatches(s: string, w: string, i: nat)
    requires i + |w| <= |s|
    ensures SameButCase(s[i..i + |w|], w) <==> MatchAt(s, Lower(w), i)
  {
    hide LowerChar, SameLetter;
    forall c: char, d: char ensures LowerChar(c) == LowerChar(d) <==> SameLetter(c, d) {
      LowerCharDecides(c, d);
    }
    var t := s[i..i + |w|];
    assert forall k :: 0 <= k < |w| ==> t[k] == s[i + k];
    assert forall k :: 0 <= k < |w| ==> Lower(w)[k] == LowerChar(w[k]);
  }

  /** The needles occur where the words stand. */
  lemma {:induction false} NeedleIsWord(s: string, n: Needle, i: nat) returns (w: string)
    requires n in Lowered(NEEDLES) && MatchAt(s, n, i)
    ensures |w| == |n| && WordAt(s, w, i)
  {
    hide MatchAt, IsWord, SameButCase;
    var k :| 0 <= k < |NEEDLES| && n == Lower(NEEDLES[k]);
    w := NEEDLES[k];
    WordsAreNeedles(w);
    MatchBounds(s, n, i);
    WordMatches(s, w, i);
  }

  lemma {:induction false} MatchBounds(s: string, n: Needle, i: nat)
    requires MatchAt(s, n, i)
    ensures i + |n| <= |s|
  {
  }

  lemma {:induction false} EndsIs(c: char)
    ensures IsTerminator(c) <==> Ends(c)
  {
    WhiteIs(c);
  }

  lemma {:induction false} ValueIs(v: string)
    ensures Unterminated(v) <==> IsValue(v)
  {
    hide IsTerminator, Ends;
    forall c: char ensures IsTerminator(c) <==> Ends(c) {
      EndsIs(c);
    }
  }

  // ----- One pass over a text with one value -----

  /** Apart from the word at the end of `front`, needles occur inside the value only. */
  ghost predicate OnlyInside(front: string, x: string, t: string, needles: seq<Needle>) {
    forall n, i :: n in needles && MatchAt(front + x + t, n, i) ==>
      (i + |n| == |front| || i >= |front|) && i + |n| <= |front| + |x|
  }

  lemma {:induction false} NothingBehind(front: string, x: string, t: string, needles: seq<Needle>, n: Needle)
    requires OnlyInside(front, x, t, needles) && n in needles
    ensures Pass(t, n) == t
  {
    hide MatchAt;
    FindFromIsFirst(t, n, 0);
    var s, r := front + x + t, FindFrom(t, n, 0);
    if r.Some? {
      assert s[|front| + |x|..] == t;
      MatchInSuffix(s, |front| + |x|, n, r.value);
    }
    PassOfNone(t, n);
  }

  /** Where the value ends, whatever part of it has been looked at. */
  lemma {:induction false} ValueToEnd(front: string, x: string, t: string, from: nat)
    requires |front| <= from <= |front| + |x| && Unterminated(x) && StartsTerminated(t)
    ensures ValueEnd(front + x + t, from) == |front| + |x|
  {
    hide ValueEnd;
    CutEnd(front, x, t, from - |front|);
  }

  /** A pass over such a text shortens the value from behind some occurrence on, or leaves it. */
  lemma {:induction false} OnePass(front: string, x: string, t: string, needles: seq<Needle>, n: Needle)
    returns (y: string)
    requires AllSeparable(needles) && OnlyInside(front, x, t, needles) && n in needles
    requires Unterminated(x) && StartsTerminated(t)
    ensures Pass(front + x + t, n) == front + y + t
    ensures Unterminated(y) && OnlyInside(front, y, t, needles)
    ensures x == REDACTED || MatchAt(front, n, |front| - |n|) ==> y == REDACTED
  {
    hide MatchAt, ValueEnd, Pass, Separable, OnlyInside, Unterminated, StartsTerminated;
    var s := front + x + t;
    FindFromIsFirst(s, n, 0);
    match FindFrom(s, n, 0)
    case None =>
      y := x;
      PassOfNone(s, n);
      NoMatchInFront(front, x, t, n);
    case Some(i) =>
      InsideAt(front, x, t, needles, n, i);
      var j := i + |n| - |front|;
      y := x[..j] + REDACTED;
      ValueToEnd(front, x, t, i + |n|);
      NothingBehind(front, x, t, needles, n);
      assert s[..i + |n|] == front + x[..j] && s[|front| + |x|..] == t;
      PassUnfolds(s, n, i, |front| + |x|, front + x[..j], t);
      assert front + x[..j] + REDACTED + t == front + y + t;
      ShorterIsInside(front, x, t, needles, j);
      ShorterIsValue(x, j);
      FirstInFront(front, x, t, needles, n, i);
  }

  lemma {:induction false} InsideAt(front: string, x: string, t: string, needles: seq<Needle>, n: Needle, i: nat)
    requires OnlyInside(front, x, t, needles) && n in needles && MatchAt(front + x + t, n, i)
    ensures |front| <= i + |n| <= |front| + |x| && (i + |n| == |front| || i >= |front|)
  {
    hide MatchAt;
  }

  lemma {:induction false} ShorterIsValue(x: string, j: nat)
    requires Unterminated(x) && j <= |x|
    ensures Unterminated(x[..j] + REDACTED)
  {
  }

  lemma {:induction false} MatchInFront(front: string, x: string, t: string, n: Needle)
    requires MatchAt(front, n, |front| - |n|)
    ensures MatchAt(front + x + t, n, |front| - |n|)
  {
    assert (front + x + t)[..|front|] == front;
    MatchInPrefix(front + x + t, |front|, n, |front| - |n|);
  }

  lemma {:induction false} NoMatchInFront(front: string, x: string, t: string, n: Needle)
    requires FindFrom(front + x + t, n, 0).None?
    ensures !MatchAt(front, n, |front| - |n|)
    ensures x == REDACTED || MatchAt(front, n, |front| - |n|) ==> x == REDACTED
  {
    hide MatchAt;
    FindFromIsFirst(front + x + t, n, 0);
    if MatchAt(front, n, |front| - |n|) {
      MatchInFront(front, x, t, n);
      MatchBegins(front, n);
    }
  }

  lemma {:induction false} MatchBegins(front: string, n: Needle)
    requires MatchAt(front, n, |front| - |n|)
    ensures |front| >= |n|
  {
  }

  /** The first occurrence is the word in front, if that is the needle, or if the value has been
      replaced already. */
  lemma {:induction false} FirstInFront(front: string, x: string, t: string, needles: seq<Needle>, n: Needle, i: nat)
    requires AllSeparable(needles) && OnlyInside(front, x, t, needles) && n in needles
    requires FindFrom(front + x + t, n, 0) == Some(i)
    ensures |front| <= i + |n| <= |front| + |x|
    ensures x == REDACTED || MatchAt(front, n, |front| - |n|) ==> x[..i + |n| - |front|] + REDACTED == REDACTED
  {
    hide MatchAt, Separable, OnlyInside;
    var s := front + x + t;
    FindFromIsFirst(s, n, 0);
    InsideAt(front, x, t, needles, n, i);
    if MatchAt(front, n, |front| - |n|) {
      MatchInFront(front, x, t, n);
      MatchBegins(front, n);
      assert i <= |front| - |n|;
    } else if x == REDACTED {
      MatchInJoin(front, t, n, i);
    }
  }

  /** Replacing the rest of the value makes no new occurrence. */
  lemma {:induction false} ShorterIsInside(front: string, x: string, t: string, needles: seq<Needle>, j: nat)
    requires AllSeparable(needles) && OnlyInside(front, x, t, needles) && j <= |x|
    ensures OnlyInside(front, x[..j] + REDACTED, t, needles)
  {
    hide Separable;
    var y := x[..j] + REDACTED;
    var s, a := front + x + t, front + x[..j];
    assert front + y + t == a + REDACTED + t;
    forall n, i | n in needles && MatchAt(front + y + t, n, i)
      ensures (i + |n| == |front| || i >= |front|) && i + |n| <= |front| + |y|
    {
      MatchInJoin(a, t, n, i);
      if i + |n| <= |a| {
        assert s[..|a|] == a;
        MatchInPrefix(s, |a|, n, i);
      } else {
        assert s[|front| + |x|..] == t;
        MatchInSuffix(s, |front| + |x|, n, i - |a| - |REDACTED|);
      }
    }
  }

  /** All passes together replace the value whole. */
  lemma {:induction false} AllPasses(front: string, x: string, t: string, needles: seq<Needle>, all: seq<Needle>)
    returns (y: string)
    requires AllSeparable(all) && OnlyInside(front, x, t, all) && forall n :: n in needles ==> n in all
    requires Unterminated(x) && StartsTerminated(t)
    ensures Passes(front + x + t, needles) == front + y + t
    ensures Unterminated(y) && OnlyInside(front, y, t, all)
    ensures (exists n :: n in needles && MatchAt(front, n, |front| - |n|)) ==> y == REDACTED
    ensures needles == [] ==> y == x
  {
    hide MatchAt, Pass, Separable, OnlyInside, Unterminated, StartsTerminated;
    if needles == [] {
      y := x;
    } else {
      var k := |needles| - 1;
      var z := AllPasses(front, x, t, needles[..k], all);
      y := OnePass(front, z, t, all, needles[k]);
      assert forall n :: n in needles <==> n in needles[..k] || n == needles[k];
    }
  }

  // ----- With the words written out -----

  /** The front ends with a word, and the others stand inside the value only. */
  ghost predicate OneCredential(front: string, v: string, t: string) {
    && (exists w :: IsWord(w) && |w| <= |front| && SameButCase(front[|front| - |w|..], w))
    && IsValue(v)
    && (t == [] || Ends(t[0]))
    && WordsInside(front, v, t)
  }

  lemma {:induction false} WordIsNeedle(w: string)
    requires IsWord(w)
    ensures w != [] && Lower(w) in Lowered(NEEDLES)
  {
    hide IsWord;
    WordsAreNeedles(w);
    var k :| 0 <= k < |NEEDLES| && NEEDLES[k] == w;
    assert Lowered(NEEDLES)[k] == Lower(w);
  }

  lemma {:induction false} WordInFront(front: string, w: string)
    requires IsWord(w) && |w| <= |front| && SameButCase(front[|front| - |w|..], w)
    ensures exists n :: n in Lowered(NEEDLES) && MatchAt(front, n, |front| - |n|)
  {
    hide MatchAt, IsWord, SameButCase, Lowered;
    WordIsNeedle(w);
    WordMatches(front, w, |front| - |w|);
    assert front[|front| - |w|..|front| - |w| + |w|] == front[|front| - |w|..];
    var n := Lower(w);
    assert MatchAt(front, n, |front| - |n|);
  }

  ghost predicate WordsInside(front: string, v: string, t: string) {
    forall w: string, i: nat :: WordAt(front + v + t, w, i) ==>
      (i + |w| == |front| || i >= |front|) && i + |w| <= |front| + |v|
  }

  lemma {:induction false} InsideOnly(front: string, v: string, t: string)
    requires WordsInside(front, v, t)
    ensures OnlyInside(front, v, t, Lowered(NEEDLES))
  {
    hide MatchAt, WordAt;
    var s := front + v + t;
    forall n, i | n in Lowered(NEEDLES) && MatchAt(s, n, i)
      ensures (i + |n| == |front| || i >= |front|) && i + |n| <= |front| + |v|
    {
      MatchFrom(s, n, i);
      var w := NeedleIsWord(s, n, i);
    }
  }

  lemma {:induction false} CredentialIsInside(front: string, v: string, t: string)
    requires OneCredential(front, v, t)
    ensures OnlyInside(front, v, t, Lowered(NEEDLES)) && Unterminated(v) && StartsTerminated(t)
    ensures exists n :: n in Lowered(NEEDLES) && MatchAt(front, n, |front| - |n|)
  {
    hide MatchAt, IsWord, SameButCase, Ends, IsTerminator, WordsInside, OnlyInside, IsValue;
    ValueIs(v);
    if t != [] {
      EndsIs(t[0]);
    }
    var w :| IsWord(w) && |w| <= |front| && SameButCase(front[|front| - |w|..], w);
    WordInFront(front, w);
    InsideOnly(front, v, t);
  }

  lemma {:induction false} MatchFrom(s: string, n: Needle, i: int)
    requires MatchAt(s, n, i)
    ensures 0 <= i
  {
  }

  /** A credential behind one of the words, whatever its letter case, is replaced up to the first
      white space, quotation mark or ampersand, and nothing else is changed. */
  lemma {:induction false} CredentialIsHidden(front: string, v: string, t: string)
    requires OneCredential(front, v, t) && ByteLen(front + v + t) <= 512
    ensures Sanitized(front + v + t) == front + "[REDACTED]" + t
  {
    hide OneCredential, ByteLen, Separable, PlainNeedle, MatchAt, OnlyInside, Unterminated, StartsTerminated;
    NeedlesPlain();
    NeedlesSeparable(NEEDLES);
    CredentialIsInside(front, v, t);
    var y := AllPasses(front, v, t, Lowered(NEEDLES), Lowered(NEEDLES));
  }

  /** In particular a body that is a word and a credential. */
  lemma {:induction false} WordAndValue(u: string, w: string, v: string)
    requires IsWord(w) && SameButCase(u, w) && IsValue(v) && ByteLen(u + v) <= 512
    ensures Sanitized(u + v) == u + "[REDACTED]"
  {
    hide IsWord, SameButCase, IsValue, ByteLen, WordAt, Sanitized;
    assert u + v + "" == u + v && u + "[REDACTED]" + "" == u + "[REDACTED]";
    assert |u| == |w| by { SameLength(u, w); }
    forall x: string, i: nat | WordAt(u + v + "", x, i)
      ensures i + |x| == |u| || i >= |u|
      ensures i + |x| <= |u| + |v|
    {
      NotAcross(u, w, v, x, i);
    }
    assert u[|u| - |w|..] == u;
    CredentialIsHidden(u, v, "");
  }

  lemma {:induction false} SameLength(a: string, b: string)
    requires SameButCase(a, b)
    ensures |a| == |b|
  {
  }

  /** No word reaches over the end of another. */
  lemma {:induction false} NotAcross(u: string, w: string, v: string, x: string, i: nat)
    requires IsWord(w) && SameButCase(u, w) && WordAt(u + v + "", x, i)
    ensures (i + |x| == |u| || i >= |u|) && i + |x| <= |u| + |v|
  {
    hide MatchAt, IsWord, SameButCase, Edged;
    var s := u + v;
    assert u + v + "" == s;
    SameLength(u, w);
    WordsAreNeedles(w);
    WordsAreNeedles(x);
    NeedlesEdged();
    var k :| 0 <= k < |NEEDLES| && NEEDLES[k] == w;
    var l :| 0 <= l < |NEEDLES| && NEEDLES[l] == x;
    assert Lowered(NEEDLES)[k] == Lower(w) && Lowered(NEEDLES)[l] == Lower(x);
    assert s[0..0 + |w|] == u;
    WordMatches(s, w, 0);
    WordMatches(s, x, i);
    NoOverlap(s, Lower(x), Lower(w), i, 0);
    NoOverlap(s, Lower(w), Lower(x), 0, i);
  }

  /** A body without any of the words comes back truncated, and otherwise as it is. */
  lemma {:induction false} NothingToHide(body: string)
    requires forall w: string, i: nat :: !WordAt(Truncated(body), w, i)
    ensures Sanitized(body) == Truncated(body)
    ensures ByteLen(body) <= 512 ==> Sanitized(body) == body
  {
    hide MatchAt, WordAt, Separable, PlainNeedle, ByteLen;
    var text := Truncated(body);
    NeedlesPlain();
    NeedlesSeparable(NEEDLES);
    forall n, i | n in Lowered(NEEDLES) && MatchAt(text, n, i) ensures false {
      MatchFrom(text, n, i);
      var w := NeedleIsWord(text, n, i);
    }
    PassesOfBlanked(text, Lowered(NEEDLES));
  }

  /** A word holds no character that ends a credential before it holds a colon. */
  lemma {:induction false} ColonFirst(w: string, k: nat)
    requires IsWord(w) && k < |w| && Ends(w[k])
    ensures k > 13 && w[13] == ':'
  {
    hide Ends;
    forall c: char | IsGraphic(c) ensures !Ends(c) {
      GraphicEndsNothing(c);
    }
    HeaderColon(w);
    FieldLetters(w);
    HeaderLetters(w);
  }

  predicate IsGraphic(c: char) {
    'a' <= c <= 'z' || 'A' <= c <= 'Z' || c == ':' || c == '_' || c == '='
  }

  lemma {:induction false} GraphicEndsNothing(c: char)
    requires IsGraphic(c)
    ensures !Ends(c)
  {
  }

  predicate IsHeader(w: string) {
    w in ["Authorization: Bearer ", "Authorization:Bearer ", "Authorization: Basic ", "Authorization:Basic "]
  }

  lemma {:induction false} HeaderColon(w: string)
    ensures IsHeader(w) ==> |w| > 13 && w[13] == ':'
  {
  }

  lemma {:induction false} HeaderLetters(w: string)
    ensures IsHeader(w) ==> forall k :: 0 <= k < 14 ==> IsGraphic(w[k])
  {
    if IsHeader(w) {
      assert w[..14] == "Authorization:";
      forall k | 0 <= k < 14 ensures IsGraphic(w[k]) {
        assert w[k] == "Authorization:"[k];
      }
    }
  }

  lemma {:induction false} FieldLetters(w: string)
    requires IsWord(w)
    ensures !IsHeader(w) ==> forall k :: 0 <= k < |w| ==> IsGraphic(w[k])
  {
  }

  /** With more text behind it that holds none of the words, and no colon in the credential. */
  lemma {:induction false} WordValueRest(u: string, w: string, v: string, t: string)
    requires IsWord(w) && SameButCase(u, w) && IsValue(v) && ':' !in v
    requires (t == [] || Ends(t[0])) && forall x: string, i: nat :: !WordAt(t, x, i)
    requires ByteLen(u + v + t) <= 512
    ensures Sanitized(u + v + t) == u + "[REDACTED]" + t
  {
    hide IsWord, SameButCase, IsValue, ByteLen, WordAt, Sanitized, Ends;
    SameLength(u, w);
    forall x: string, i: nat | WordAt(u + v + t, x, i)
      ensures i + |x| == |u| || i >= |u|
      ensures i + |x| <= |u| + |v|
    {
      NotOver(u, w, v, t, x, i);
      assert u + (v + t) + "" == u + v + t;
      NotAcross(u, w, v + t, x, i);
    }
    assert u[|u| - |w|..] == u;
    CredentialIsHidden(u, v, t);
  }

  lemma {:induction false} NotOver(u: string, w: string, v: string, t: string, x: string, i: nat)
    requires IsWord(w) && SameButCase(u, w) && ':' !in v
    requires (t == [] || Ends(t[0])) && forall y: string, j: nat :: !WordAt(t, y, j)
    requires WordAt(u + v + t, x, i)
    ensures i + |x| <= |u| + |v|
  {
    hide IsWord, SameButCase, Ends;
    var s, p := u + v + t, |u| + |v|;
    SameLength(u, w);
    if i >= p {
      assert s[p..] == t && s[i..i + |x|] == t[i - p..i - p + |x|];
      assert WordAt(t, x, i - p);
    } else if i + |x| > p {
      assert u + (v + t) + "" == s;
      NotAcross(u, w, v + t, x, i);
      LetterAt(s, x, i, p);
      SameEnds(s[p], x[p - i]);
      ColonFirst(x, p - i);
      NoColon(u, v, t, i + 13);
      LetterAt(s, x, i, i + 13);
    }
  }

  lemma {:induction false} NoColon(u: string, v: string, t: string, q: nat)
    requires |u| <= q < |u| + |v| && ':' !in v
    ensures (u + v + t)[q] != ':'
  {
    assert (u + v + t)[q] == v[q - |u|];
  }

  lemma {:induction false} LetterAt(s: string, x: string, i: nat, p: nat)
    requires WordAt(s, x, i) && i <= p < i + |x|
    ensures SameLetter(s[p], x[p - i])
  {
    assert s[i..i + |x|][p - i] == s[p];
  }

  lemma {:induction false} SameEnds(c: char, d: char)
    requires SameLetter(c, d) && Ends(c)
    ensures c == d
  {
  }
}
