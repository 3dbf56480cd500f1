/** White space and letter case written out character by character. */
module Spelling {
  import opened Strings

  /** The characters with the Unicode property White_Space. */
  predicate White(c: char) {
    || c in "\t\n\U{B}\U{C}\r \U{85}\U{A0}\U{1680}\U{2000}\U{2001}\U{2002}\U{2003}\U{2004}\U{2005}\U{2006}"
    || c in "\U{2007}\U{2008}\U{2009}\U{200A}\U{2028}\U{2029}\U{202F}\U{205F}\U{3000}"
  }

  /** The same character, or the same letter of the English alphabet in the other case. */
  predicate SameLetter(c: char, d: char) {
    || c == d
    || ('a' <= c <= 'z' && d as int == c as int - 32)
    || ('a' <= d <= 'z' && c as int == d as int - 32)
  }

  predicate SameButCase(a: string, b: string) {
    |a| == |b| && forall i :: 0 <= i < |a| ==> SameLetter(a[i], b[i])
  }

  lemma {:induction false} LowerCharDecides(c: char, d: char)
    ensures LowerChar(c) == LowerChar(d) <==> SameLetter(c, d)
  {
  }

  /** Folding identifies exactly the strings that differ in letter case only. */
  lemma {:induction false} LowerDecides(a: string, b: string)
    ensures Lower(a) == Lower(b) <==> SameButCase(a, b)
  {
    hide LowerChar, SameLetter;
    forall c: char, d: char ensures LowerChar(c) == LowerChar(d) <==> SameLetter(c, d) {
      LowerCharDecides(c, d);
    }
    if Lower(a) == Lower(b) {
      forall i | 0 <= i < |a| ensures SameLetter(a[i], b[i]) {
        assert Lower(a)[i] == Lower(b)[i];
      }
    }
    if SameButCase(a, b) {
      assert forall i :: 0 <= i < |a| ==> Lower(a)[i] == Lower(b)[i];
    }
  }

  /** What is folded already stays, and folding leaves the lower case. */
  lemma {:induction false} LowerStays(s: string)
    ensures Lower(Lower(s)) == Lower(s) && SameButCase(s, Lower(s))
    ensures (forall i :: 0 <= i < |s| ==> !('A' <= s[i] <= 'Z')) <==> Lower(s) == s
  {
    forall i | 0 <= i < |s| ensures Lower(Lower(s))[i] == Lower(s)[i] && SameLetter(s[i], Lower(s)[i]) {
    }
    if Lower(s) == s {
      assert forall i :: 0 <= i < |s| ==> Lower(s)[i] == LowerChar(s[i]);
    }
  }

  lemma {:induction false} WhiteIs(c: char)
    ensures IsWhitespace(c) <==> White(c)
  {
  }

  // ----- Trimming -----

  predicate AllWhite(s: string) {
    forall i :: 0 <= i < |s| ==> White(s[i])
  }

  /** Nothing is left to trim. */
  predicate Bare(s: string) {
    s == [] || (!White(s[0]) && !White(s[|s| - 1]))
  }

  lemma {:induction false} TrimStartSplits(s: string) returns (before: string)
    ensures s == before + TrimStart(s) && AllWhite(before)
    ensures TrimStart(s) != [] ==> !White(TrimStart(s)[0])
  {
    hide White;
    if s != [] {
      WhiteIs(s[0]);
      if IsWhitespace(s[0]) {
        before := TrimStartSplits(s[1..]);
        before := [s[0]] + before;
      } else {
        before := [];
      }
    } else {
      before := [];
    }
  }

  lemma {:induction false} TrimEndSplits(s: string) returns (after: string)
    ensures s == TrimEnd(s) + after && AllWhite(after)
    ensures TrimEnd(s) != [] ==> !White(TrimEnd(s)[|TrimEnd(s)| - 1])
  {
    hide White;
    if s != [] {
      WhiteIs(s[|s| - 1]);
      if IsWhitespace(s[|s| - 1]) {
        after := TrimEndSplits(s[..|s| - 1]);
        after := after + [s[|s| - 1]];
      } else {
        after := [];
      }
    } else {
      after := [];
    }
  }

  /** Trimming takes away the white space at both ends and nothing else. */
  lemma {:induction false} TrimSplits(s: string) returns (before: string, after: string)
    ensures s == before + Trim(s) + after
    ensures AllWhite(before) && AllWhite(after) && Bare(Trim(s))
  {
    hide White, TrimStart, TrimEnd;
    before := TrimStartSplits(s);
    after := TrimEndSplits(TrimStart(s));
    if Trim(s) != [] {
      assert TrimStart(s)[0] == Trim(s)[0];
    }
  }

  /** White space around a text is trimmed, and only that. */
  lemma {:induction false} TrimBetween(before: string, x: string, after: string)
    requires AllWhite(before) && AllWhite(after) && Bare(x)
    ensures Trim(before + x + after) == x
  {
    hide White, TrimStart, TrimEnd;
    assert before + x + after == before + (x + after);
    if x == [] {
      StartGone(before, []);
      AllGone(before + (x + after));
    } else {
      StartGone(before, x + after);
      EndGone(x, after);
    }
  }

  lemma {:induction false} AllGone(s: string)
    requires AllWhite(s)
    ensures Trim(s) == []
  {
    StartGone(s, []);
    assert s + [] == s;
  }

  lemma {:induction false} StartGone(before: string, rest: string)
    requires AllWhite(before) && (rest == [] || !White(rest[0]))
    ensures TrimStart(before + rest) == rest
  {
    hide White;
    var s := before + rest;
    if before == [] {
      assert s == rest;
      if rest != [] {
        WhiteIs(rest[0]);
      }
    } else {
      WhiteIs(before[0]);
      assert s[1..] == before[1..] + rest;
      StartGone(before[1..], rest);
    }
  }

  lemma {:induction false} EndGone(rest: string, after: string)
    requires AllWhite(after) && rest != [] && !White(rest[|rest| - 1])
    ensures TrimEnd(rest + after) == rest
  {
    hide White;
    var s := rest + after;
    if after == [] {
      assert s == rest;
      WhiteIs(rest[|rest| - 1]);
    } else {
      var n := |after| - 1;
      WhiteIs(after[n]);
      assert s[..|s| - 1] == rest + after[..n];
      EndGone(rest, after[..n]);
    }
  }

  /** The characters that Python's `str.strip` removes: white space and four separators. */
  predicate PythonWhite(c: char) {
    White(c) || c in "\U{1C}\U{1D}\U{1E}\U{1F}"
  }

  lemma {:induction false} PythonWhiteIs(c: char)
    ensures IsPythonSpace(c) <==> PythonWhite(c)
  {
  }

  predicate AllPythonWhite(s: string) {
    forall i :: 0 <= i < |s| ==> PythonWhite(s[i])
  }

  lemma {:induction false} WhiteJoins(a: string, b: string)
    requires AllPythonWhite(a) && AllPythonWhite(b)
    ensures AllPythonWhite(a + b)
  {
  }

  /** So does stripping, for Python's notion of white space. */
  lemma {:induction false} StripSplits(s: string) returns (before: string, after: string)
    ensures s == before + Strip(s) + after
    ensures AllPythonWhite(before) && AllPythonWhite(after)
    ensures Strip(s) != [] ==> !PythonWhite(Strip(s)[0]) && !PythonWhite(Strip(s)[|Strip(s)| - 1])
    decreases |s|
  {
    hide PythonWhite, Strip;
    StripUnfolds(s);
    before, after := [], [];
    if s != [] {
      PythonWhiteIs(s[0]);
      PythonWhiteIs(s[|s| - 1]);
      hide AllPythonWhite;
      if IsPythonSpace(s[0]) {
        var b, a := StripSplits(s[1..]);
        OneWhite(s[0]);
        WhiteJoins([s[0]], b);
        before, after := [s[0]] + b, a;
        assert s == [s[0]] + s[1..];
      } else if IsPythonSpace(s[|s| - 1]) {
        var n := |s| - 1;
        var b, a := StripSplits(s[..n]);
        OneWhite(s[n]);
        WhiteJoins(a, [s[n]]);
        before, after := b, a + [s[n]];
        assert s == s[..n] + [s[n]];
      }
    }
  }

  lemma {:induction false} OneWhite(c: char)
    requires PythonWhite(c)
    ensures AllPythonWhite([c])
  {
  }

  lemma {:induction false} StripUnfolds(s: string)
    ensures Strip(s) == if s == [] then []
                        else if IsPythonSpace(s[0]) then Strip(s[1..])
                        else if IsPythonSpace(s[|s| - 1]) then Strip(s[..|s| - 1])
                        else s
  {
  }
}
