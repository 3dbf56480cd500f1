/** The inline scripts of a control add-in's manifest: emitting a text as CDATA sections, and
    scanning them as section 2.7 of XML 1.0 prescribes.

    A section ends at the first three characters that close it, so a script that holds them
    is cut between the second bracket and the angle, and goes on in another section. What has
    to be shown is that no piece closes its section early, although pieces can end in brackets
    or begin with the angle left over from a cut, and that joining the pieces gives the script
    back, whatever runs of brackets it has. */
module Cdata {
  import opened Options

  const OPEN := "<![CDATA["
  const CLOSE := "]]>"

  predicate ClosesAt(s: string, i: int) {
    0 <= i && i + 3 <= |s| && s[i] == ']' && s[i + 1] == ']' && s[i + 2] == '>'
  }

  predicate NoClose(s: string) {
    forall i :: 0 <= i < |s| ==> !ClosesAt(s, i)
  }

  /** The first `]]>`, or none. */
  function FindClose(s: string, from: nat): (r: Option<nat>)
    requires from <= |s|
    ensures r.Some? ==> from <= r.value && ClosesAt(s, r.value) && forall i :: from <= i < r.value ==> !ClosesAt(s, i)
    ensures r.None? ==> forall i :: from <= i ==> !ClosesAt(s, i)
    decreases |s| - from
  {
    if ClosesAt(s, from) then Some(from)
    else if from == |s| then None
    else FindClose(s, from + 1)
  }

  // ----- Emitting -----

  /** `replace("]]>", "]]]]><![CDATA[>")`: every occurrence, from the left. */
  function Safe(c: string): string
    decreases |c|
  {
    var i := FindClose(c, 0);
    if i.None? then c
    else c[..i.value] + "]]" + CLOSE + OPEN + ">" + Safe(c[i.value + 3..])
  }

  /** The element for one script. */
  function Element(tag: string, c: string): string {
    "  <" + tag + ">" + OPEN + Safe(c) + CLOSE + "</" + tag + ">\n"
  }

  // ----- Scanning -----

  predicate OpensHere(s: string) {
    |s| >= |OPEN| && s[..|OPEN|] == OPEN
  }

  /** The contents of the sections at the start of `s`, joined, and what follows them; none if
      a section is not closed. */
  function Scan(s: string): (r: Option<(string, string)>)
    decreases |s|
  {
    if !OpensHere(s) then Some(("", s)) else
    var body := s[|OPEN|..];
    var end := FindClose(body, 0);
    if end.None? then None else
    match Scan(body[end.value + 3..])
    case None => None
    case Some((text, rest)) => Some((body[..end.value] + text, rest))
  }

  /** A text without `]]>`, whatever it ends with, is closed by the `]]>` behind it. */
  lemma {:induction false} ClosedBehind(w: string, rest: string)
    requires NoClose(w)
    ensures FindClose(w + CLOSE + rest, 0) == Some(|w|)
  {
    var s := w + CLOSE + rest;
    assert ClosesAt(s, |w|);
    forall i | 0 <= i < |w| ensures !ClosesAt(s, i) {
      assert !ClosesAt(w, i);
    }
  }

  lemma {:induction false} OneSection(w: string, rest: string)
    requires NoClose(w)
    ensures Scan(OPEN + w + CLOSE + rest) == match Scan(rest)
                                             case None => None
                                             case Some((text, left)) => Some((w + text, left))
  {
    var s := OPEN + w + CLOSE + rest;
    var body := w + CLOSE + rest;
    assert s[|OPEN|..] == body && s[..|OPEN|] == OPEN;
    ClosedBehind(w, rest);
    assert body[..|w|] == w && body[|w| + 3..] == rest;
  }

  /** The pieces a script is cut into hold no `]]>`, even behind a `>` left over from a cut. */
  lemma {:induction false} Piece(p: string, c: string, i: nat)
    requires p == "" || p == ">"
    requires ClosesAt(c, i) && forall k :: 0 <= k < i ==> !ClosesAt(c, k)
    ensures NoClose(p + c[..i] + "]]")
  {
    var w := p + c[..i] + "]]";
    assert forall j :: |p| <= j < |w| ==> w[j] == c[j - |p|];
    forall k | 0 <= k < |w| ensures !ClosesAt(w, k) {
      assert k >= |p| && k + 3 <= |w| ==> !ClosesAt(c, k - |p|);
    }
  }

  lemma {:induction false} LastPiece(p: string, c: string)
    requires (p == "" || p == ">") && NoClose(c)
    ensures NoClose(p + c)
  {
    forall k | 0 <= k < |p + c| ensures !ClosesAt(p + c, k) {
      assert |p| <= k < |p + c| ==> !ClosesAt(c, k - |p|);
    }
  }

  lemma {:induction false} ScanSafe(p: string, c: string, rest: string)
    requires (p == "" || p == ">") && !OpensHere(rest)
    ensures Scan(OPEN + p + Safe(c) + CLOSE + rest) == Some((p + c, rest))
    decreases |c|
  {
    hide Scan, NoClose;
    var i := FindClose(c, 0);
    if i.None? {
      ScanNone(rest);
      NoneIsNoClose(c);
      LastPiece(p, c);
      OneSection(p + c, rest);
      assert OPEN + p + c + CLOSE + rest == OPEN + (p + c) + CLOSE + rest;
      assert p + c + "" == p + c;
    } else {
      ScanSafe(">", c[i.value + 3..], rest);
      ScanCut(p, c, i.value, rest);
    }
  }

  lemma {:induction false} NoneIsNoClose(c: string)
    requires FindClose(c, 0).None?
    ensures NoClose(c)
  {
  }

  lemma {:induction false} Regroup(o: string, p: string, a: string, e: string, c: string, g: string, t: string,
                                   rest: string)
    ensures o + p + (a + e + c + o + g + t) + c + rest == o + (p + a + e) + c + (o + g + t + c + rest)
  {
  }

  lemma {:induction false} ScanCut(p: string, c: string, i: nat, rest: string)
    requires (p == "" || p == ">") && FindClose(c, 0) == Some(i)
    requires Scan(OPEN + ">" + Safe(c[i + 3..]) + CLOSE + rest) == Some((">" + c[i + 3..], rest))
    ensures Scan(OPEN + p + Safe(c) + CLOSE + rest) == Some((p + c, rest))
  {
    hide Scan, NoClose, Safe;
    var w, more := p + c[..i] + "]]", c[i + 3..];
    Piece(p, c, i);
    OneSection(w, OPEN + ">" + Safe(more) + CLOSE + rest);
    SafeCut(c, i);
    Regroup(OPEN, p, c[..i], "]]", CLOSE, ">", Safe(more), rest);
    JoinCut(p, c, i);
  }

  lemma {:induction false} JoinCut(p: string, c: string, i: nat)
    requires ClosesAt(c, i)
    ensures p + c[..i] + "]]" + (">" + c[i + 3..]) == p + c
  {
    assert c == c[..i] + "]]" + ">" + c[i + 3..];
  }

  lemma {:induction false} SafeCut(c: string, i: nat)
    requires FindClose(c, 0) == Some(i)
    ensures Safe(c) == c[..i] + "]]" + CLOSE + OPEN + ">" + Safe(c[i + 3..])
  {
  }

  lemma {:induction false} ScanNone(rest: string)
    requires !OpensHere(rest)
    ensures Scan(rest) == Some(("", rest))
  {
  }

  /** Scanning the emitted element gives back exactly the script, and stops at the end tag. */
  lemma {:induction false} RoundTrip(tag: string, c: string)
    ensures |Element(tag, c)| >= 3 + |tag| + 1
    ensures Scan(Element(tag, c)[3 + |tag| + 1..]) == Some((c, "</" + tag + ">\n"))
  {
    hide Scan, Safe;
    var rest := "</" + tag + ">\n";
    assert rest[1] == '/' && OPEN[1] == '!';
    assert !OpensHere(rest) by {
      assert |rest| >= |OPEN| ==> rest[..|OPEN|][1] == '/';
    }
    ScanSafe("", c, rest);
    assert Element(tag, c)[3 + |tag| + 1..] == OPEN + "" + Safe(c) + CLOSE + rest;
    assert "" + c == c;
  }

  /** Without the replacement a script comes back exactly if it holds no `]]>`. */
  lemma {:induction false} PlainSection(c: string, rest: string)
    requires !OpensHere(rest)
    ensures Scan(OPEN + c + CLOSE + rest) == Some((c, rest)) <==> NoClose(c)
  {
    var s := OPEN + c + CLOSE + rest;
    if NoClose(c) {
      OneSection(c, rest);
      assert c + "" == c;
    } else {
      var body := c + CLOSE + rest;
      var i := FindClose(c, 0).value;
      CutShort(c, i, rest);
    }
  }

  /** A `]]>` inside ends the section early, and the rest of the script is no section. */
  lemma {:induction false} CutShort(c: string, i: nat, rest: string)
    requires ClosesAt(c, i) && forall k :: 0 <= k < i ==> !ClosesAt(c, k)
    ensures Scan(OPEN + c + CLOSE + rest) != Some((c, rest))
  {
    var w, tail := c[..i], c[i + 3..] + CLOSE + rest;
    forall k | 0 <= k < |w| ensures !ClosesAt(w, k) {
      assert ClosesAt(w, k) ==> ClosesAt(c, k);
    }
    assert OPEN + c + CLOSE + rest == OPEN + w + CLOSE + tail by {
      assert c == w + CLOSE + c[i + 3..];
    }
    OneSection(w, tail);
    ScanLength(tail);
  }

  /** What is scanned is never longer than the sections it was scanned from. */
  lemma {:induction false} ScanLength(s: string)
    ensures Scan(s).Some? ==> |Scan(s).value.0| + |Scan(s).value.1| <= |s|
    ensures Scan(s).Some? && Scan(s).value.1 != s ==> |Scan(s).value.0| + |Scan(s).value.1| + 12 <= |s|
    decreases |s|
  {
    if OpensHere(s) {
      var body := s[|OPEN|..];
      var end := FindClose(body, 0);
      if end.Some? {
        ScanLength(body[end.value + 3..]);
      }
    }
  }
}
