/** Frames with other headers around the length. */
module FramingHeaders {
  import opened Decimal
  import opened Options
  import opened Strings
  import opened Spelling
  import opened Framing

  /** A header line that says nothing about the length: it has no colon, or another name. */
  ghost predicate IsOther(line: string) {
    && IsAscii(line) && '\n' !in line
    && line != [] && !PythonWhite(line[0]) && !PythonWhite(line[|line| - 1])
    && forall i :: 0 <= i < |line| && line[i] == ':' && ':' !in line[..i] ==> !Names(line[..i])
  }

  /** The length's name, in any letter case and with white space around it. */
  ghost predicate Names(name: string) {
    exists before, after, word :: name == before + word + after && IsName(before, word, after)
  }

  predicate IsName(before: string, word: string, after: string) {
    AllPythonWhite(before) && AllPythonWhite(after) && SameButCase(word, "Content-Length")
  }

  ghost predicate AllOther(lines: seq<string>) {
    forall i :: 0 <= i < |lines| ==> IsOther(lines[i])
  }

  ghost function Lines(lines: seq<string>): seq<Byte>
    requires AllOther(lines)
  {
    if lines == [] then [] else Ascii(lines[0]) + Ascii("\r\n") + Lines(lines[1..])
  }

  /** A line that gives the length, however its name is written. */
  function LengthLine(word: string, n: nat): string {
    word + ": " + Digits(n)
  }

  // ----- One line -----

  lemma {:induction false} StripBare(x: string)
    requires x == [] || (!PythonWhite(x[0]) && !PythonWhite(x[|x| - 1]))
    ensures Strip(x) == x
  {
    if x != [] {
      PythonWhiteIs(x[0]);
      PythonWhiteIs(x[|x| - 1]);
    }
  }

  lemma {:induction false} StripLineEnd(x: string)
    requires x != [] && !PythonWhite(x[0]) && !PythonWhite(x[|x| - 1])
    ensures Strip(x + "\r\n") == x
  {
    hide Strip;
    var s, t := x + "\r\n", x + "\r";
    StripUnfolds(s);
    StripUnfolds(t);
    PythonWhiteIs(x[0]);
    assert s[|s| - 1] == '\n' && s[..|s| - 1] == t;
    assert t[|t| - 1] == '\r' && t[..|t| - 1] == x;
    assert IsPythonSpace('\n') && IsPythonSpace('\r');
    StripBare(x);
  }

  lemma {:induction false} LineBytes(x: string)
    requires IsAscii(x) && '\n' !in x
    ensures IsAscii(x + "\r\n") && Ascii(x + "\r\n") == Ascii(x) + Ascii("\r\n")
    ensures var b := Ascii(x + "\r\n");
            b != [] && b[|b| - 1] == NEWLINE && forall i :: 0 <= i < |b| - 1 ==> b[i] != NEWLINE
  {
    var s := x + "\r\n";
    assert IsAscii("\r\n");
    forall i | 0 <= i < |s| - 1 ensures s[i] != '\n' {
      assert s[i] == if i < |x| then x[i] else '\r';
    }
  }

  /** A line is read, added to what was read before, and reading goes on behind it. */
  lemma {:induction false} LineIsRead(decode: Decoder, x: string, rest: seq<Byte>, headers: map<string, string>)
    requires DecodesAscii(decode) && IsAscii(x) && '\n' !in x
    requires x != [] && !PythonWhite(x[0]) && !PythonWhite(x[|x| - 1])
    ensures ReadHeaders(decode, Ascii(x) + Ascii("\r\n") + rest, headers)
            == ReadHeaders(decode, rest, AddHeader(headers, x))
  {
    hide Strip, AddHeader, IsAscii;
    LineBytes(x);
    StripLineEnd(x);
    var line := Ascii(x + "\r\n");
    LineOf(line, rest);
    assert decode(line) == x + "\r\n";
    assert (line + rest)[..|line|] == line && (line + rest)[|line|..] == rest;
  }

  // ----- The length among other headers -----

  lemma {:induction false} OtherKeeps(headers: map<string, string>, x: string)
    requires IsOther(x)
    ensures var h := AddHeader(headers, x);
            && ("content-length" in h <==> "content-length" in headers)
            && ("content-length" in h ==> h["content-length"] == headers["content-length"])
  {
    hide Strip, Lower, PythonWhite, SameButCase;
    var colon := Find(x, ':');
    if colon < |x| {
      var name := x[..colon];
      var before, after := StripSplits(name);
      LowerDecides(Strip(name), "Content-Length");
      assert Lower("Content-Length") == "content-length" by {
        LengthName();
      }
      if Lower(Strip(name)) == "content-length" {
        assert IsName(before, Strip(name), after);
      }
    }
  }

  lemma {:induction false} LengthName()
    ensures Lower("Content-Length") == "content-length"
  {
  }

  lemma {:induction false} OthersAreRead(decode: Decoder, lines: seq<string>, rest: seq<Byte>,
                                         headers: map<string, string>)
    returns (more: map<string, string>)
    requires DecodesAscii(decode) && AllOther(lines)
    ensures ReadHeaders(decode, Lines(lines) + rest, headers) == ReadHeaders(decode, rest, more)
    ensures "content-length" in more <==> "content-length" in headers
    ensures "content-length" in more ==> more["content-length"] == headers["content-length"]
  {
    hide ReadHeaders, AddHeader, PythonWhite;
    if lines == [] {
      more := headers;
      assert Lines(lines) + rest == rest;
    } else {
      var tail := Lines(lines[1..]) + rest;
      assert IsOther(lines[0]);
      LineIsRead(decode, lines[0], tail, headers);
      OtherKeeps(headers, lines[0]);
      more := OthersAreRead(decode, lines[1..], rest, AddHeader(headers, lines[0]));
      assert Lines(lines) + rest == Ascii(lines[0]) + Ascii("\r\n") + tail;
    }
  }

  lemma {:induction false} LengthLineFits(word: string, n: nat)
    requires SameButCase(word, "Content-Length")
    ensures var x := LengthLine(word, n);
            && IsAscii(x) && '\n' !in x && x != [] && !PythonWhite(x[0]) && !PythonWhite(x[|x| - 1])
            && ':' !in word
  {
    hide Digits, PythonWhite;
    var x := LengthLine(word, n);
    DigitsAreSolid(n);
    PythonWhiteIs(x[0]);
    PythonWhiteIs(x[|x| - 1]);
    assert x[|x| - 1] == Digits(n)[|Digits(n)| - 1];
    forall i | 0 <= i < |word| ensures word[i] as int < 128 && word[i] != '\n' && word[i] != ':' {
      assert SameLetter(word[i], "Content-Length"[i]);
    }
    assert SameLetter(word[0], 'C');
    assert !IsPythonSpace(x[0]);
  }

  lemma {:induction false} LengthIsAdded(headers: map<string, string>, word: string, n: nat)
    requires SameButCase(word, "Content-Length")
    ensures AddHeader(headers, LengthLine(word, n)) == headers["content-length" := Digits(n)]
  {
    hide Digits, Strip, PythonWhite, Lower;
    var x := LengthLine(word, n);
    LengthLineFits(word, n);
    assert x == word + ":" + (" " + Digits(n));
    FindFirst(word, ':', " " + Digits(n));
    assert x[..|word|] == word && x[|word| + 1..] == " " + Digits(n);
    StripNumber(n);
    NameIsBare(word);
    LowerDecides(word, "Content-Length");
    LengthName();
  }

  lemma {:induction false} NameIsBare(word: string)
    requires SameButCase(word, "Content-Length")
    ensures Strip(word) == word
  {
    hide Strip;
    assert SameLetter(word[0], 'C') && SameLetter(word[|word| - 1], 'h');
    StripBare(word);
  }

  ghost function Framed(before: seq<string>, word: string, after: seq<string>, body: seq<Byte>): seq<Byte>
    requires AllOther(before) && AllOther(after) && IsAscii(LengthLine(word, |body|))
  {
    Lines(before) + (Ascii(LengthLine(word, |body|)) + Ascii("\r\n") + (Lines(after) + (Ascii("\r\n") + body)))
  }

  lemma {:induction false} LineEndIsAscii()
    ensures IsAscii("\r\n")
  {
  }

  /** A body is delivered whole, and nothing behind it is touched, whatever other headers stand
      before and behind its length and in whatever letter case the length's name is written. */
  lemma {:induction false} OtherHeadersDoNotMatter(decode: Decoder, before: seq<string>, word: string,
                                                   after: seq<string>, body: seq<Byte>, rest: seq<Byte>)
    requires DecodesAscii(decode) && AllOther(before) && AllOther(after) && SameButCase(word, "Content-Length")
    ensures IsAscii(LengthLine(word, |body|))
    ensures ReadFrame(decode, Framed(before, word, after, body) + rest)
            == (if body == [] then Skip else Deliver(body), rest)
  {
    hide Digits, ReadHeaders, ParseInt, AddHeader, LengthLine, PythonWhite, SameButCase, AllOther, IsAscii;
    LengthLineFits(word, |body|);
    LineEndIsAscii();
    var tail := body + rest;
    var behind := Lines(after) + (Ascii("\r\n") + tail);
    var length := Ascii(LengthLine(word, |body|)) + Ascii("\r\n");
    assert Framed(before, word, after, body) + rest == Lines(before) + (length + behind);
    var h1 := OthersAreRead(decode, before, length + behind, map[]);
    LineIsRead(decode, LengthLine(word, |body|), behind, h1);
    LengthIsAdded(h1, word, |body|);
    var h2 := OthersAreRead(decode, after, Ascii("\r\n") + tail, h1["content-length" := Digits(|body|)]);
    BlankIsRead(decode, tail, h2);
    LengthComesBack(|body|);
    assert body != [] ==> tail[..|body|] == body && tail[|body|..] == rest;
    assert body == [] ==> tail == rest;
  }

  /** Without a length there is no body: reading goes on behind the headers. */
  lemma {:induction false} NoLengthNoBody(decode: Decoder, lines: seq<string>, rest: seq<Byte>)
    requires DecodesAscii(decode) && AllOther(lines)
    ensures ReadFrame(decode, Lines(lines) + (Ascii("\r\n") + rest)) == (Skip, rest)
  {
    hide ReadHeaders, AllOther;
    var headers := OthersAreRead(decode, lines, Ascii("\r\n") + rest, map[]);
    BlankIsRead(decode, rest, headers);
  }

  // ----- Numbers -----

  /** Lengths may carry a sign and single underscores between digits, and no length that is
      negative or zero has a body. */
  lemma {:induction false} SignedLength(n: nat)
    ensures var length: int := n;
            ParseInt("+" + Digits(n)) == Some(length) && ParseInt("-" + Digits(n)) == Some(-length)
  {
    hide Digits, IsNumeral, Value, WithoutUnderscores;
    DigitsAreNumeral(n);
    PlainDigits(Digits(n));
    DigitsRoundTrip(n);
    assert ("+" + Digits(n))[1..] == Digits(n) && ("-" + Digits(n))[1..] == Digits(n);
  }

  lemma {:induction false} UnderscoreInLength(m: nat, n: nat)
    ensures ParseInt(Digits(m) + "_" + Digits(n)).Some?
    ensures ParseInt(Digits(m) + "_" + Digits(n)) == Some(Value(Digits(m) + Digits(n)))
    ensures ParseInt(Digits(m) + "__" + Digits(n)) == None && ParseInt(Digits(m) + "_") == None
  {
    hide Digits, Value, WithoutUnderscores, IsNumeral;
    DigitsAreSolid(m);
    DigitsAreSolid(n);
    OneUnderscore(Digits(m), Digits(n));
    NoSign(Digits(m) + "_" + Digits(n), Digits(m));
    NoSign(Digits(m) + "__" + Digits(n), Digits(m));
    NoSign(Digits(m) + "_", Digits(m));
  }

  lemma {:induction false} NoSign(s: string, start: string)
    requires start != [] && IsDigit(start[0]) && start <= s
    ensures s != [] && s[0] != '-' && s[0] != '+'
  {
  }

  lemma {:induction false} OneUnderscore(a: string, b: string)
    requires a != [] && b != [] && AllDigits(a) && AllDigits(b)
    ensures IsNumeral(a + "_" + b) && WithoutUnderscores(a + "_" + b) == a + b
    ensures !IsNumeral(a + "__" + b) && !IsNumeral(a + "_")
  {
    var s, t := a + "_" + b, a + "__" + b;
    assert s[|s| - 1] == b[|b| - 1];
    assert t[|a|] == '_' && t[|a| + 1] == '_';
    DroppedBetween(a, b);
  }

  lemma {:induction false} DroppedBetween(a: string, b: string)
    requires AllDigits(a) && AllDigits(b)
    ensures WithoutUnderscores(a + "_" + b) == a + b
  {
    var s := a + "_" + b;
    if a == [] {
      assert s[1..] == b;
      PlainDigits(b);
    } else {
      assert s[1..] == a[1..] + "_" + b;
      DroppedBetween(a[1..], b);
    }
  }
}
