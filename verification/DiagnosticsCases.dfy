/** Numbers, severities and lines of the compiler's output, character by character. */
module DiagnosticsCases {
  import opened Options
  import opened Decimal
  import opened Strings
  import opened Spelling
  import opened Diagnostics

  // ----- Numbers -----

  /** Decimal digits, with or without a plus sign, of a number below 2^32. */
  predicate Denotes(s: string, n: nat) {
    var digits := Unsigned(s);
    digits != [] && OnlyDigits(digits) && n < 4_294_967_296 && HasValue(digits, n)
  }

  function Unsigned(s: string): string {
    if s != [] && s[0] == '+' then s[1..] else s
  }

  predicate OnlyDigits(s: string) {
    forall i :: 0 <= i < |s| ==> s[i] in "0123456789"
  }

  /** The value of digits, the last one counting ones. */
  predicate HasValue(digits: string, n: nat) {
    if digits == [] then n == 0
    else digits[|digits| - 1] == "0123456789"[n % 10] && HasValue(digits[..|digits| - 1], n / 10)
  }

  lemma {:induction false} ValueOfDigits(digits: string, n: nat)
    requires AllDigits(digits)
    ensures HasValue(digits, n) <==> Value(digits) == n
  {
    if digits != [] {
      var m := |digits| - 1;
      ValueOfDigits(digits[..m], n / 10);
      DigitIs(digits[m], n % 10);
      LastDigit(Value(digits[..m]), DigitValue(digits[m]), n);
    }
  }

  lemma {:induction false} LastDigit(q: nat, d: nat, n: nat)
    requires d < 10
    ensures q * 10 + d == n <==> q == n / 10 && d == n % 10
  {
  }

  lemma {:induction false} DigitIs(c: char, d: nat)
    requires IsDigit(c) && d < 10
    ensures c == "0123456789"[d] <==> DigitValue(c) == d
  {
  }

  lemma {:induction false} DigitsAre(s: string)
    ensures AllDigits(s) <==> OnlyDigits(s)
  {
    forall c: char ensures IsDigit(c) <==> c in "0123456789" {
      OneDigitIs(c);
    }
  }

  lemma {:induction false} OneDigitIs(c: char)
    ensures IsDigit(c) <==> c in "0123456789"
  {
    if IsDigit(c) {
      assert c == "0123456789"[c as int - 48];
    }
  }

  lemma {:induction false} NumberIs(s: string, n: U32)
    ensures ParseU32(s) == Some(n) <==> Denotes(s, n)
  {
    hide Value, HasValue, OnlyDigits, AllDigits;
    var digits := Unsigned(s);
    DigitsAre(digits);
    if AllDigits(digits) {
      ValueOfDigits(digits, n);
    }
  }

  /** A number with white space around it. */
  predicate IsNumber(part: string, n: nat) {
    Denotes(Trim(part), n)
  }

  lemma {:induction false} SpacedNumber(before: string, digits: string, after: string, n: U32)
    requires AllWhite(before) && AllWhite(after) && Denotes(digits, n)
    ensures ParseU32(Trim(before + digits + after)) == Some(n)
  {
    hide White, HasValue;
    DenotedIsBare(digits, n);
    TrimBetween(before, digits, after);
    NumberIs(digits, n);
  }

  lemma {:induction false} DenotedIsBare(s: string, n: nat)
    requires Denotes(s, n)
    ensures Bare(s)
  {
    hide HasValue, White;
    var digits := Unsigned(s);
    assert digits[0] in "0123456789" && digits[|digits| - 1] in "0123456789";
    assert s[|s| - 1] == digits[|digits| - 1];
    assert s[0] == '+' || s[0] == digits[0];
    NotWhite(s[0]);
    NotWhite(s[|s| - 1]);
  }

  lemma {:induction false} NotWhite(c: char)
    requires c == '+' || c == ':' || c in "0123456789" || c in "ewi"
    ensures !White(c)
  {
  }

  // ----- What stands between the parentheses -----

  predicate AllNumbers(parts: seq<string>) {
    parts != [] && forall i :: 0 <= i < |parts| ==> ',' !in parts[i] && ParseU32(Trim(parts[i])).Some?
  }

  /** Numbers with commas between them. */
  function Listed(parts: seq<string>): string
    requires parts != []
  {
    if |parts| == 1 then parts[0] else parts[0] + "," + Listed(parts[1..])
  }

  lemma {:induction false} SplitListed(parts: seq<string>)
    requires parts != [] && forall i :: 0 <= i < |parts| ==> ',' !in parts[i]
    ensures Split(Listed(parts)) == parts
  {
    if |parts| == 1 {
      SplitWhole(parts[0]);
    } else {
      SplitAt(parts[0], Listed(parts[1..]));
      SplitListed(parts[1..]);
      assert [parts[0]] + parts[1..] == parts;
    }
  }

  lemma {:induction false} SplitParts(s: string)
    ensures Split(s) != [] && Listed(Split(s)) == s
    ensures forall i :: 0 <= i < |Split(s)| ==> ',' !in Split(s)[i]
    decreases |s|
  {
    var i := Find(s, ',');
    if i < |s| {
      SplitParts(s[i + 1..]);
      assert Split(s)[1..] == Split(s[i + 1..]);
      assert s == s[..i] + "," + s[i + 1..];
    } else {
      assert s[..i] == s;
    }
  }

  /** Coordinates are numbers, one or more, with commas between them. */
  lemma {:induction false} PayloadIs(payload: string)
    ensures IsPayload(payload) <==> exists parts :: AllNumbers(parts) && Listed(parts) == payload
  {
    hide ParseU32, Trim, Split, Listed;
    SplitParts(payload);
    if IsPayload(payload) {
      assert AllNumbers(Split(payload));
    }
    if parts :| AllNumbers(parts) && Listed(parts) == payload {
      SplitListed(parts);
      NothingIsNoNumber(parts);
    }
  }

  lemma {:induction false} NothingIsNoNumber(parts: seq<string>)
    requires AllNumbers(parts)
    ensures Listed(parts) != []
  {
    hide ParseU32;
    EmptyIsNoNumber();
    assert |parts| == 1 ==> parts[0] != [];
  }

  lemma {:induction false} EmptyIsNoNumber()
    ensures ParseU32(Trim([])) == None
  {
  }

  // ----- What stands behind them -----

  /** A colon and one of the three words, with white space in front of either. */
  ghost predicate Announces(after: string) {
    exists w1, w2, word, rest :: after == w1 + ":" + w2 + word + rest && IsAnnouncement(w1, w2, word, rest)
  }

  predicate IsAnnouncement(w1: string, w2: string, word: string, rest: string) {
    AllWhite(w1) && AllWhite(w2) && word in ["error", "warning", "info"]
  }

  lemma {:induction false} StartsWithIs(s: string, p: string)
    ensures StartsWith(s, p) <==> |p| <= |s| && s == p + s[|p|..]
  {
  }

  lemma {:induction false} SeverityIs(after: string)
    ensures SeverityFollows(after) <==> Announces(after)
  {
    hide TrimStart, White, StartsWith;
    if SeverityFollows(after) {
      AnnouncesIf(after);
    }
    if w1, w2, word, rest :| after == w1 + ":" + w2 + word + rest && IsAnnouncement(w1, w2, word, rest) {
      FollowsIf(w1, w2, word, rest);
    }
  }

  lemma {:induction false} AnnouncesIf(after: string)
    requires SeverityFollows(after)
    ensures Announces(after)
  {
    hide TrimStart, White, StartsWith;
    var w1 := TrimStartSplits(after);
    var t := TrimStart(after);
    StartsWithIs(t, ":");
    var w2 := TrimStartSplits(t[1..]);
    var u := TrimStart(t[1..]);
    var word :| word in ["error", "warning", "info"] && StartsWith(u, word);
    StartsWithIs(u, word);
    var rest := u[|word|..];
    assert after == w1 + ":" + w2 + word + rest;
    assert IsAnnouncement(w1, w2, word, rest);
  }

  lemma {:induction false} FollowsIf(w1: string, w2: string, word: string, rest: string)
    requires IsAnnouncement(w1, w2, word, rest)
    ensures SeverityFollows(w1 + ":" + w2 + word + rest)
  {
    hide TrimStart, White, StartsWith;
    var u := word + rest;
    var t := ":" + (w2 + u);
    assert w1 + ":" + w2 + word + rest == w1 + t;
    NotWhite(':');
    StartGone(w1, t);
    assert t[1..] == w2 + u;
    FirstLetter(word);
    NotWhite(u[0]);
    StartGone(w2, u);
    StartsWithPart(":", w2 + u, t);
    StartsWithPart(word, rest, u);
  }

  lemma {:induction false} FirstLetter(word: string)
    requires word in ["error", "warning", "info"]
    ensures word != [] && word[0] in "ewi"
  {
    assert "error"[0] == "ewi"[0] && "warning"[0] == "ewi"[1] && "info"[0] == "ewi"[2];
  }

  // ----- Lines -----

  /** A line ends at a line feed, with or without a carriage return in front of it, and the rest
      behind the last line feed is a line of its own unless it is empty. */
  lemma {:induction false} LinesAre(line: string, rest: string)
    requires '\n' !in line
    ensures (line == [] || line[|line| - 1] != '\r') ==> Lines(line + "\n" + rest) == [line] + Lines(rest)
    ensures Lines(line + "\r\n" + rest) == [line] + Lines(rest)
    ensures Lines(line) == if line == [] then [] else [line]
  {
    LinesFirst(line, rest);
    LinesFirst(line + "\r", rest);
    assert line + "\r\n" + rest == (line + "\r") + "\n" + rest;
    assert (line + "\r")[..|line|] == line;
    NoLineFeed(line);
  }

  lemma {:induction false} NoLineFeed(line: string)
    requires '\n' !in line
    ensures Find(line, '\n') == |line|
  {
  }

  /** The diagnostics of the lines that can be read, in their order. */
  lemma {:induction false} ParsedJoins(a: seq<string>, line: string, b: seq<string>)
    ensures Parsed(a + [line] + b)
            == Parsed(a) + (if ParseLine(line).Some? then [ParseLine(line).value] else []) + Parsed(b)
  {
    hide ParseLine;
    var s := a + [line] + b;
    if b == [] {
      assert s == a + [line] && s[..|s| - 1] == a;
    } else {
      ParsedJoins(a, line, b[..|b| - 1]);
      assert s[..|s| - 1] == a + [line] + b[..|b| - 1];
    }
  }

  /** Text behind a severity is a message without a code if it holds no colon, and otherwise the
      first colon parts the two. */
  lemma {:induction false} TextIs(severity: Severity, code: string, message: string)
    requires ':' !in code && ':' !in message
    ensures ParseText(severity, message) == Some((severity, "", message))
    ensures forall rest :: ParseText(severity, code + ":" + rest) == Some((severity, Trim(code), Trim(rest)))
  {
    hide Trim;
    NoColon(message);
    forall rest ensures ParseText(severity, code + ":" + rest) == Some((severity, Trim(code), Trim(rest))) {
      var s := code + ":" + rest;
      FindFirst(code, ':', rest);
      assert s[..|code|] == code && s[|code| + 1..] == rest;
    }
  }

  lemma {:induction false} NoColon(s: string)
    requires ':' !in s
    ensures Find(s, ':') == |s|
  {
  }
}
