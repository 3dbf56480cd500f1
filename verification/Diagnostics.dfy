/** Compiler diagnostics: printing them one per line, and finding the parts of a line again.

    A file name may hold anything, parentheses and coordinates included, so a line is read
    from its end: the rightmost span in parentheses that holds numbers and is followed by a
    severity is taken for the coordinates. Printed diagnostics are proved to come back exactly
    when their own text holds no such span. */
module Diagnostics {
  import opened Options
  import opened Decimal
  import opened Strings

  datatype Severity = Error | Warning | Info

  const LIMIT: nat := 0x1_0000_0000

  type U32 = n: nat | n < LIMIT

  datatype Diagnostic = Diagnostic(file: string, line: U32, column: U32, severity: Severity, code: string,
                                   message: string)

  function Word(severity: Severity): string {
    match severity
    case Error => "error"
    case Warning => "warning"
    case Info => "info"
  }

  // ----- Strings -----

  predicate StartsWith(s: string, p: string) {
    |p| <= |s| && s[..|p|] == p
  }

  function Split(s: string): seq<string>
    decreases |s|
  {
    var i := Find(s, ',');
    if i == |s| then [s] else [s[..i]] + Split(s[i + 1..])
  }

  /** `parse::<u32>`: an optional `+`, digits, and no overflow. */
  function ParseU32(s: string): Option<U32> {
    var t := if s != [] && s[0] == '+' then s[1..] else s;
    if t != [] && AllDigits(t) && Value(t) < LIMIT then Some(Value(t)) else None
  }

  // ----- The coordinates -----

  predicate SeverityFollows(after: string) {
    var t := TrimStart(after);
    StartsWith(t, ":") &&
    var u := TrimStart(t[1..]);
    StartsWith(u, "error") || StartsWith(u, "warning") || StartsWith(u, "info")
  }

  predicate IsPayload(payload: string) {
    payload != [] && forall i :: 0 <= i < |Split(payload)| ==> ParseU32(Trim(Split(payload)[i])).Some?
  }

  /** The last `(` of a string. */
  function LastOpen(s: string): (r: Option<nat>)
    ensures r.Some? ==> r.value < |s| && s[r.value] == '(' && '(' !in s[r.value + 1..]
    ensures r.None? ==> '(' !in s
  {
    if s == [] then None
    else if s[|s| - 1] == '(' then Some(|s| - 1)
    else
      var r := LastOpen(s[..|s| - 1]);
      assert s == s[..|s| - 1] + [s[|s| - 1]];
      assert r.Some? ==> s[r.value + 1..] == s[..|s| - 1][r.value + 1..] + [s[|s| - 1]];
      r
  }

  /** The `(` that belongs to the `)` at `close`, if the two wrap coordinates. */
  function SpanAt(line: string, close: nat): (open: Option<nat>)
    requires close < |line|
    ensures open.Some? ==> open.value < close && line[open.value] == '(' && line[close] == ')'
  {
    if line[close] != ')' || !SeverityFollows(line[close + 1..]) then None
    else
      var open := LastOpen(line[..close]);
      if open.Some? && IsPayload(line[open.value + 1..close]) then open else None
  }

  /** The last span that closes before `end`. */
  function FindSpan(line: string, end: nat): Option<(nat, nat)>
    requires end <= |line|
  {
    if end == 0 then None
    else if SpanAt(line, end - 1).Some? then Some((SpanAt(line, end - 1).value, end - 1))
    else FindSpan(line, end - 1)
  }

  /** The span found is the rightmost one, and one is found if there is any. */
  lemma {:induction false} FindSpanIsRightmost(line: string, end: nat)
    requires end <= |line|
    ensures match FindSpan(line, end)
            case Some((open, close)) =>
              && close < end && SpanAt(line, close) == Some(open)
              && forall c :: close < c < end ==> SpanAt(line, c) == None
            case None => forall c :: 0 <= c < end ==> SpanAt(line, c) == None
  {
    hide SpanAt;
    if end > 0 && SpanAt(line, end - 1).None? {
      FindSpanIsRightmost(line, end - 1);
    }
  }

  /** `rfind(')')` below a bound. */
  method LastClose(line: string, end: nat) returns (close: Option<nat>)
    requires end <= |line|
    ensures match close
            case Some(c) => c < end && line[c] == ')' && forall i :: c < i < end ==> line[i] != ')'
            case None => forall i :: 0 <= i < end ==> line[i] != ')'
  {
    var i := end;
    while i > 0
      invariant 0 <= i <= end
      invariant forall j :: i <= j < end ==> line[j] != ')'
    {
      i := i - 1;
      if line[i] == ')' {
        return Some(i);
      }
    }
    return None;
  }

  /** `find_diagnostic_coord_span`: the rightmost span, searched from the back. */
  method FindDiagnosticCoordSpan(line: string) returns (span: Option<(nat, nat)>)
    ensures span == FindSpan(line, |line|)
    ensures span.Some? ==>
              && span.value.1 < |line| && SpanAt(line, span.value.1) == Some(span.value.0)
              && forall c :: span.value.1 < c < |line| ==> SpanAt(line, c) == None
    ensures span.None? ==> forall c :: 0 <= c < |line| ==> SpanAt(line, c) == None
  {
    hide SeverityFollows, IsPayload, LastOpen;
    FindSpanIsRightmost(line, |line|);
    var searchFrom := |line|;
    while true
      invariant 0 <= searchFrom <= |line|
      invariant FindSpan(line, |line|) == FindSpan(line, searchFrom)
      decreases searchFrom
    {
      var found := LastClose(line, searchFrom);
      if found.None? {
        NoClose(line, 0, searchFrom);
        return None;
      }
      var close := found.value;
      NoClose(line, close + 1, searchFrom);
      if SeverityFollows(line[close + 1..]) {
        var open := LastOpen(line[..close]);
        if open.Some? && IsPayload(line[open.value + 1..close]) {
          return Some((open.value, close));
        }
      }
      searchFrom := close;
    }
  }

  lemma {:induction false} NoClose(line: string, from: nat, end: nat)
    requires from <= end <= |line|
    requires forall i :: from <= i < end ==> line[i] != ')'
    ensures FindSpan(line, end) == FindSpan(line, from)
  {
    if from < end {
      NoClose(line, from, end - 1);
    }
  }

  // ----- The line -----

  /** What follows the coordinates: severity, code and message. */
  function ParseFields(after: string): Option<(Severity, string, string)> {
    var a := Trim(after);
    if !StartsWith(a, ":") then None else
    var rest := Trim(a[1..]);
    if StartsWith(rest, "error") then ParseText(Error, Trim(rest[5..]))
    else if StartsWith(rest, "warning") then ParseText(Warning, Trim(rest[7..]))
    else if StartsWith(rest, "info") then ParseText(Info, Trim(rest[4..]))
    else None
  }

  function ParseText(severity: Severity, rest: string): Option<(Severity, string, string)> {
    var colon := Find(rest, ':');
    if colon < |rest| then Some((severity, Trim(rest[..colon]), Trim(rest[colon + 1..])))
    else Some((severity, "", rest))
  }

  /** `parse_diagnostic_line`. */
  function ParseLine(line: string): Option<Diagnostic> {
    var span := FindSpan(line, |line|);
    if span.None? then None else
    FindSpanIsRightmost(line, |line|);
    var (open, close) := span.value;
    var parts := Split(line[open + 1..close]);
    var row := ParseU32(Trim(parts[0]));
    if row.None? || |parts| < 2 then None else
    var column := ParseU32(Trim(parts[1]));
    var fields := ParseFields(line[close + 1..]);
    if column.None? || fields.None? then None else
    var (severity, code, message) := fields.value;
    Some(Diagnostic(line[..open], row.value, column.value, severity, code, message))
  }

  // ----- Trimming -----

  lemma {:induction false} TrimStartKeeps(x: string, y: string)
    requires y != [] && !IsWhitespace(y[0])
    ensures TrimStart(x + y) == TrimStart(x) + y
  {
    if x == [] {
      assert x + y == y;
    } else {
      assert (x + y)[1..] == x[1..] + y;
      TrimStartKeeps(x[1..], y);
    }
  }

  lemma {:induction false} TrimEndKeeps(x: string, y: string)
    requires x != [] && !IsWhitespace(x[|x| - 1])
    ensures TrimEnd(x + y) == x + TrimEnd(y)
  {
    if y == [] {
      assert x + y == x;
    } else {
      assert (x + y)[..|x + y| - 1] == x + y[..|y| - 1];
      TrimEndKeeps(x, y[..|y| - 1]);
    }
  }

  /** What the trimmed string looks like: it neither starts nor ends with white space. */
  lemma {:induction false} TrimStartIs(s: string)
    ensures |TrimStart(s)| <= |s| && TrimStart(s) == s[|s| - |TrimStart(s)|..]
    ensures TrimStart(s) != [] ==> !IsWhitespace(TrimStart(s)[0])
    ensures TrimStart(TrimStart(s)) == TrimStart(s)
  {
    if s != [] && IsWhitespace(s[0]) {
      TrimStartIs(s[1..]);
    }
  }

  lemma {:induction false} TrimEndIs(s: string)
    ensures |TrimEnd(s)| <= |s| && TrimEnd(s) == s[..|TrimEnd(s)|]
    ensures TrimEnd(s) != [] ==> !IsWhitespace(TrimEnd(s)[|TrimEnd(s)| - 1])
    ensures TrimEnd(TrimEnd(s)) == TrimEnd(s)
  {
    if s != [] && IsWhitespace(s[|s| - 1]) {
      TrimEndIs(s[..|s| - 1]);
    }
  }

  /** Trimming the two sides commutes. */
  lemma {:induction false} TrimSides(s: string)
    ensures TrimStart(TrimEnd(s)) == TrimEnd(TrimStart(s))
    decreases |s|
  {
    if s != [] && IsWhitespace(s[|s| - 1]) {
      var n := |s| - 1;
      TrimSides(s[..n]);
      if TrimStart(s[..n]) == [] {
        AllSpaceStart(s[..n], [s[n]]);
      } else {
        TrimStartIs(s[..n]);
        StartOfMore(s[..n], [s[n]]);
      }
      assert s == s[..n] + [s[n]];
    } else if s != [] {
      var n := |s| - 1;
      assert s == s[..n] + [s[n]];
      TrimStartKeeps(s[..n], [s[n]]);
    }
  }

  lemma {:induction false} AllSpaceStart(x: string, y: string)
    requires TrimStart(x) == []
    ensures TrimStart(x + y) == TrimStart(y)
  {
    if x == [] {
      assert x + y == y;
    } else {
      assert (x + y)[1..] == x[1..] + y;
      AllSpaceStart(x[1..], y);
    }
  }

  lemma {:induction false} StartOfMore(x: string, y: string)
    requires TrimStart(x) != []
    ensures TrimStart(x + y) == TrimStart(x) + y
  {
    if IsWhitespace(x[0]) {
      assert (x + y)[1..] == x[1..] + y;
      StartOfMore(x[1..], y);
    }
  }

  lemma {:induction false} TrimOnce(s: string)
    ensures |Trim(s)| <= |s|
    ensures Trim(TrimStart(s)) == Trim(s) && Trim(TrimEnd(s)) == Trim(s) && Trim(Trim(s)) == Trim(s)
  {
    TrimStartIs(s);
    TrimSides(s);
    TrimEndIs(s);
    TrimEndIs(TrimStart(s));
    TrimSides(TrimStart(s));
  }

  lemma {:induction false} TrimSpace(s: string)
    ensures TrimStart(" " + s) == TrimStart(s) && Trim(" " + s) == Trim(s)
  {
    assert (" " + s)[1..] == s;
  }

  /** Text around a character that is not white space is trimmed on its outer side. */
  lemma {:induction false} TrimAround(a: string, c: char, b: string)
    requires !IsWhitespace(c)
    ensures Trim(a + [c] + b) == TrimStart(a) + [c] + TrimEnd(b)
  {
    assert a + [c] + b == a + ([c] + b);
    TrimStartKeeps(a, [c] + b);
    assert TrimStart(a) + ([c] + b) == (TrimStart(a) + [c]) + b;
    TrimEndKeeps(TrimStart(a) + [c], b);
  }

  // ----- Printing -----

  function Text(d: Diagnostic): string {
    d.code + ": " + d.message
  }

  function Tail(d: Diagnostic): string {
    ": " + Word(d.severity) + " " + Text(d)
  }

  /** The line the compiler writes for a diagnostic. */
  function Printed(d: Diagnostic): string {
    d.file + "(" + Digits(d.line) + "," + Digits(d.column) + ")" + Tail(d)
  }

  /** The text behind the severity is split at its first colon. */
  lemma {:induction false} TextSplits(severity: Severity, a: string, b: string)
    requires ':' !in a
    ensures ParseText(severity, TrimStart(a) + ":" + TrimEnd(b)) == Some((severity, Trim(a), Trim(b)))
  {
    hide Trim, TrimStart, TrimEnd;
    var rest := TrimStart(a) + ":" + TrimEnd(b);
    TrimStartIs(a);
    FindFirst(TrimStart(a), ':', TrimEnd(b));
    assert rest[..|TrimStart(a)|] == TrimStart(a);
    assert rest[|TrimStart(a)| + 1..] == TrimEnd(b);
    TrimOnce(a);
    TrimOnce(b);
  }

  lemma {:induction false} SeverityIsOne(severity: Severity, rest: string)
    ensures var s := Word(severity) + rest;
            && StartsWith(s, "error") == severity.Error?
            && StartsWith(s, "warning") == severity.Warning?
            && StartsWith(s, "info") == severity.Info?
  {
    var s := Word(severity) + rest;
    assert s[..|Word(severity)|] == Word(severity);
    assert s[0] == Word(severity)[0];
    assert forall p: string :: StartsWith(s, p) && p != [] ==> s[..|p|][0] == s[0];
    assert "error"[0] == 'e' && "warning"[0] == 'w' && "info"[0] == 'i';
  }

  lemma {:induction false} TailTrims(severity: Severity, a: string, b: string)
    ensures Trim(": " + Word(severity) + " " + a + ":" + b) == ": " + Word(severity) + " " + a + ":" + TrimEnd(b)
    ensures Trim(" " + Word(severity) + " " + a + ":" + TrimEnd(b)) == Word(severity) + " " + a + ":" + TrimEnd(b)
    ensures Trim(" " + a + ":" + TrimEnd(b)) == TrimStart(a) + ":" + TrimEnd(b)
  {
    hide Trim, TrimStart, TrimEnd;
    var w := Word(severity);
    TrimEndIs(b);
    TrimAround(": " + w + " " + a, ':', b);
    TrimColon(" " + w + " " + a);
    TrimAround(" " + w + " " + a, ':', TrimEnd(b));
    TrimWord(severity, " " + a);
    TrimAround(" " + a, ':', TrimEnd(b));
    TrimSpace(a);
    assert " " + w + " " + a == " " + (w + (" " + a));
    assert ": " + w + " " + a == ":" + (" " + w + " " + a);
    assert w + (" " + a) == w + " " + a;
  }

  lemma {:induction false} TrimColon(x: string)
    ensures TrimStart(":" + x) == ":" + x
  {
  }

  lemma {:induction false} TrimWord(severity: Severity, x: string)
    ensures TrimStart(" " + (Word(severity) + x)) == Word(severity) + x
  {
    TrimSpace(Word(severity) + x);
    assert (Word(severity) + x)[0] == Word(severity)[0];
  }

  /** The fields behind the coordinates come back trimmed, and split at the first colon. */
  lemma {:induction false} FieldsComeBack(severity: Severity, a: string, b: string)
    requires ':' !in a
    ensures ParseFields(": " + Word(severity) + " " + a + ":" + b) == Some((severity, Trim(a), Trim(b)))
  {
    hide Trim, TrimStart, TrimEnd, ParseText, StartsWith;
    var w := Word(severity);
    TailTrims(severity, a, b);
    var x := ": " + w + " " + a + ":" + TrimEnd(b);
    StartsWithPart(":", " " + w + " " + a + ":" + TrimEnd(b), x);
    var y := w + " " + a + ":" + TrimEnd(b);
    SeverityIsOne(severity, " " + a + ":" + TrimEnd(b));
    StartsWithPart(w, " " + a + ":" + TrimEnd(b), y);
    assert y == w + (" " + a + ":" + TrimEnd(b));
    TextSplits(severity, a, b);
  }

  lemma {:induction false} StartsWithPart(p: string, rest: string, s: string)
    requires s == p + rest
    ensures StartsWith(s, p) && s[|p|..] == rest
  {
  }

  // ----- Where the coordinates are found -----

  lemma {:induction false} NumberComesBack(n: U32)
    ensures ParseU32(Trim(Digits(n))) == Some(n)
    ensures ',' !in Digits(n) && '(' !in Digits(n) && ')' !in Digits(n)
  {
    var s := Digits(n);
    assert IsDigit(s[0]) && IsDigit(s[|s| - 1]);
    DigitsRoundTrip(n);
  }

  lemma {:induction false} SplitAt(a: string, b: string)
    requires ',' !in a
    ensures Split(a + "," + b) == [a] + Split(b)
  {
    var s := a + "," + b;
    FindFirst(a, ',', b);
    assert s[..|a|] == a && s[|a| + 1..] == b;
  }

  lemma {:induction false} SplitWhole(a: string)
    requires ',' !in a
    ensures Split(a) == [a]
  {
  }

  lemma {:induction false} PayloadComesBack(l: U32, c: U32)
    ensures var p := Digits(l) + "," + Digits(c);
            IsPayload(p) && Split(p) == [Digits(l), Digits(c)]
  {
    hide Digits, Trim, ParseU32, Split;
    NumberComesBack(l);
    NumberComesBack(c);
    SplitAt(Digits(l), Digits(c));
    SplitWhole(Digits(c));
    assert [Digits(l)] + [Digits(c)] == [Digits(l), Digits(c)];
  }

  lemma {:induction false} SeverityInTail(d: Diagnostic)
    ensures SeverityFollows(Tail(d))
  {
    hide TrimStart, StartsWith;
    var w := Word(d.severity);
    var rest := w + (" " + Text(d));
    TrimColon(" " + rest);
    TrimWord(d.severity, " " + Text(d));
    assert Tail(d) == ":" + (" " + rest);
    StartsWithPart(":", " " + rest, Tail(d));
    SeverityIsOne(d.severity, " " + Text(d));
  }

  /** The last `(` of a string that ends with one followed by none. */
  lemma {:induction false} LastOpenAt(x: string, y: string)
    requires '(' !in y
    ensures LastOpen(x + "(" + y) == Some(|x|)
  {
    var s := x + "(" + y;
    if y == [] {
      assert s[|s| - 1] == '(';
    } else {
      LastOpenAt(x, y[..|y| - 1]);
      assert s[..|s| - 1] == x + "(" + y[..|y| - 1];
    }
  }

  /** The last `(` of a longer string: in the added part, or else where it was. */
  lemma {:induction false} LastOpenBehind(x: string, y: string)
    ensures LastOpen(x + y) == if LastOpen(y).Some? then Some(|x| + LastOpen(y).value) else LastOpen(x)
  {
    if y == [] {
      assert x + y == x;
    } else {
      LastOpenBehind(x, y[..|y| - 1]);
      assert (x + y)[..|x + y| - 1] == x + y[..|y| - 1];
    }
  }

  /** The place of the `)` behind the coordinates. */
  function CloseOf(d: Diagnostic): nat {
    |d.file| + 2 + |Digits(d.line)| + |Digits(d.column)|
  }

  lemma {:induction false} PrintedParts(d: Diagnostic)
    ensures var line, payload := Printed(d), Digits(d.line) + "," + Digits(d.column);
            && CloseOf(d) < |line| && line[CloseOf(d)] == ')'
            && line[..CloseOf(d)] == d.file + "(" + payload
            && line[..|d.file|] == d.file
            && line[|d.file| + 1..CloseOf(d)] == payload
            && line[CloseOf(d) + 1..] == Tail(d)
  {
    hide Digits, Tail;
  }

  lemma {:induction false} CoordinatesQualify(d: Diagnostic)
    ensures CloseOf(d) < |Printed(d)| && SpanAt(Printed(d), CloseOf(d)) == Some(|d.file|)
  {
    hide Printed, IsPayload, SeverityFollows, CloseOf, Tail, Digits, LastOpen, Trim, ParseU32, Split, Find, Text, Word;
    PrintedParts(d);
    SeverityInTail(d);
    PayloadComesBack(d.line, d.column);
    NumberComesBack(d.line);
    NumberComesBack(d.column);
    LastOpenAt(d.file, Digits(d.line) + "," + Digits(d.column));
  }

  /** Every `(` is closed somewhere behind it. */
  predicate Closed(x: string) {
    forall i :: 0 <= i < |x| && x[i] == '(' ==> ')' in x[i..]
  }

  /** From a `(` in the first part to a `)` in the second there are no coordinates. */
  lemma {:induction false} NoSpanAcross(x: string, y: string, o: nat, c: nat)
    requires o < |x| && c < |y| && x[o] == '(' && Closed(x)
    ensures !IsPayload((x + y)[o + 1..|x| + c])
  {
    hide IsPayload;
    var payload := (x + y)[o + 1..|x| + c];
    var i :| 0 <= i < |x[o..]| && x[o..][i] == ')';
    assert payload[i - 1] == ')';
    CloseSpoils(payload);
  }

  /** In a longer line, a span whose `(` lies in the added part stays a span. */
  lemma {:induction false} SpanBehind(x: string, y: string, c: nat)
    requires c < |y| && Closed(x)
    ensures SpanAt(x + y, |x| + c) == if SpanAt(y, c).Some? then Some(|x| + SpanAt(y, c).value) else None
  {
    hide SeverityFollows, LastOpen, IsPayload, Closed;
    var s := x + y;
    assert s[|x| + c + 1..] == y[c + 1..] && s[|x| + c] == y[c];
    assert s[..|x| + c] == x + y[..c];
    LastOpenBehind(x, y[..c]);
    var open := LastOpen(y[..c]);
    if open.Some? {
      assert s[|x| + open.value + 1..|x| + c] == y[open.value + 1..c];
    } else if LastOpen(x).Some? {
      NoSpanAcross(x, y, LastOpen(x).value, c);
    }
  }

  lemma {:induction false} CloseIsNoNumber(s: string)
    requires ')' in s
    ensures ParseU32(s).None?
  {
    var j :| 0 <= j < |s| && s[j] == ')';
    assert s[0] == '+' ==> s[1..][j - 1] == ')';
  }

  /** A payload holds no `)`. */
  lemma {:induction false} CloseSpoils(payload: string)
    requires ')' in payload
    ensures !IsPayload(payload)
  {
    var k := PartWithClose(payload);
    CloseStays(Split(payload)[k]);
    CloseIsNoNumber(Trim(Split(payload)[k]));
  }

  lemma {:induction false} PartWithClose(s: string) returns (k: nat)
    requires ')' in s
    ensures k < |Split(s)| && ')' in Split(s)[k]
    decreases |s|
  {
    var i := Find(s, ',');
    if ')' in s[..i] {
      k := 0;
    } else {
      assert s == s[..i] + [s[i]] + s[i + 1..];
      k := PartWithClose(s[i + 1..]);
      k := k + 1;
    }
  }

  lemma {:induction false} CloseStays(s: string)
    requires ')' in s
    ensures ')' in Trim(s)
  {
    CloseStaysStart(s);
    CloseStaysEnd(TrimStart(s));
  }

  lemma {:induction false} CloseStaysStart(s: string)
    requires ')' in s
    ensures ')' in TrimStart(s)
  {
    if IsWhitespace(s[0]) {
      assert s == [s[0]] + s[1..];
      CloseStaysStart(s[1..]);
    }
  }

  lemma {:induction false} CloseStaysEnd(s: string)
    requires ')' in s
    ensures ')' in TrimEnd(s)
  {
    if IsWhitespace(s[|s| - 1]) {
      assert s == s[..|s| - 1] + [s[|s| - 1]];
      CloseStaysEnd(s[..|s| - 1]);
    }
  }

  lemma {:induction false} FindSpanBehind(x: string, y: string, n: nat)
    requires n <= |y| && Closed(x)
    ensures FindSpan(x + y, |x| + n) == if FindSpan(y, n).Some?
                                        then Some((|x| + FindSpan(y, n).value.0, |x| + FindSpan(y, n).value.1))
                                        else FindSpan(x + y, |x|)
  {
    hide SpanAt, Closed;
    if n > 0 {
      SpanBehind(x, y, n - 1);
      FindSpanBehind(x, y, n - 1);
    }
  }

  /** The part of the line before code and message. */
  function Head(d: Diagnostic): string {
    d.file + "(" + Digits(d.line) + "," + Digits(d.column) + ")" + (": " + Word(d.severity) + " ")
  }

  lemma {:induction false} HeadIsClosed(d: Diagnostic)
    ensures Printed(d) == Head(d) + Text(d)
    ensures CloseOf(d) < |Head(d)| && Closed(Head(d))
    ensures forall i :: CloseOf(d) < i < |Head(d)| ==> Head(d)[i] != ')'
  {
    hide Digits, Text;
    var h, c := Head(d), CloseOf(d);
    var w := ": " + Word(d.severity) + " ";
    assert h[c] == ')';
    assert forall i :: c < i < |h| ==> h[i] == w[i - c - 1];
    assert forall i :: 0 <= i < |w| ==> w[i] != '(' && w[i] != ')';
    forall i | 0 <= i < |h| && h[i] == '(' ensures ')' in h[i..] {
      assert h[i..][c - i] == ')';
    }
  }

  /** The coordinates are found, unless code and message hold coordinates of their own. */
  lemma {:induction false} SpanOfPrinted(d: Diagnostic)
    ensures var line, inner := Printed(d), FindSpan(Text(d), |Text(d)|);
            && (inner.None? ==> FindSpan(line, |line|) == Some((|d.file|, CloseOf(d))))
            && (inner.Some? ==> FindSpan(line, |line|).Some? && FindSpan(line, |line|).value.0 > |d.file|)
  {
    hide SpanAt, Printed, Text, Head, CloseOf, Closed;
    var line := Printed(d);
    HeadIsClosed(d);
    CoordinatesQualify(d);
    HeadIsLonger(d);
    FindSpanBehind(Head(d), Text(d), |Text(d)|);
    assert forall i :: 0 <= i < |Head(d)| ==> line[i] == Head(d)[i];
    NoClose(line, CloseOf(d) + 1, |Head(d)|);
  }

  lemma {:induction false} HeadIsLonger(d: Diagnostic)
    ensures |Head(d)| > |d.file|
  {
  }

  // ----- The round trip -----

  /** A diagnostic that its line shows unambiguously. */
  predicate Clean(d: Diagnostic) {
    && Trim(d.code) == d.code && Trim(d.message) == d.message
    && ':' !in d.code
    && FindSpan(Text(d), |Text(d)|).None?
  }

  lemma {:induction false} PlainCode(d: Diagnostic)
    requires ':' !in d.code
    ensures ParseFields(Tail(d)) == Some((d.severity, Trim(d.code), Trim(d.message)))
  {
    hide Trim, ParseFields, Word;
    assert Tail(d) == ": " + Word(d.severity) + " " + d.code + ":" + (" " + d.message);
    FieldsComeBack(d.severity, d.code, " " + d.message);
    TrimSpace(d.message);
  }

  lemma {:induction false} CodeWithColon(d: Diagnostic)
    requires ':' in d.code
    ensures ParseFields(Tail(d)).Some? && |ParseFields(Tail(d)).value.1| < |d.code|
  {
    hide Trim, ParseFields, Word;
    var i := Find(d.code, ':');
    assert d.code[..|d.code|] == d.code;
    var a, b := d.code[..i], d.code[i + 1..] + ": " + d.message;
    CutAtColon(d, i);
    FieldsComeBack(d.severity, a, b);
    TrimOnce(a);
  }

  lemma {:induction false} CutAtColon(d: Diagnostic, i: nat)
    requires i < |d.code| && d.code[i] == ':'
    ensures Tail(d) == ": " + Word(d.severity) + " " + d.code[..i] + ":" + (d.code[i + 1..] + ": " + d.message)
  {
    hide Word;
    assert d.code == d.code[..i] + ":" + d.code[i + 1..];
  }

  /** The fields come back exactly if the code is trimmed and holds no colon and the message is
      trimmed. */
  lemma {:induction false} FieldsRoundTrip(d: Diagnostic)
    ensures ParseFields(Tail(d)) == Some((d.severity, d.code, d.message)) <==>
            Trim(d.code) == d.code && Trim(d.message) == d.message && ':' !in d.code
  {
    hide Trim, ParseFields, Tail;
    if ':' !in d.code {
      PlainCode(d);
    } else {
      CodeWithColon(d);
    }
  }

  lemma {:induction false} ParseAtSpan(d: Diagnostic)
    requires FindSpan(Printed(d), |Printed(d)|) == Some((|d.file|, CloseOf(d)))
    ensures ParseLine(Printed(d)) == match ParseFields(Tail(d))
                                     case None => None
                                     case Some((severity, code, message)) =>
                                       Some(Diagnostic(d.file, d.line, d.column, severity, code, message))
  {
    hide FindSpan, Printed, Tail, Text, Trim, ParseFields, IsPayload, CloseOf, ParseU32, Split, Digits;
    PrintedParts(d);
    PayloadComesBack(d.line, d.column);
    NumberComesBack(d.line);
    NumberComesBack(d.column);
  }

  lemma {:induction false} FileFromSpan(line: string)
    ensures ParseLine(line).Some? ==>
              && FindSpan(line, |line|).Some?
              && |ParseLine(line).value.file| == FindSpan(line, |line|).value.0
  {
    hide FindSpan, Trim, ParseFields, IsPayload, Split, ParseU32;
    FindSpanIsRightmost(line, |line|);
  }

  /** Printing and parsing returns the same diagnostic, whatever the file name, exactly for the
      clean ones. */
  lemma {:induction false} RoundTrip(d: Diagnostic)
    ensures ParseLine(Printed(d)) == Some(d) <==> Clean(d)
  {
    hide FindSpan, Printed, Tail, Text, Trim, ParseFields, CloseOf, ParseLine;
    SpanOfPrinted(d);
    FieldsRoundTrip(d);
    FileFromSpan(Printed(d));
    if FindSpan(Text(d), |Text(d)|).None? {
      ParseAtSpan(d);
    }
  }

  // ----- More or fewer than two numbers -----

  lemma {:induction false} TrimEndBehind(p: string, s: string)
    requires p != [] && !IsWhitespace(p[|p| - 1]) && StartsWith(s, p)
    ensures TrimEnd(s) == p + TrimEnd(s[|p|..])
  {
    assert s == p + s[|p|..];
    TrimEndKeeps(p, s[|p|..]);
  }

  lemma {:induction false} TrimEndStarts(p: string, s: string)
    requires p != [] && !IsWhitespace(p[|p| - 1]) && StartsWith(s, p)
    ensures StartsWith(TrimEnd(s), p) && TrimEnd(s)[|p|..] == TrimEnd(s[|p|..])
  {
    TrimEndBehind(p, s);
    StartsWithPart(p, TrimEnd(s[|p|..]), TrimEnd(s));
  }

  lemma {:induction false} PrefixFits(s: string, p: string)
    requires StartsWith(s, p)
    ensures |p| <= |s|
  {
  }

  lemma {:induction false} SeverityStarts(rest: string, word: string)
    requires word in ["error", "warning", "info"] && StartsWith(TrimStart(rest), word)
    ensures StartsWith(Trim(rest), word)
  {
    hide TrimStart, TrimEnd, StartsWith;
    TrimEndStarts(word, TrimStart(rest));
  }

  /** Where a severity follows, the fields can be read. */
  lemma {:induction false} FieldsFollow(after: string)
    requires SeverityFollows(after)
    ensures ParseFields(after).Some?
  {
    hide TrimStart, TrimEnd, StartsWith;
    var t := TrimStart(after);
    TrimEndStarts(":", t);
    PrefixFits(t, ":");
    var rest := t[1..];
    TrimOnce(rest);
    assert Trim(Trim(after)[1..]) == Trim(rest);
    var word :| word in ["error", "warning", "info"] && StartsWith(TrimStart(rest), word);
    SeverityStarts(rest, word);
  }

  lemma {:induction false} SplitLength(s: string)
    ensures |Split(s)| >= 2 <==> ',' in s
  {
    if ',' in s {
      var i := Find(s, ',');
      assert s[..i] + s[i..] == s;
      assert i < |s|;
      SplitSome(s[i + 1..]);
    }
  }

  lemma {:induction false} SplitSome(s: string)
    ensures |Split(s)| >= 1
  {
  }

  /** What `SpanAt` says of the line around a span. */
  lemma {:induction false} SpanParts(line: string)
    requires FindSpan(line, |line|).Some?
    ensures var span := FindSpan(line, |line|).value;
            && span.0 < span.1 < |line|
            && IsPayload(line[span.0 + 1..span.1]) && SeverityFollows(line[span.1 + 1..])
  {
    hide IsPayload, SeverityFollows, FindSpan, LastOpen;
    FindSpanIsRightmost(line, |line|);
  }

  /** The text between the parentheses of the rightmost span, if there is one. */
  function Coordinates(line: string): Option<string> {
    var span := FindSpan(line, |line|);
    if span.Some? && span.value.0 < span.value.1 <= |line| then Some(line[span.value.0 + 1..span.value.1]) else None
  }

  /** A line is read if and only if it has coordinates and these are more than one number. Of
      the numbers the first two are taken and others dropped. */
  lemma {:induction false} ReadExactly(line: string)
    ensures ParseLine(line).Some? <==> Coordinates(line).Some? && ',' in Coordinates(line).value
    ensures ParseLine(line).Some? ==>
              var parts := Split(Coordinates(line).value);
              && |parts| >= 2
              && Some(ParseLine(line).value.line) == ParseU32(Trim(parts[0]))
              && Some(ParseLine(line).value.column) == ParseU32(Trim(parts[1]))
              && ParseLine(line).value.file == line[..FindSpan(line, |line|).value.0]
  {
    hide FindSpan, ParseFields, ParseU32, Trim, Find, Split, SeverityFollows;
    if FindSpan(line, |line|).Some? {
      SpanParts(line);
      var span := FindSpan(line, |line|).value;
      FieldsFollow(line[span.1 + 1..]);
      SplitLength(line[span.0 + 1..span.1]);
      SplitSome(line[span.0 + 1..span.1]);
    }
  }

  /** A line whose rightmost span holds a single number is not read at all. */
  lemma {:induction false} LoneNumberUnread(line: string)
    requires Coordinates(line).Some? && ',' !in Coordinates(line).value
    ensures ParseLine(line) == None
  {
    hide ParseLine, Coordinates;
    ReadExactly(line);
  }

  /** A message that begins with a number in parentheses and a severity. */
  function Misleading(k: U32): string {
    "(" + Digits(k) + "): error"
  }

  lemma {:induction false} NoCloseBehind(code: string, k: U32)
    ensures var text, close := code + ": " + Misleading(k), |code| + 3 + |Digits(k)|;
            && close < |text| && text[close] == ')'
            && text[..close] == (code + ": ") + "(" + Digits(k)
            && text[|code| + 3..close] == Digits(k)
            && text[close + 1..] == ": error"
            && forall i :: close < i < |text| ==> text[i] != ')'
  {
    hide Digits;
    var text, close := code + ": " + Misleading(k), |code| + 3 + |Digits(k)|;
    assert text[close + 1..] == ": error";
    assert forall i :: close < i < |text| ==> text[i] == ": error"[i - close - 1];
  }

  lemma {:induction false} ErrorFollows()
    ensures SeverityFollows(": error")
  {
    hide TrimStart;
    TrimColon(" error");
    TrimWord(Error, "");
    assert Word(Error) + "" == "error";
    assert " " + (Word(Error) + "") == " error";
    StartsWithPart(":", " error", ": error");
    StartsWithPart("error", "", "error");
  }

  lemma {:induction false} LonePayload(k: U32)
    ensures IsPayload(Digits(k))
  {
    hide Digits, Trim, ParseU32, Split;
    NumberComesBack(k);
    SplitWhole(Digits(k));
  }

  lemma {:induction false} MisleadingQualifies(code: string, k: U32)
    ensures var text, close := code + ": " + Misleading(k), |code| + 3 + |Digits(k)|;
            close < |text| && SpanAt(text, close) == Some(|code| + 2)
  {
    hide Digits, IsPayload, SeverityFollows, Misleading, LastOpen;
    NoCloseBehind(code, k);
    NumberComesBack(k);
    LastOpenAt(code + ": ", Digits(k));
    ErrorFollows();
    LonePayload(k);
  }

  lemma {:induction false} MisleadingSpan(code: string, k: U32)
    ensures var text := code + ": " + Misleading(k);
            FindSpan(text, |text|) == Some((|code| + 2, |code| + 3 + |Digits(k)|))
  {
    hide Digits, SpanAt, Misleading;
    var text, close := code + ": " + Misleading(k), |code| + 3 + |Digits(k)|;
    NoCloseBehind(code, k);
    MisleadingQualifies(code, k);
    NoClose(text, close + 1, |text|);
  }

  lemma {:induction false} MisleadingSpanInLine(d: Diagnostic, k: U32)
    requires d.message == Misleading(k)
    ensures var line, o, c := Printed(d), |Head(d)| + |d.code| + 2, |Head(d)| + |d.code| + 3 + |Digits(k)|;
            && FindSpan(line, |line|) == Some((o, c)) && o < c <= |line|
            && line[o + 1..c] == Digits(k)
  {
    hide Digits, Misleading, FindSpan, Head, Printed, Closed;
    HeadIsClosed(d);
    MisleadingSpan(d.code, k);
    FindSpanBehind(Head(d), Text(d), |Text(d)|);
    NoCloseBehind(d.code, k);
    var line, o, c := Printed(d), |Head(d)| + |d.code| + 2, |Head(d)| + |d.code| + 3 + |Digits(k)|;
    assert line[o + 1..c] == Text(d)[|d.code| + 3..|d.code| + 3 + |Digits(k)|];
  }

  /** A readable line becomes unreadable by such a message, whatever its own coordinates. */
  lemma {:induction false} MisleadingMessage(d: Diagnostic, k: U32)
    requires d.message == Misleading(k)
    ensures ParseLine(Printed(d)) == None
  {
    hide Digits, Misleading, FindSpan, Head, Printed, ParseLine;
    MisleadingSpanInLine(d, k);
    NumberComesBack(k);
    LoneNumberUnread(Printed(d));
  }

  /** Three numbers count as coordinates too, and the third is dropped. */
  lemma {:induction false} ThreeNumbersCount(file: string, a: U32, b: U32, c: U32)
    ensures var line := file + "(" + (Digits(a) + "," + (Digits(b) + "," + Digits(c))) + "): error";
            ParseLine(line) == Some(Diagnostic(file, a, b, Error, "", ""))
  {
    hide Digits, FindSpan, Trim, ParseU32, Split, ParseFields;
    var payload := Digits(a) + "," + (Digits(b) + "," + Digits(c));
    var line := file + "(" + payload + "): error";
    ThreeNumbersSpan(file, a, b, c);
    assert line[..|file|] == file;
    assert line[|file| + 1..|file| + 1 + |payload|] == payload;
    assert line[|file| + 2 + |payload|..] == ": error";
    SplitThree(a, b, c);
    NumberComesBack(a);
    NumberComesBack(b);
    ErrorAlone();
  }

  lemma {:induction false} ErrorAlone()
    ensures ParseFields(": error") == Some((Error, "", ""))
  {
    assert Trim(": error") == ": error";
    assert ": error"[1..] == " error";
    TrimSpace("error");
    assert Trim("error") == "error";
    assert "error"[5..] == "";
  }

  lemma {:induction false} SplitThree(a: U32, b: U32, c: U32)
    ensures Split(Digits(a) + "," + (Digits(b) + "," + Digits(c))) == [Digits(a), Digits(b), Digits(c)]
  {
    hide Digits, Split;
    NumberComesBack(a);
    SplitAt(Digits(a), Digits(b) + "," + Digits(c));
    PayloadComesBack(b, c);
    assert [Digits(a)] + [Digits(b), Digits(c)] == [Digits(a), Digits(b), Digits(c)];
  }

  lemma {:induction false} ThreeNumbersSpan(file: string, a: U32, b: U32, c: U32)
    ensures var payload := Digits(a) + "," + (Digits(b) + "," + Digits(c));
            var line := file + "(" + payload + "): error";
            FindSpan(line, |line|) == Some((|file|, |file| + 1 + |payload|))
  {
    hide Digits, LastOpen, IsPayload;
    ThreePayload(a, b, c);
    NumberComesBack(a);
    NumberComesBack(b);
    NumberComesBack(c);
    LineSpan(file, Digits(a) + "," + (Digits(b) + "," + Digits(c)));
  }

  lemma {:induction false} LineSpan(file: string, payload: string)
    requires IsPayload(payload) && '(' !in payload
    ensures var line := file + "(" + payload + "): error";
            FindSpan(line, |line|) == Some((|file|, |file| + 1 + |payload|))
  {
    hide LastOpen, IsPayload, SeverityFollows;
    var line, close := file + "(" + payload + "): error", |file| + 1 + |payload|;
    assert line[close + 1..] == ": error" && line[..close] == file + "(" + payload;
    assert line[|file| + 1..close] == payload;
    forall i | close < i < |line| ensures line[i] != ')' {
      assert line[i] == ": error"[i - close - 1];
    }
    ErrorFollows();
    LastOpenAt(file, payload);
    assert SpanAt(line, close) == Some(|file|);
    NoClose(line, close + 1, |line|);
  }

  lemma {:induction false} ThreePayload(a: U32, b: U32, c: U32)
    ensures IsPayload(Digits(a) + "," + (Digits(b) + "," + Digits(c)))
  {
    hide Digits, Trim, ParseU32, Split, IsPayload;
    NumberComesBack(a);
    NumberComesBack(b);
    NumberComesBack(c);
    SplitThree(a, b, c);
    PayloadOfParts(Digits(a) + "," + (Digits(b) + "," + Digits(c)), Digits(a), Digits(b), Digits(c));
  }

  lemma {:induction false} PayloadOfParts(payload: string, x: string, y: string, z: string)
    requires payload != [] && Split(payload) == [x] + [y, z]
    requires ParseU32(Trim(x)).Some? && ParseU32(Trim(y)).Some? && ParseU32(Trim(z)).Some?
    ensures IsPayload(payload)
  {
    hide Split, Trim, ParseU32;
    assert [x] + [y, z] == [x, y, z];
  }

  // ----- The whole output -----

  /** `str::lines`: the parts between line feeds, without a carriage return at their end. */
  function Lines(s: string): seq<string>
    decreases |s|
  {
    var i := Find(s, '\n');
    if s == [] then []
    else if i == |s| then [s]
    else [WithoutReturn(s[..i])] + Lines(s[i + 1..])
  }

  function WithoutReturn(s: string): string {
    if s != [] && s[|s| - 1] == '\r' then s[..|s| - 1] else s
  }

  /** The diagnostics among the lines. */
  function Parsed(lines: seq<string>): seq<Diagnostic> {
    if lines == [] then [] else
    var n := |lines| - 1;
    Parsed(lines[..n]) + if ParseLine(lines[n]).Some? then [ParseLine(lines[n]).value] else []
  }

  /** `parse_alc_output`. */
  method ParseAlcOutput(output: string) returns (diagnostics: seq<Diagnostic>)
    ensures diagnostics == Parsed(Lines(output))
  {
    hide Lines, ParseLine;
    var lines := Lines(output);
    diagnostics := [];
    for i := 0 to |lines|
      invariant diagnostics == Parsed(lines[..i])
    {
      assert lines[..i + 1][..i] == lines[..i];
      var parsed := ParseLine(lines[i]);
      if parsed.Some? {
        diagnostics := diagnostics + [parsed.value];
      }
    }
    assert lines[..|lines|] == lines;
  }

  /** Diagnostics written line by line. */
  function Output(ds: seq<Diagnostic>): string {
    if ds == [] then "" else Printed(ds[0]) + "\n" + Output(ds[1..])
  }

  predicate OneLine(d: Diagnostic) {
    '\n' !in d.file && '\n' !in d.code && '\n' !in d.message
  }

  /** An output of clean diagnostics comes back whole and in order. */
  lemma {:induction false} OutputRoundTrip(ds: seq<Diagnostic>)
    requires forall i :: 0 <= i < |ds| ==> Clean(ds[i]) && OneLine(ds[i])
    ensures Parsed(Lines(Output(ds))) == ds
  {
    hide Clean, ParseLine, Printed;
    if ds != [] {
      var line, rest := Printed(ds[0]), Output(ds[1..]);
      OutputRoundTrip(ds[1..]);
      PrintedIsOneLine(ds[0]);
      LinesFirst(line, rest);
      ParsedFirst(line, Lines(rest));
      RoundTrip(ds[0]);
    }
  }

  lemma {:induction false} LinesFirst(line: string, rest: string)
    requires '\n' !in line
    ensures Lines(line + "\n" + rest) == [WithoutReturn(line)] + Lines(rest)
  {
    var s := line + "\n" + rest;
    FindFirst(line, '\n', rest);
    assert s[..|line|] == line && s[|line| + 1..] == rest;
  }

  lemma {:induction false} ParsedFirst(line: string, lines: seq<string>)
    ensures Parsed([line] + lines) == (if ParseLine(line).Some? then [ParseLine(line).value] else []) + Parsed(lines)
  {
    hide ParseLine;
    if lines == [] {
      assert [line] + lines == [line];
    } else {
      var n := |lines| - 1;
      ParsedFirst(line, lines[..n]);
      assert ([line] + lines)[..n + 1] == [line] + lines[..n];
    }
  }

  lemma {:induction false} PrintedIsOneLine(d: Diagnostic)
    requires OneLine(d) && Clean(d)
    ensures '\n' !in Printed(d) && WithoutReturn(Printed(d)) == Printed(d)
  {
    hide Digits, Trim, FindSpan;
    DigitsAreOneLine(d.line);
    DigitsAreOneLine(d.column);
    assert Word(d.severity) in ["error", "warning", "info"];
    NoReturnAtEnd(d);
  }

  lemma {:induction false} NoReturnAtEnd(d: Diagnostic)
    requires Trim(d.message) == d.message
    ensures Printed(d)[|Printed(d)| - 1] != '\r'
  {
    hide Digits, TrimStart, TrimEnd, Word;
    TrimEndIs(TrimStart(d.message));
  }

  lemma {:induction false} DigitsAreOneLine(n: nat)
    ensures '\n' !in Digits(n)
  {
    assert forall i :: 0 <= i < |Digits(n)| ==> IsDigit(Digits(n)[i]);
  }
}
