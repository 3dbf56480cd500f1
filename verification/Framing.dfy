/** The benchmark client's side of the Base Protocol: framing what it sends, and reading frames
    from a pipe that hands out its bytes in pieces of any size.

    Reading is a function of the whole stream; the loops over lines and pieces are proved to
    compute it. It is then proved against the sender: what was sent in frames comes back. */
module Framing {
  import opened Decimal
  import opened Options
  import opened Strings

  type Byte = n: nat | n < 256

  const NEWLINE: Byte := 10

  predicate IsAscii(s: string) {
    forall i :: 0 <= i < |s| ==> s[i] as int < 128
  }

  function Ascii(s: string): (bytes: seq<Byte>)
    requires IsAscii(s)
    ensures |bytes| == |s| && forall i :: 0 <= i < |s| ==> bytes[i] == s[i] as int
  {
    seq(|s|, i requires 0 <= i < |s| => s[i] as int)
  }

  /** `bytes.decode`, of which only ASCII matters here. */
  type Decoder = seq<Byte> -> string

  ghost predicate DecodesAscii(decode: Decoder) {
    forall s: string :: IsAscii(s) ==> decode(Ascii(s)) == s
  }

  // ----- Sending -----

  const HEADER := "Content-Length"
  const BLANK := "\r\n"

  function HeaderLine(n: nat): (s: string)
    ensures IsAscii(s)
  {
    assert forall i :: 0 <= i < |Digits(n)| ==> IsDigit(Digits(n)[i]);
    HEADER + ": " + Digits(n) + "\r\n"
  }

  /** `_send`: one message. */
  function Frame(body: seq<Byte>): seq<Byte> {
    Ascii(HeaderLine(|body|)) + Ascii(BLANK) + body
  }

  function Frames(bodies: seq<seq<Byte>>): seq<Byte> {
    if bodies == [] then [] else Frame(bodies[0]) + Frames(bodies[1..])
  }

  // ----- Reading -----

  /** The length of the first line, with its line feed if it has one. */
  function LineLength(data: seq<Byte>): (n: nat)
    ensures n <= |data| && (data != [] ==> n > 0)
    ensures forall i :: 0 <= i < n - 1 ==> data[i] != NEWLINE
    ensures n < |data| ==> n > 0 && data[n - 1] == NEWLINE
  {
    if data == [] then 0 else if data[0] == NEWLINE then 1 else 1 + LineLength(data[1..])
  }

  function AddHeader(headers: map<string, string>, text: string): map<string, string> {
    var colon := Find(text, ':');
    if colon < |text| then headers[Lower(Strip(text[..colon])) := Strip(text[colon + 1..])] else headers
  }

  /** Header lines up to a blank one; `None` if the stream ends before it. */
  function ReadHeaders(decode: Decoder, data: seq<Byte>, headers: map<string, string>):
    (r: Option<(map<string, string>, seq<Byte>)>)
    ensures r.Some? ==> |r.value.1| < |data|
    decreases |data|
  {
    if data == [] then None else
    var n := LineLength(data);
    var text := Strip(decode(data[..n]));
    if text == "" then Some((headers, data[n..])) else ReadHeaders(decode, data[n..], AddHeader(headers, text))
  }

  /** Digits with single underscores between them, as `int` reads them. */
  predicate IsNumeral(s: string) {
    && s != [] && IsDigit(s[0]) && IsDigit(s[|s| - 1])
    && (forall i :: 0 <= i < |s| ==> IsDigit(s[i]) || s[i] == '_')
    && (forall i :: 0 <= i < |s| - 1 ==> IsDigit(s[i]) || IsDigit(s[i + 1]))
  }

  function WithoutUnderscores(s: string): string {
    if s == [] then [] else (if s[0] == '_' then [] else [s[0]]) + WithoutUnderscores(s[1..])
  }

  lemma {:induction false} DigitsRemain(s: string)
    requires forall i :: 0 <= i < |s| ==> IsDigit(s[i]) || s[i] == '_'
    ensures AllDigits(WithoutUnderscores(s))
  {
    if s != [] {
      DigitsRemain(s[1..]);
    }
  }

  function ParseInt(s: string): Option<int> {
    var negative := s != [] && s[0] == '-';
    var t := if s != [] && (s[0] == '-' || s[0] == '+') then s[1..] else s;
    if IsNumeral(t) then
      DigitsRemain(t);
      var v: int := Value(WithoutUnderscores(t));
      Some(if negative then -v else v)
    else None
  }

  function BodyLength(headers: map<string, string>): Option<int> {
    if "content-length" in headers then ParseInt(headers["content-length"]) else Some(0)
  }

  /** How reading ends: between frames or in headers, inside a body, at a length that is no
      number, or behind a body whose handling raised. */
  datatype End = EndOfStream | EndInBody | BadLength | HandlerFailed

  /** Whether a body is dealt with, stored or thrown away, without an exception: a JSON number
      is not, since it is asked whether it contains a key. */
  type Handler = seq<Byte> -> bool

  datatype Reading = Reading(bodies: seq<seq<Byte>>, end: End, left: seq<Byte>)

  function Prepend(bodies: seq<seq<Byte>>, r: Reading): Reading {
    r.(bodies := bodies + r.bodies)
  }

  datatype Step = Stop(end: End) | Skip | Deliver(body: seq<Byte>)

  /** One round of reading: what it does, and what is then left of the stream. */
  function ReadFrame(decode: Decoder, data: seq<Byte>): (r: (Step, seq<Byte>))
    ensures if r.0.Stop? then r.0.end != HandlerFailed else |r.1| < |data|
  {
    match ReadHeaders(decode, data, map[])
    case None => (Stop(EndOfStream), [])
    case Some((headers, rest)) =>
      match BodyLength(headers)
      case None => (Stop(BadLength), rest)
      case Some(n) =>
        if n <= 0 then (Skip, rest)
        else if |rest| < n then (Stop(EndInBody), [])
        else (Deliver(rest[..n]), rest[n..])
  }

  lemma {:induction false} PrependTwice(x: seq<seq<Byte>>, y: seq<seq<Byte>>, r: Reading)
    ensures Prepend(x + y, r) == Prepend(x, Prepend(y, r))
  {
    assert (x + y) + r.bodies == x + (y + r.bodies);
  }

  lemma {:induction false} PrependNone(x: seq<seq<Byte>>, r: Reading)
    ensures Prepend([], r) == r
    ensures r.bodies == [] ==> Prepend(x, r) == Reading(x, r.end, r.left)
  {
    assert [] + r.bodies == r.bodies;
  }

  lemma {:induction false} PrependLast(x: seq<seq<Byte>>, body: seq<Byte>, left: seq<Byte>)
    ensures Prepend(x, Reading([body], HandlerFailed, left)) == Reading(x + [body], HandlerFailed, left)
  {
  }

  /** What reading a stream to its end delivers. */
  function ReadAll(decode: Decoder, handled: Handler, data: seq<Byte>): Reading
    decreases |data|
  {
    var (step, left) := ReadFrame(decode, data);
    match step
    case Stop(end) => Reading([], end, left)
    case Skip => ReadAll(decode, handled, left)
    case Deliver(body) =>
      if handled(body) then Prepend([body], ReadAll(decode, handled, left)) else Reading([body], HandlerFailed, left)
  }

  // ----- Reading back what was sent -----

  lemma {:induction false} StripEnds(x: string)
    ensures x != [] && !IsPythonSpace(x[0]) && !IsPythonSpace(x[|x| - 1]) ==> Strip(x) == x
    ensures x != [] && !IsPythonSpace(x[0]) ==> Strip(x) != []
  {
    if x != [] && !IsPythonSpace(x[0]) && IsPythonSpace(x[|x| - 1]) {
      StripEnds(x[..|x| - 1]);
    }
  }

  lemma {:induction false} DigitsAreSolid(n: nat)
    ensures forall i :: 0 <= i < |Digits(n)| ==> IsDigit(Digits(n)[i]) && !IsPythonSpace(Digits(n)[i])
  {
  }

  lemma {:induction false} PlainDigits(s: string)
    requires AllDigits(s)
    ensures WithoutUnderscores(s) == s
  {
    if s != [] {
      PlainDigits(s[1..]);
    }
  }

  lemma {:induction false} DigitsAreNumeral(n: nat)
    ensures IsNumeral(Digits(n)) && Digits(n)[0] != '-' && Digits(n)[0] != '+'
  {
    hide Digits;
    assert IsDigit(Digits(n)[0]);
  }

  lemma {:induction false} LengthComesBack(n: nat)
    ensures ParseInt(Digits(n)) == Some(n)
  {
    hide Digits, IsNumeral, Value, WithoutUnderscores;
    DigitsAreNumeral(n);
    PlainDigits(Digits(n));
    DigitsRoundTrip(n);
  }

  lemma {:induction false} StripLine(n: nat)
    ensures Strip(HeaderLine(n)) == HEADER + ": " + Digits(n)
  {
    hide Digits;
    var text := HEADER + ": " + Digits(n);
    DigitsAreSolid(n);
    assert HeaderLine(n)[..|HeaderLine(n)| - 1] == text + "\r";
    assert (text + "\r")[..|text|] == text;
    assert text[|text| - 1] == Digits(n)[|Digits(n)| - 1];
    StripEnds(text);
  }

  lemma {:induction false} StripNumber(n: nat)
    ensures Strip(" " + Digits(n)) == Digits(n) && Strip(HEADER) == HEADER
  {
    hide Digits;
    DigitsAreSolid(n);
    assert (" " + Digits(n))[1..] == Digits(n);
    StripEnds(Digits(n));
    StripEnds(HEADER);
  }

  lemma {:induction false} HeaderIsAdded(n: nat, headers: map<string, string>)
    ensures AddHeader(headers, HEADER + ": " + Digits(n)) == headers["content-length" := Digits(n)]
  {
    hide Digits, Strip;
    var text := HEADER + ":" + (" " + Digits(n));
    assert text == HEADER + ": " + Digits(n);
    FindFirst(HEADER, ':', " " + Digits(n));
    assert text[..|HEADER|] == HEADER && text[|HEADER| + 1..] == " " + Digits(n);
    StripNumber(n);
    assert Lower(HEADER) == "content-length";
  }

  lemma {:induction false} LineOf(line: seq<Byte>, rest: seq<Byte>)
    requires line != [] && line[|line| - 1] == NEWLINE && forall i :: 0 <= i < |line| - 1 ==> line[i] != NEWLINE
    ensures LineLength(line + rest) == |line|
  {
    LineIs(line + rest, |line|);
  }

  lemma {:induction false} HeaderLineIsOne(n: nat)
    ensures var h := Ascii(HeaderLine(n));
            && h != [] && h[|h| - 1] == NEWLINE
            && forall i :: 0 <= i < |h| - 1 ==> h[i] != NEWLINE
  {
    hide Digits;
    DigitsAreSolid(n);
    assert '\n' as int == NEWLINE;
  }

  /** The length header is read and the stream goes on behind it. */
  lemma {:induction false} LengthIsRead(decode: Decoder, n: nat, rest: seq<Byte>, headers: map<string, string>)
    requires DecodesAscii(decode)
    ensures ReadHeaders(decode, Ascii(HeaderLine(n)) + rest, headers) ==
            ReadHeaders(decode, rest, headers["content-length" := Digits(n)])
  {
    hide HeaderLine, Digits, AddHeader, Strip;
    var h := Ascii(HeaderLine(n));
    HeaderLineIsOne(n);
    LineOf(h, rest);
    assert (h + rest)[..|h|] == h && (h + rest)[|h|..] == rest;
    assert decode(h) == HeaderLine(n);
    StripLine(n);
    HeaderIsAdded(n, headers);
  }

  lemma {:induction false} BlankIsRead(decode: Decoder, rest: seq<Byte>, headers: map<string, string>)
    requires DecodesAscii(decode)
    ensures ReadHeaders(decode, Ascii(BLANK) + rest, headers) == Some((headers, rest))
  {
    var b := Ascii(BLANK);
    LineOf(b, rest);
    assert (b + rest)[..|b|] == b && (b + rest)[|b|..] == rest;
    assert decode(b) == BLANK;
    assert BLANK[1..] == "\n" && "\n"[1..] == "";
    assert Strip("\n") == "";
  }

  /** A frame is read whole, and nothing behind it is touched. */
  lemma {:induction false} FrameIsRead(decode: Decoder, body: seq<Byte>, rest: seq<Byte>)
    requires DecodesAscii(decode)
    ensures ReadFrame(decode, Frame(body) + rest) == (if body == [] then Skip else Deliver(body), rest)
  {
    hide HeaderLine, Digits, ReadHeaders, ParseInt;
    var tail := body + rest;
    assert Frame(body) + rest == Ascii(HeaderLine(|body|)) + (Ascii(BLANK) + tail);
    LengthIsRead(decode, |body|, Ascii(BLANK) + tail, map[]);
    BlankIsRead(decode, tail, map["content-length" := Digits(|body|)]);
    LengthComesBack(|body|);
    assert body != [] ==> tail[..|body|] == body && tail[|body|..] == rest;
    assert body == [] ==> tail == rest;
  }

  function Kept(body: seq<Byte>): seq<seq<Byte>> {
    if body == [] then [] else [body]
  }

  function NonEmpty(bodies: seq<seq<Byte>>): seq<seq<Byte>> {
    if bodies == [] then [] else Kept(bodies[0]) + NonEmpty(bodies[1..])
  }

  /** No body raises. Empty ones are not looked at. */
  predicate AllHandled(handled: Handler, bodies: seq<seq<Byte>>) {
    forall i :: 0 <= i < |bodies| && bodies[i] != [] ==> handled(bodies[i])
  }

  /** How many frames are read: all, or those up to the first whose body raises. */
  function Reached(handled: Handler, bodies: seq<seq<Byte>>): (n: nat)
    ensures n <= |bodies|
  {
    if bodies == [] then 0
    else if bodies[0] != [] && !handled(bodies[0]) then 1
    else 1 + Reached(handled, bodies[1..])
  }

  lemma {:induction false} ReachedIsFirst(handled: Handler, bodies: seq<seq<Byte>>)
    ensures var n := Reached(handled, bodies);
            if AllHandled(handled, bodies) then n == |bodies|
            else
              && n > 0 && bodies[n - 1] != [] && !handled(bodies[n - 1])
              && forall i :: 0 <= i < n - 1 && bodies[i] != [] ==> handled(bodies[i])
  {
    if bodies != [] && (bodies[0] == [] || handled(bodies[0])) {
      var rest := bodies[1..];
      ReachedIsFirst(handled, rest);
      assert forall i :: 0 <= i < |rest| ==> rest[i] == bodies[i + 1];
      assert forall i :: 1 <= i < |bodies| ==> bodies[i] == rest[i - 1];
    }
  }

  /** Reading goes on behind a frame, unless its body raises. */
  lemma {:induction false} NextFrame(decode: Decoder, handled: Handler, body: seq<Byte>, more: seq<Byte>)
    requires DecodesAscii(decode)
    ensures ReadAll(decode, handled, Frame(body) + more) ==
            if body == [] then ReadAll(decode, handled, more)
            else if handled(body) then Prepend([body], ReadAll(decode, handled, more))
            else Reading([body], HandlerFailed, more)
  {
    hide ReadFrame, Frame;
    FrameIsRead(decode, body, more);
  }

  lemma {:induction false} FirstNonEmpty(bodies: seq<seq<Byte>>)
    requires bodies != []
    ensures NonEmpty(bodies) == Kept(bodies[0]) + NonEmpty(bodies[1..])
    ensures bodies[0] == [] ==> NonEmpty(bodies) == NonEmpty(bodies[1..])
  {
  }

  /** Frames followed by anything: the bodies are delivered in order, only empty ones are
      dropped, and reading goes on exactly behind the last frame, or ends exactly behind the
      first whose body raises. */
  lemma {:induction false} FramesAreRead(decode: Decoder, handled: Handler, bodies: seq<seq<Byte>>, rest: seq<Byte>)
    requires DecodesAscii(decode)
    ensures ReadAll(decode, handled, Frames(bodies) + rest) ==
            if AllHandled(handled, bodies) then Prepend(NonEmpty(bodies), ReadAll(decode, handled, rest))
            else
              var n := Reached(handled, bodies);
              Reading(NonEmpty(bodies[..n]), HandlerFailed, Frames(bodies[n..]) + rest)
  {
    hide ReadAll, Frame, AllHandled, Reached, NonEmpty;
    NothingReached(handled);
    if bodies == [] {
      assert Frames(bodies) + rest == rest;
      PrependNone([], ReadAll(decode, handled, rest));
    } else {
      var more := Frames(bodies[1..]) + rest;
      assert Frames(bodies) + rest == Frame(bodies[0]) + more;
      NextFrame(decode, handled, bodies[0], more);
      FramesAreRead(decode, handled, bodies[1..], rest);
      FirstHandled(handled, bodies);
      FirstNonEmpty(bodies);
      PrependTwice([bodies[0]], NonEmpty(bodies[1..]), ReadAll(decode, handled, rest));
    }
  }

  lemma {:induction false} FirstHandled(handled: Handler, bodies: seq<seq<Byte>>)
    requires bodies != []
    ensures AllHandled(handled, bodies) <==> (bodies[0] == [] || handled(bodies[0])) && AllHandled(handled, bodies[1..])
    ensures var n := Reached(handled, bodies);
            if bodies[0] == [] || handled(bodies[0]) then
              && n == 1 + Reached(handled, bodies[1..])
              && NonEmpty(bodies[..n]) == Kept(bodies[0]) + NonEmpty(bodies[1..][..n - 1])
              && bodies[n..] == bodies[1..][n - 1..]
            else
              n == 1 && NonEmpty(bodies[..n]) == [bodies[0]]
  {
    var n := Reached(handled, bodies);
    assert forall i :: 1 <= i < |bodies| ==> bodies[i] == bodies[1..][i - 1];
    assert bodies[..n][1..] == bodies[1..][..n - 1];
    assert NonEmpty([]) == [];
  }

  /** Reading what was sent delivers every body up to and including the first that raises:
      all of them if and only if at most the last one raises, and up to the end of the stream
      if and only if none does. */
  lemma {:induction false} RoundTrip(decode: Decoder, handled: Handler, bodies: seq<seq<Byte>>)
    requires DecodesAscii(decode)
    ensures var r, n := ReadAll(decode, handled, Frames(bodies)), Reached(handled, bodies);
            && r == Reading(NonEmpty(bodies[..n]), if AllHandled(handled, bodies) then EndOfStream else HandlerFailed,
                            Frames(bodies[n..]))
            && (r.bodies == NonEmpty(bodies) <==>
                  forall i, j :: 0 <= i < j < |bodies| && bodies[i] != [] && bodies[j] != [] ==> handled(bodies[i]))
            && (r.end == EndOfStream <==> AllHandled(handled, bodies))
    ensures NonEmpty(bodies) == bodies <==> forall i :: 0 <= i < |bodies| ==> bodies[i] != []
  {
    hide ReadAll, Frame, Reached, NonEmpty;
    assert Frames(bodies) + [] == Frames(bodies);
    FramesAreRead(decode, handled, bodies, []);
    NothingIsRead(decode, handled);
    AllNonEmpty(bodies);
    var n := Reached(handled, bodies);
    assert bodies[..|bodies|] == bodies && bodies[|bodies|..] == [];
    assert Frames(bodies[n..]) + [] == Frames(bodies[n..]);
    PrependNone(NonEmpty(bodies), ReadAll(decode, handled, []));
    RestIsEmpty(bodies, n);
    ReachedIsFirst(handled, bodies);
  }

  /** Leaving out frames leaves out bodies, unless they are all empty. */
  lemma {:induction false} RestIsEmpty(bodies: seq<seq<Byte>>, n: nat)
    requires n <= |bodies|
    ensures NonEmpty(bodies[..n]) == NonEmpty(bodies) <==> forall i :: n <= i < |bodies| ==> bodies[i] == []
  {
    if n == 0 {
      NoneLeft(bodies);
    } else {
      RestIsEmpty(bodies[1..], n - 1);
      var first, some, all := Kept(bodies[0]), NonEmpty(bodies[1..][..n - 1]), NonEmpty(bodies[1..]);
      assert bodies[..n][1..] == bodies[1..][..n - 1];
      assert (first + some)[|first|..] == some && (first + all)[|first|..] == all;
      assert forall i :: n - 1 <= i < |bodies| - 1 ==> bodies[1..][i] == bodies[i + 1];
      assert forall i :: n <= i < |bodies| ==> bodies[i] == bodies[1..][i - 1];
    }
  }

  lemma {:induction false} NoneLeft(bodies: seq<seq<Byte>>)
    ensures NonEmpty(bodies) == [] <==> forall i :: 0 <= i < |bodies| ==> bodies[i] == []
  {
    if bodies != [] {
      NoneLeft(bodies[1..]);
      assert forall i :: 1 <= i < |bodies| ==> bodies[i] == bodies[1..][i - 1];
    }
  }

  lemma {:induction false} NothingIsRead(decode: Decoder, handled: Handler)
    ensures ReadAll(decode, handled, []) == Reading([], EndOfStream, [])
  {
  }

  lemma {:induction false} AllNonEmpty(bodies: seq<seq<Byte>>)
    ensures |NonEmpty(bodies)| <= |bodies|
    ensures NonEmpty(bodies) == bodies <==> forall i :: 0 <= i < |bodies| ==> bodies[i] != []
  {
    if bodies != [] {
      AllNonEmpty(bodies[1..]);
      assert bodies == [bodies[0]] + bodies[1..];
    }
  }

  // ----- A stream that breaks off -----

  /** Part of the length header, without its line feed, and then nothing. */
  lemma {:induction false} PartOfHeader(decode: Decoder, n: nat, k: nat, headers: map<string, string>)
    requires DecodesAscii(decode) && k < |HeaderLine(n)|
    ensures ReadHeaders(decode, Ascii(HeaderLine(n))[..k], headers) == None
  {
    hide Digits, Strip, AddHeader;
    var data := Ascii(HeaderLine(n))[..k];
    if k > 0 {
      HeaderLineIsOne(n);
      LineIs(data, k);
      assert data[..k] == data && data[k..] == [];
      var text := HeaderLine(n)[..k];
      assert Ascii(text) == data;
      assert decode(data) == text;
      assert text[0] == 'C';
      StripEnds(text);
    }
  }

  /** A carriage return at the end of the stream counts as the blank line. */
  lemma {:induction false} PartOfBlank(decode: Decoder, headers: map<string, string>)
    requires DecodesAscii(decode)
    ensures ReadHeaders(decode, Ascii(BLANK)[..1], headers) == Some((headers, []))
  {
    var data := Ascii(BLANK)[..1];
    LineIs(data, 1);
    assert data == Ascii("\r") && data[..1] == data && data[1..] == [];
    assert decode(data) == "\r";
    assert "\r"[1..] == "" && Strip("\r") == "";
  }

  lemma {:induction false} PartOfFrameSplits(body: seq<Byte>, k: nat)
    requires k < |Frame(body)|
    ensures var h := |HeaderLine(|body|)|;
            && (k <= h ==> Frame(body)[..k] == Ascii(HeaderLine(|body|))[..k])
            && (k == h + 1 ==> Frame(body)[..k] == Ascii(HeaderLine(|body|)) + Ascii(BLANK)[..1])
            && (k >= h + 2 ==> k - h - 2 < |body|
                               && Frame(body)[..k] == Ascii(HeaderLine(|body|)) + (Ascii(BLANK) + body[..k - h - 2]))
  {
    hide HeaderLine;
  }

  /** The beginning of a frame, and then nothing: no body is delivered. */
  lemma {:induction false} PartOfFrame(decode: Decoder, handled: Handler, body: seq<Byte>, k: nat)
    requires DecodesAscii(decode) && k < |Frame(body)|
    ensures ReadAll(decode, handled, Frame(body)[..k]).bodies == []
    ensures var end := ReadAll(decode, handled, Frame(body)[..k]).end; end == EndOfStream || end == EndInBody
  {
    hide HeaderLine, Digits, ReadHeaders, ParseInt;
    var h := Ascii(HeaderLine(|body|));
    var data := Frame(body)[..k];
    var length := map["content-length" := Digits(|body|)];
    PartOfFrameSplits(body, k);
    LengthComesBack(|body|);
    if k < |h| {
      PartOfHeader(decode, |body|, k, map[]);
    } else if k == |h| {
      LengthIsRead(decode, |body|, [], map[]);
      assert data == h + [];
      NoHeaders(decode, length);
    } else if k == |h| + 1 {
      LengthIsRead(decode, |body|, Ascii(BLANK)[..1], map[]);
      PartOfBlank(decode, length);
      NothingIsRead(decode, handled);
    } else {
      LengthIsRead(decode, |body|, Ascii(BLANK) + body[..k - |h| - 2], map[]);
      BlankIsRead(decode, body[..k - |h| - 2], length);
    }
  }

  lemma {:induction false} NoHeaders(decode: Decoder, headers: map<string, string>)
    ensures ReadHeaders(decode, [], headers) == None
  {
  }

  /** How many frames are complete in the first `k` bytes. */
  function Complete(bodies: seq<seq<Byte>>, k: nat): (n: nat)
    ensures n <= |bodies|
  {
    if bodies == [] || k < |Frame(bodies[0])| then 0
    else 1 + Complete(bodies[1..], k - |Frame(bodies[0])|)
  }

  /** Wherever the stream breaks off, exactly the bodies of the complete frames have been
      delivered, up to and including the first that raises. */
  lemma {:induction false} CutStream(decode: Decoder, handled: Handler, bodies: seq<seq<Byte>>, k: nat)
    requires DecodesAscii(decode) && k <= |Frames(bodies)|
    ensures var r, whole := ReadAll(decode, handled, Frames(bodies)[..k]), bodies[..Complete(bodies, k)];
            && r.bodies == NonEmpty(whole[..Reached(handled, whole)])
            && (r.end == HandlerFailed <==> !AllHandled(handled, whole))
            && r.end != BadLength
  {
    hide ReadAll, Frame, Reached, AllHandled, NonEmpty;
    NothingReached(handled);
    if bodies == [] {
      NothingIsRead(decode, handled);
    } else if k < |Frame(bodies[0])| {
      assert Frames(bodies)[..k] == Frame(bodies[0])[..k];
      PartOfFrame(decode, handled, bodies[0], k);
    } else {
      var f := Frame(bodies[0]);
      var more := Frames(bodies[1..])[..k - |f|];
      assert Frames(bodies)[..k] == f + more;
      NextFrame(decode, handled, bodies[0], more);
      CutStream(decode, handled, bodies[1..], k - |f|);
      var n := Complete(bodies[1..], k - |f|);
      assert bodies[..n + 1][1..] == bodies[1..][..n];
      FirstHandled(handled, bodies[..n + 1]);
    }
  }

  lemma {:induction false} NothingReached(handled: Handler)
    ensures Reached(handled, []) == 0 && AllHandled(handled, []) && NonEmpty([]) == []
  {
  }

  // ----- The pipe and the reader -----

  /** The output of the server process. A read hands out some of the bytes asked for: how many
      is up to `sizes`. */
  class Pipe {
    var data: seq<Byte>
    var sizes: seq<nat>

    constructor (data: seq<Byte>, sizes: seq<nat>)
      ensures this.data == data && this.sizes == sizes
    {
      this.data, this.sizes := data, sizes;
    }

    /** Nothing is returned at the end of the stream only. */
    method Read(n: nat) returns (chunk: seq<Byte>)
      requires n > 0
      modifies this
      ensures |chunk| <= n && old(data) == chunk + data
      ensures chunk == [] <==> old(data) == []
    {
      var most := if |data| < n then |data| else n;
      var size := most;
      if sizes != [] {
        size := if sizes[0] < most then sizes[0] else most;
        size := if size == 0 && most > 0 then 1 else size;
        sizes := sizes[1..];
      }
      chunk := data[..size];
      data := data[size..];
    }

    /** An unbuffered pipe reads a line byte by byte. */
    method ReadLine() returns (line: seq<Byte>)
      modifies this
      ensures line == old(data)[..LineLength(old(data))] && data == old(data)[LineLength(old(data))..]
    {
      line := [];
      ghost var all := data;
      var going := true;
      while going
        invariant all == line + data
        invariant going ==> NEWLINE !in line
        invariant !going ==> |line| == LineLength(all)
        decreases going, |data|
      {
        var chunk := Read(1);
        ghost var before := line;
        line := line + chunk;
        if chunk == [] {
          going := false;
          LineIs(all, |line|);
        } else if chunk[0] == NEWLINE {
          going := false;
          LineIs(all, |line|);
        }
      }
      assert line == all[..|line|];
    }
  }

  lemma {:induction false} LineIs(all: seq<Byte>, n: nat)
    requires n <= |all| && forall i :: 0 <= i < n - 1 ==> all[i] != NEWLINE
    requires n == |all| || (n > 0 && all[n - 1] == NEWLINE)
    ensures LineLength(all) == n
  {
  }

  class LspClient {
    const decode: Decoder
    const handled: Handler
    const stdout: Pipe
    var alive: bool
    /** The bodies handed on to be decoded as JSON. */
    var received: seq<seq<Byte>>

    constructor (decode: Decoder, handled: Handler, stdout: Pipe)
      ensures this.decode == decode && this.handled == handled && this.stdout == stdout && alive && received == []
    {
      this.decode, this.handled, this.stdout := decode, handled, stdout;
      alive, received := true, [];
    }

    /** The headers of one frame, or none if the stream ends first. */
    method ReadHeaderLines() returns (headers: Option<map<string, string>>)
      modifies stdout
      ensures match ReadHeaders(decode, old(stdout.data), map[])
              case None => headers == None && stdout.data == []
              case Some((h, rest)) => headers == Some(h) && stdout.data == rest
    {
      var found: map<string, string> := map[];
      while true
        invariant ReadHeaders(decode, old(stdout.data), map[]) == ReadHeaders(decode, stdout.data, found)
        decreases |stdout.data|
      {
        var line := stdout.ReadLine();
        if line == [] {
          return None;
        }
        var text := Strip(decode(line));
        if text == "" {
          return Some(found);
        }
        found := AddHeader(found, text);
      }
    }

    /** `n` bytes, however the pipe splits them, or fewer at the end of the stream. */
    method ReadBody(n: nat) returns (body: seq<Byte>)
      modifies stdout
      ensures old(stdout.data) == body + stdout.data
      ensures |body| <= n && (|body| < n ==> stdout.data == [])
    {
      body := [];
      while |body| < n
        invariant old(stdout.data) == body + stdout.data && |body| <= n
        decreases n - |body|
      {
        var chunk := stdout.Read(n - |body|);
        if chunk == [] {
          return;
        }
        body := body + chunk;
      }
    }

    /** One round of `_read_loop`. */
    method ReadRound() returns (step: Step)
      modifies stdout
      ensures (step, stdout.data) == ReadFrame(decode, old(stdout.data))
    {
      var headers := ReadHeaderLines();
      if headers.None? {
        return Stop(EndOfStream);
      }
      var length := BodyLength(headers.value);
      if length.None? {
        return Stop(BadLength);
      }
      var n := length.value;
      if n <= 0 {
        return Skip;
      }
      ghost var rest := stdout.data;
      var body := ReadBody(n);
      if |body| < n {
        return Stop(EndInBody);
      }
      assert body == rest[..n] && stdout.data == rest[n..];
      return Deliver(body);
    }

    /** `_read_loop`: what is delivered does not depend on the sizes of the pieces. A length or
        a body that raises ends the thread and leaves the client alive. */
    method ReadLoop() returns (end: End)
      requires alive && received == []
      modifies this, stdout
      ensures Reading(received, end, stdout.data) == ReadAll(decode, handled, old(stdout.data))
      ensures alive <==> end == BadLength || end == HandlerFailed
    {
      hide ReadFrame, Prepend;
      ghost var all := stdout.data;
      PrependNone([], ReadAll(decode, handled, all));
      while true
        invariant alive
        invariant Prepend(received, ReadAll(decode, handled, stdout.data)) == ReadAll(decode, handled, all)
        decreases |stdout.data|
      {
        ghost var before := stdout.data;
        var step := ReadRound();
        match step {
          case Stop(e) =>
            PrependNone(received, ReadAll(decode, handled, before));
            alive := e == BadLength;
            return e;
          case Skip =>
          case Deliver(body) =>
            if handled(body) {
              PrependTwice(received, [body], ReadAll(decode, handled, stdout.data));
              received := received + [body];
            } else {
              PrependLast(received, body, stdout.data);
              received := received + [body];
              return HandlerFailed;
            }
        }
      }
    }
  }
}
