/** Truncation in terms of the UTF-8 bytes of the body. */
module RedactionBytes {
  import opened Decimal
  import opened Redaction

  /** The bytes of a character, as section 3 of RFC 3629 lays them out. */
  function Encoded(c: char): (bytes: seq<nat>)
    ensures bytes != []
  {
    var u := c as int;
    if u < 0x80 then [u]
    else if u < 0x800 then [0xC0 + u / 0x40, 0x80 + u % 0x40]
    else if u < 0x1_0000 then [0xE0 + u / 0x1000, 0x80 + u / 0x40 % 0x40, 0x80 + u % 0x40]
    else [0xF0 + u / 0x4_0000, 0x80 + u / 0x1000 % 0x40, 0x80 + u / 0x40 % 0x40, 0x80 + u % 0x40]
  }

  function Bytes(s: string): seq<nat> {
    if s == [] then [] else Encoded(s[0]) + Bytes(s[1..])
  }

  /** A byte that does not begin a character. */
  predicate Continues(b: nat) {
    0x80 <= b < 0xC0
  }

  lemma {:induction false} OneCharacter(c: char)
    ensures |Encoded(c)| == Utf8Len(c)
    ensures !Continues(Encoded(c)[0]) && forall i :: 1 <= i < |Encoded(c)| ==> Continues(Encoded(c)[i])
  {
  }

  lemma {:induction false} BytesAreCounted(s: string)
    ensures |Bytes(s)| == ByteLen(s)
  {
    hide Encoded, Utf8Len;
    if s != [] {
      OneCharacter(s[0]);
      BytesAreCounted(s[1..]);
    }
  }

  /** A boundary is the end of the text, or a byte that begins a character. */
  lemma {:induction false} BoundaryIs(s: string, b: nat)
    ensures IsCharBoundary(s, b) <==>
            b == |Bytes(s)| || (b < |Bytes(s)| && !Continues(Bytes(s)[b]))
    decreases |s|
  {
    hide Encoded, Utf8Len, Continues;
    if s != [] {
      var first, rest := Encoded(s[0]), Bytes(s[1..]);
      OneCharacter(s[0]);
      if b >= |first| {
        BoundaryIs(s[1..], b - |first|);
        assert b < |Bytes(s)| ==> Bytes(s)[b] == rest[b - |first|];
      } else {
        assert Bytes(s)[b] == first[b];
      }
    }
  }

  /** A body of up to 512 bytes is kept; of a longer one as many whole characters as fit in 512
      bytes, followed by how many bytes are left out. */
  lemma {:induction false} TruncatedIs(body: string) returns (k: nat)
    ensures k <= |body|
    ensures |Bytes(body)| <= 512 ==> Truncated(body) == body
    ensures |Bytes(body)| > 512 ==>
              && |Bytes(body[..k])| <= 512
              && (forall m :: k < m <= |body| ==> |Bytes(body[..m])| > 512)
              && Truncated(body) == body[..k] + "... [" + Digits(|Bytes(body)| - |Bytes(body[..k])|)
                                    + " more bytes truncated]"
  {
    hide Bytes, ByteLen, FittingChars, Digits;
    k := FittingChars(body, ERROR_BODY_MAX);
    FittingIsLongest(body, ERROR_BODY_MAX);
    BytesAreCounted(body);
    BytesAreCounted(body[..k]);
    ByteLenOfParts(body[..k], body[k..]);
    assert body[..k] + body[k..] == body;
    if |Bytes(body)| > 512 {
      forall m | k < m <= |body| ensures |Bytes(body[..m])| > 512 {
        BytesAreCounted(body[..m]);
        assert body[..m] == body[..k + 1] + body[k + 1..m];
        ByteLenOfParts(body[..k + 1], body[k + 1..m]);
      }
    }
  }
}
