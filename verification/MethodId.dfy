/** The generated ids of methods and members: 32-bit hashes with wrapping arithmetic. Values of
    type `i32` are modelled by their bit patterns, as numbers below 2^32. */
module MethodId {

  const WORD := 0x1_0000_0000
  const HALF := 0x8000_0000

  type Word = n: nat | n < WORD
  type Byte = n: nat | n < 256
  type Unit = n: nat | n < 0x1_0000

  /** The number a bit pattern stands for, and back. */
  function Signed(h: Word): (i: int)
    ensures -HALF <= i < HALF
  {
    if h < HALF then h else h - WORD
  }

  function Pattern(i: int): Word {
    i % WORD
  }

  // ----- Exclusive or -----

  function Xor(a: nat, b: nat): nat {
    if a == 0 && b == 0 then 0 else 2 * Xor(a / 2, b / 2) + if a % 2 == b % 2 then 0 else 1
  }

  function Pow2(k: nat): (p: nat)
    ensures p > 0
  {
    if k == 0 then 1 else 2 * Pow2(k - 1)
  }

  lemma {:induction false} XorCancels(a: nat, b: nat)
    ensures Xor(Xor(a, b), b) == a
  {
    if a != 0 || b != 0 {
      XorCancels(a / 2, b / 2);
    }
  }

  lemma {:induction false} XorZero(b: nat)
    ensures Xor(0, b) == b && Xor(b, 0) == b
  {
    if b != 0 {
      XorZero(b / 2);
    }
  }

  lemma {:induction false} XorCommutes(a: nat, b: nat)
    ensures Xor(a, b) == Xor(b, a)
  {
    if a != 0 || b != 0 {
      XorCommutes(a / 2, b / 2);
    }
  }

  /** Exclusive or is injective in either argument. */
  lemma {:induction false} XorInjective(a: nat, b: nat, c: nat)
    ensures Xor(a, c) == Xor(b, c) <==> a == b
    ensures Xor(c, a) == Xor(c, b) <==> a == b
  {
    XorCancels(a, c);
    XorCancels(b, c);
    XorCommutes(a, c);
    XorCommutes(b, c);
  }

  lemma {:induction false} XorBound(a: nat, b: nat, k: nat)
    requires a < Pow2(k) && b < Pow2(k)
    ensures Xor(a, b) < Pow2(k)
  {
    if k > 0 && (a != 0 || b != 0) {
      XorBound(a / 2, b / 2, k - 1);
    }
  }

  function XorWord(a: Word, b: Word): Word {
    WordIsPow2();
    XorBound(a, b, 32);
    Xor(a, b)
  }

  lemma {:induction false} Pow2Adds(j: nat, k: nat)
    ensures Pow2(j + k) == Pow2(j) * Pow2(k)
  {
    if j > 0 {
      Pow2Adds(j - 1, k);
    }
  }

  lemma {:induction false} WordIsPow2()
    ensures Pow2(8) == 256 && Pow2(32) == WORD
  {
    assert Pow2(2) == 4;
    Pow2Adds(2, 2);
    Pow2Adds(4, 4);
    Pow2Adds(8, 8);
    Pow2Adds(16, 16);
  }

  function Shift(a: nat, k: nat): nat {
    if k == 0 then a else Shift(a / 2, k - 1)
  }

  lemma {:induction false} XorShifts(a: nat, b: nat, k: nat)
    requires b < Pow2(k)
    ensures Shift(Xor(a, b), k) == Shift(a, k)
    decreases k
  {
    if k == 0 {
      XorZero(a);
    } else {
      XorShifts(a / 2, b / 2, k - 1);
      assert Xor(a, b) / 2 == Xor(a / 2, b / 2);
    }
  }

  lemma {:induction false} ShiftByByte(a: nat)
    ensures Shift(a, 8) == a / 256
  {
    ShiftByFour(a);
    ShiftByFour(a / 16);
    assert Shift(a, 8) == Shift(a / 2 / 2, 6) == Shift(a / 2 / 2 / 2 / 2, 4);
  }

  lemma {:induction false} ShiftByFour(a: nat)
    ensures Shift(a, 4) == a / 16 == a / 2 / 2 / 2 / 2
  {
    assert Shift(a, 4) == Shift(a / 2 / 2, 2) == Shift(a / 2 / 2 / 2 / 2, 0);
  }

  /** Exclusive or with a byte changes the low byte only. */
  lemma {:induction false} XorKeepsHigh(a: nat, b: Byte)
    ensures Xor(a, b) / 256 == a / 256
  {
    WordIsPow2();
    XorShifts(a, b, 8);
    ShiftByByte(a);
    ShiftByByte(Xor(a, b));
  }

  // ----- The hash of bytes -----

  const FNV_OFFSET_BIAS: Word := Pattern(-2128831035)
  const FNV_PRIME: Word := 16777619

  /** Multiplied by the prime this is 1, wrapping around. */
  const PRIME_INVERSE: Word := 0x359C449B

  function Step(h: Word, b: Byte): Word {
    XorWord(h, b) * FNV_PRIME % WORD
  }

  /** The hash behind `h` of more bytes. */
  function FnvFrom(h: Word, bytes: seq<Byte>): Word {
    if bytes == [] then h else Step(FnvFrom(h, bytes[..|bytes| - 1]), bytes[|bytes| - 1])
  }

  function Fnv(bytes: seq<Byte>): Word {
    FnvFrom(FNV_OFFSET_BIAS, bytes)
  }

  /** `fnv1_hash_bytes`. */
  method FnvHashBytes(data: seq<Byte>) returns (num: Word)
    ensures num == Fnv(data)
  {
    num := FNV_OFFSET_BIAS;
    for i := 0 to |data|
      invariant num == Fnv(data[..i])
    {
      assert data[..i + 1][..i] == data[..i];
      num := XorWord(num, data[i]) * FNV_PRIME % WORD;
    }
    assert data[..|data|] == data;
  }

  /** `char::encode_utf16`. */
  function Units(c: char): seq<Unit> {
    var n := c as int;
    if n < 0x1_0000 then [n] else [0xD800 + (n - 0x1_0000) / 0x400, 0xDC00 + (n - 0x1_0000) % 0x400]
  }

  function Utf16(s: string): seq<Unit> {
    if s == [] then [] else Utf16(s[..|s| - 1]) + Units(s[|s| - 1])
  }

  /** `to_le_bytes`. */
  function LittleEndian(units: seq<Unit>): seq<Byte> {
    if units == [] then [] else
    var u := units[|units| - 1];
    LittleEndian(units[..|units| - 1]) + [u % 256, u / 256]
  }

  lemma {:induction false} FnvAppends(h: Word, x: seq<Byte>, y: seq<Byte>)
    ensures FnvFrom(h, x + y) == FnvFrom(FnvFrom(h, x), y)
  {
    hide Step;
    if y == [] {
      assert x + y == x;
    } else {
      assert (x + y)[..|x + y| - 1] == x + y[..|y| - 1];
      FnvAppends(h, x, y[..|y| - 1]);
    }
  }

  lemma {:induction false} FnvTwo(h: Word, b: Byte, c: Byte)
    ensures FnvFrom(h, [b, c]) == Step(Step(h, b), c)
  {
    hide Step;
    assert [b, c][..1] == [b] && [b][..0] == [];
    assert FnvFrom(h, [b]) == Step(h, b);
  }

  /** `fnv1_utf16`: the loop over the code units and their bytes hashes the UTF-16LE bytes. */
  method FnvUtf16(s: string) returns (num: Word)
    ensures num == Fnv(LittleEndian(Utf16(s)))
  {
    hide Step;
    num := FNV_OFFSET_BIAS;
    var units := Utf16(s);
    for i := 0 to |units|
      invariant num == Fnv(LittleEndian(units[..i]))
    {
      var bytes := [units[i] % 256, units[i] / 256];
      assert units[..i + 1][..i] == units[..i];
      FnvAppends(FNV_OFFSET_BIAS, LittleEndian(units[..i]), bytes);
      ghost var before := num;
      for j := 0 to 2
        invariant num == FnvFrom(before, bytes[..j])
      {
        assert bytes[..j + 1][..j] == bytes[..j];
        num := Step(num, bytes[j]);
      }
      assert bytes[..2] == bytes;
    }
    assert units[..|units|] == units;
  }

  // ----- Different texts -----

  lemma {:induction false} MultiplyInvertible(x: Word)
    ensures x * FNV_PRIME % WORD * PRIME_INVERSE % WORD == x
  {
    var q := x * FNV_PRIME / WORD;
    assert FNV_PRIME * PRIME_INVERSE % WORD == 1;
    var k := FNV_PRIME * PRIME_INVERSE / WORD;
    assert x * FNV_PRIME % WORD * PRIME_INVERSE == x + WORD * (k * x - q * PRIME_INVERSE);
    Remainder(x * FNV_PRIME % WORD * PRIME_INVERSE, x, k * x - q * PRIME_INVERSE);
  }

  lemma {:induction false} Remainder(a: int, x: Word, m: int)
    requires a == x + WORD * m
    ensures a % WORD == x
  {
  }

  /** One step is a bijection of the state, and tells any two bytes apart. */
  lemma {:induction false} StepInjective(h: Word, i: Word, b: Byte, c: Byte)
    ensures Step(h, b) == Step(i, b) <==> h == i
    ensures Step(h, b) == Step(h, c) <==> b == c
  {
    MultiplyInvertible(XorWord(h, b));
    MultiplyInvertible(XorWord(i, b));
    MultiplyInvertible(XorWord(h, c));
    XorInjective(h, i, b);
    XorInjective(b, c, h);
  }

  /** A common end decides nothing. */
  lemma {:induction false} FnvCancels(h: Word, i: Word, bytes: seq<Byte>)
    ensures FnvFrom(h, bytes) == FnvFrom(i, bytes) <==> h == i
  {
    hide Step;
    if bytes != [] {
      var n := |bytes| - 1;
      FnvCancels(h, i, bytes[..n]);
      StepInjective(FnvFrom(h, bytes[..n]), FnvFrom(i, bytes[..n]), bytes[n], 0);
    }
  }

  /** Data that differ in one byte never share a hash. */
  lemma {:induction false} OneByteApart(x: seq<Byte>, b: Byte, c: Byte, y: seq<Byte>)
    ensures Fnv(x + [b] + y) == Fnv(x + [c] + y) <==> b == c
  {
    hide Step;
    FnvAppends(FNV_OFFSET_BIAS, x + [b], y);
    FnvAppends(FNV_OFFSET_BIAS, x + [c], y);
    FnvCancels(Fnv(x + [b]), Fnv(x + [c]), y);
    assert (x + [b])[..|x|] == x && (x + [c])[..|x|] == x;
    StepInjective(Fnv(x), Fnv(x), b, c);
  }

  /** Words that differ in the low byte only are far apart once multiplied. */
  lemma {:induction false} MultipliedApart(x: Word, y: Word)
    requires x / 256 == y / 256 && x * FNV_PRIME % WORD / 256 == y * FNV_PRIME % WORD / 256
    ensures x == y
  {
    var d := x - y;
    assert -256 < d < 256;
    var e := x * FNV_PRIME % WORD - y * FNV_PRIME % WORD;
    assert -256 < e < 256;
    var m := x * FNV_PRIME / WORD - y * FNV_PRIME / WORD;
    assert d * FNV_PRIME == m * WORD + e;
  }

  lemma {:induction false} TwoStepsInjective(h: Word, a: Byte, b: Byte, c: Byte, d: Byte)
    ensures Step(Step(h, a), b) == Step(Step(h, c), d) <==> a == c && b == d
  {
    var x, y := XorWord(h, a), XorWord(h, c);
    var u, v := Step(h, a), Step(h, c);
    if Step(u, b) == Step(v, d) {
      MultiplyInvertible(XorWord(u, b));
      MultiplyInvertible(XorWord(v, d));
      XorKeepsHigh(h, a);
      XorKeepsHigh(h, c);
      XorKeepsHigh(u, b);
      XorKeepsHigh(v, d);
      MultipliedApart(x, y);
      XorInjective(a, c, h);
      XorInjective(b, d, u);
    }
  }

  /** Names that differ in one UTF-16 code unit never share a hash. */
  lemma {:induction false} OneUnitApart(x: seq<Unit>, u: Unit, v: Unit, y: seq<Unit>)
    ensures Fnv(LittleEndian(x + [u] + y)) == Fnv(LittleEndian(x + [v] + y)) <==> u == v
  {
    hide Step;
    UnitBetween(x, u, y);
    UnitBetween(x, v, y);
    var h := Fnv(LittleEndian(x));
    var p, q := Step(Step(h, u % 256), u / 256), Step(Step(h, v % 256), v / 256);
    FnvCancels(p, q, LittleEndian(y));
    TwoStepsInjective(h, u % 256, u / 256, v % 256, v / 256);
  }

  lemma {:induction false} BytesAppend(x: seq<Unit>, y: seq<Unit>)
    ensures LittleEndian(x + y) == LittleEndian(x) + LittleEndian(y)
  {
    if y == [] {
      assert x + y == x;
    } else {
      assert (x + y)[..|x + y| - 1] == x + y[..|y| - 1];
      BytesAppend(x, y[..|y| - 1]);
    }
  }

  lemma {:induction false} UnitBetween(x: seq<Unit>, u: Unit, y: seq<Unit>)
    ensures Fnv(LittleEndian(x + [u] + y)) ==
            FnvFrom(Step(Step(Fnv(LittleEndian(x)), u % 256), u / 256), LittleEndian(y))
  {
    hide Step;
    BytesAppend(x + [u], y);
    BytesAppend(x, [u]);
    assert [u][..0] == [];
    assert LittleEndian([u]) == [u % 256, u / 256];
    FnvAppends(FNV_OFFSET_BIAS, LittleEndian(x + [u]), LittleEndian(y));
    FnvAppends(FNV_OFFSET_BIAS, LittleEndian(x), [u % 256, u / 256]);
    FnvTwo(Fnv(LittleEndian(x)), u % 256, u / 256);
  }

  lemma {:induction false} Utf16Appends(x: string, y: string)
    ensures Utf16(x + y) == Utf16(x) + Utf16(y)
  {
    if y == [] {
      assert x + y == x;
    } else {
      assert (x + y)[..|x + y| - 1] == x + y[..|y| - 1];
      Utf16Appends(x, y[..|y| - 1]);
    }
  }

  /** In particular texts that differ in one character of the basic plane. */
  lemma {:induction false} OneCharacterApart(x: string, c: char, d: char, y: string)
    requires c as int < 0x1_0000 && d as int < 0x1_0000
    ensures Fnv(LittleEndian(Utf16(x + [c] + y))) == Fnv(LittleEndian(Utf16(x + [d] + y))) <==> c == d
  {
    hide LittleEndian, Fnv;
    UnitOfCharacter(x, c, y);
    UnitOfCharacter(x, d, y);
    OneUnitApart(Utf16(x), c as int, d as int, Utf16(y));
  }

  lemma {:induction false} UnitOfCharacter(x: string, c: char, y: string)
    requires c as int < 0x1_0000
    ensures Utf16(x + [c] + y) == Utf16(x) + [c as int] + Utf16(y)
  {
    Utf16Appends(x + [c], y);
    Utf16Appends(x, [c]);
    assert [c][..0] == [];
    assert Utf16([c]) == [c as int];
  }

  // ----- Combining -----

  /** `h >> 27` on a signed word. */
  function SignedShift27(h: Word): (q: int)
    ensures -16 <= q < 16
  {
    if h < HALF then h / BLOCK else h / BLOCK - 32
  }

  /** `(h << 5) + h + (h >> 27)`, wrapping at every step. */
  function Mix(h: Word): Word {
    ((h * 32 % WORD + h) % WORD + SignedShift27(h)) % WORD
  }

  /** `combine`. */
  function Combine(h: Word, value: Word): Word {
    XorWord(Mix(h), value)
  }

  /** The second argument is never lost. */
  lemma {:induction false} CombineInjective(h: Word, a: Word, b: Word)
    ensures Combine(h, a) == Combine(h, b) <==> a == b
  {
    XorInjective(a, b, Mix(h));
  }

  lemma {:induction false} WrapsOnce(a: int, b: int)
    ensures (a % WORD + b) % WORD == (a + b) % WORD
  {
    var q := a / WORD;
    assert a + b == a % WORD + b + WORD * q;
    Remainder(a + b, (a % WORD + b) % WORD, q + (a % WORD + b) / WORD);
  }

  lemma {:induction false} MixIs(h: Word)
    ensures Mix(h) == (33 * h + SignedShift27(h)) % WORD
  {
    hide SignedShift27;
    WrapsOnce(h * 32, h);
    WrapsOnce(h * 32 + h, SignedShift27(h));
  }

  /** Times 33 this is 1, wrapping around. */
  const MIX_INVERSE: Word := 0x3E0F_83E1

  /** The top five bits of the two words differ by what the rest of them makes up for. */
  predicate Collides(h: Word, i: Word) {
    i == (h + (SignedShift27(h) - SignedShift27(i)) * MIX_INVERSE) % WORD
  }

  lemma {:induction false} SameRemainder(a: int, b: int, m: int)
    requires a == b + WORD * m
    ensures a % WORD == b % WORD
  {
    Remainder(a, b % WORD, m + b / WORD);
  }

  lemma {:induction false} Divided(h: Word, i: Word, d: int, m: int)
    requires 33 * (h - i) + d == WORD * m
    ensures i == (h + d * MIX_INVERSE) % WORD
  {
    assert MIX_INVERSE * 33 == 1 + 8 * WORD;
    assert MIX_INVERSE * (33 * (h - i)) == (h - i) + 8 * WORD * (h - i);
    assert h + d * MIX_INVERSE == i + WORD * (m * MIX_INVERSE - 8 * (h - i));
    Remainder(h + d * MIX_INVERSE, i, m * MIX_INVERSE - 8 * (h - i));
  }

  lemma {:induction false} Multiplied(h: Word, i: Word, p: int, q: int, w: int)
    requires h + (p - q) * MIX_INVERSE == i + WORD * w
    ensures (33 * h + p) % WORD == (33 * i + q) % WORD
  {
    assert 33 * h + p == 33 * i + q + WORD * (33 * w - 8 * (p - q));
    SameRemainder(33 * h + p, 33 * i + q, 33 * w - 8 * (p - q));
  }

  /** Exactly when the first argument is lost: two words are mixed to the same word if and only
      if they collide. */
  lemma {:induction false} MixLoses(h: Word, i: Word)
    ensures Mix(h) == Mix(i) <==> Collides(h, i)
  {
    hide Mix, SignedShift27;
    var p, q := SignedShift27(h), SignedShift27(i);
    MixIs(h);
    MixIs(i);
    if Mix(h) == Mix(i) {
      Divided(h, i, p - q, (33 * h + p) / WORD - (33 * i + q) / WORD);
    }
    if Collides(h, i) {
      Multiplied(h, i, p, q, (h + (p - q) * MIX_INVERSE) / WORD);
    }
  }

  /** Words with the same five top bits never collide. */
  lemma {:induction false} SameTopKept(h: Word, i: Word)
    requires SignedShift27(h) == SignedShift27(i)
    ensures Mix(h) == Mix(i) <==> h == i
  {
    hide Mix, SignedShift27;
    MixLoses(h, i);
    assert (SignedShift27(h) - SignedShift27(i)) * MIX_INVERSE == 0;
  }

  const BLOCK := 0x800_0000

  /** Words less than two blocks of 2^27 apart lie in blocks at most two apart. */
  lemma {:induction false} BlocksNear(h: Word, i: Word, delta: int)
    requires i == (h + delta) % WORD && -2 * BLOCK < delta < 2 * BLOCK
    ensures var d := SignedShift27(h) - SignedShift27(i); -2 <= d <= 2 || 30 <= d <= 31 || -31 <= d <= -30
  {
    var w := (h + delta) / WORD;
    assert h + delta == i + WORD * w && -1 <= w <= 1;
    var s, t := h / BLOCK, i / BLOCK;
    assert -2 <= t + 32 * w - s <= 2;
  }

  lemma {:induction false} FarMultiple(delta: int, d: int, m: int)
    requires -2 * BLOCK < delta < 2 * BLOCK
    requires -2 <= d <= 2 || 30 <= d <= 31 || -31 <= d <= -30
    requires delta == d * MIX_INVERSE + WORD * m
    ensures d == 0 && delta == 0
  {
  }

  /** Nor do words that are near each other, going round. */
  lemma {:induction false} MixInjective(h: Word, i: Word, delta: int)
    requires i == (h + delta) % WORD && -2 * BLOCK < delta < 2 * BLOCK
    ensures Mix(h) == Mix(i) <==> h == i
  {
    hide Mix, SignedShift27;
    MixLoses(h, i);
    if Collides(h, i) {
      BlocksNear(h, i, delta);
      var d := SignedShift27(h) - SignedShift27(i);
      var v, w := (h + delta) / WORD, (h + d * MIX_INVERSE) / WORD;
      FarMultiple(delta, d, v - w);
    }
  }

  /** Two words that do collide: no later value tells them apart. */
  lemma {:induction false} MixCollides(value: Word)
    ensures Collides(0x8555_5556, 0x3000_0000)
    ensures Combine(0x8555_5556, value) == Combine(0x3000_0000, value)
  {
    hide XorWord, Mix, SignedShift27;
    CollidingShifts();
    Remainder(0x8555_5556 - 22 * MIX_INVERSE, 0x3000_0000, -5);
    MixLoses(0x8555_5556, 0x3000_0000);
  }

  lemma {:induction false} CollidingShifts()
    ensures SignedShift27(0x8555_5556) == -16 && SignedShift27(0x3000_0000) == 6
  {
  }

  // ----- Method ids -----

  /** `ParamSig`: the values are `i32`, by their bit patterns. */
  datatype Param = Param(kind: Word, isVar: bool, subtype: Word)

  function BoolHash(b: bool): Word {
    if b then 1 else 0
  }

  function AddParam(h: Word, index: nat, p: Param, disambiguate: bool): Word {
    var k := Combine(Combine(Combine(h, index % WORD), BoolHash(p.isVar)), p.kind);
    if disambiguate then Combine(k, p.subtype) else k
  }

  /** The hash behind `h` of the parameters. */
  function AddParams(h: Word, params: seq<Param>, disambiguate: bool): Word {
    if params == [] then h else
    var n := |params| - 1;
    AddParam(AddParams(h, params[..n], disambiguate), n, params[n], disambiguate)
  }

  /** `to_upper_invariant`: a character whose upper case is not one character stays. */
  function Upper(upper: char -> string, s: string): (u: string)
    ensures |u| == |s|
  {
    if s == [] then [] else
    var c := s[|s| - 1];
    Upper(upper, s[..|s| - 1]) + [if |upper(c)| == 1 then upper(c)[0] else c]
  }

  /** `adjust_for_system_codeunits`. */
  function Adjusted(h: Word, objectId: int): (id: int)
    ensures objectId >= 2_000_000_000 ==> 0 <= id < 1_250_000_000
    ensures objectId < 2_000_000_000 ==> id == Signed(h)
  {
    if objectId >= 2_000_000_000 then (if Signed(h) < 0 then -Signed(h) else Signed(h)) % 1_250_000_000
    else Signed(h)
  }

  /** `member_id`. */
  function MemberId(s: string): int {
    var h := Signed(Fnv(LittleEndian(Utf16(s))));
    if h == -HALF then HALF - 1 else if h < 0 then -h else h
  }

  /** The absolute value of the text's hash, or the largest number for the one hash that has
      none. */
  lemma {:induction false} MemberIdIsAbsolute(s: string)
    ensures var h := Signed(Fnv(LittleEndian(Utf16(s))));
            && 0 <= MemberId(s) < HALF
            && (h != -HALF <==> MemberId(s) == h || MemberId(s) == -h)
            && (h == -HALF ==> MemberId(s) == HALF - 1)
  {
    hide Fnv, LittleEndian, Utf16;
  }

  /** The three hashes whose member id is the largest number. */
  predicate AtLimit(h: int) {
    h == -HALF || h == HALF - 1 || h == -(HALF - 1)
  }

  /** Two texts share a member id exactly if their hashes are equal or opposite, or both at the
      limit. */
  lemma {:induction false} MemberIdsCoincide(s: string, t: string)
    ensures var h, i := Signed(Fnv(LittleEndian(Utf16(s)))), Signed(Fnv(LittleEndian(Utf16(t))));
            MemberId(s) == MemberId(t) <==> h == i || h == -i || (AtLimit(h) && AtLimit(i))
  {
    hide Fnv, LittleEndian, Utf16;
  }

  function Id(upper: char -> string, name: string, returnKind: Word, params: seq<Param>, disambiguate: bool,
              objectId: int): int {
    Adjusted(AddParams(Combine(Fnv(LittleEndian(Utf16(Upper(upper, name)))), returnKind), params, disambiguate),
             objectId)
  }

  /** `method_id`. */
  method CalculateMethodId(upper: char -> string, name: string, returnKind: Word, params: seq<Param>,
                           disambiguate: bool, objectId: int) returns (id: int)
    ensures id == Id(upper, name, returnKind, params, disambiguate, objectId)
  {
    hide Combine, AddParam, Adjusted;
    var h := FnvUtf16(Upper(upper, name));
    h := Combine(h, returnKind);
    ghost var start := h;
    for i := 0 to |params|
      invariant h == AddParams(start, params[..i], disambiguate)
    {
      assert params[..i + 1][..i] == params[..i];
      AddParamIs(h, i, params[i], disambiguate);
      h := Combine(Combine(Combine(h, i % WORD), BoolHash(params[i].isVar)), params[i].kind);
      if disambiguate {
        h := Combine(h, params[i].subtype);
      }
    }
    assert params[..|params|] == params;
    id := Adjusted(h, objectId);
  }

  lemma {:induction false} AddParamIs(h: Word, index: nat, p: Param, disambiguate: bool)
    ensures AddParam(h, index, p, disambiguate) ==
            var k := Combine(Combine(Combine(h, index % WORD), BoolHash(p.isVar)), p.kind);
            if disambiguate then Combine(k, p.subtype) else k
  {
  }

  lemma {:induction false} SignedInjective(h: Word, i: Word)
    ensures Signed(h) == Signed(i) <==> h == i
    ensures Pattern(Signed(h)) == h
  {
  }

  /** How far apart two words are, going round. */
  predicate Apart(h: Word, i: Word, bound: nat) {
    (h - i) % WORD < bound || (i - h) % WORD < bound
  }

  lemma {:induction false} CombineTellsNear(h: Word, i: Word, value: Word)
    requires Apart(h, i, 2 * BLOCK)
    ensures Combine(h, value) == Combine(i, value) <==> h == i
  {
    hide Mix;
    var delta := if (i - h) % WORD < 2 * BLOCK then (i - h) % WORD else -((h - i) % WORD);
    assert i == (h + delta) % WORD;
    MixInjective(h, i, delta);
    XorInjective(Mix(h), Mix(i), value);
  }

  lemma {:induction false} ShiftAdds(a: nat, j: nat, k: nat)
    ensures Shift(a, j + k) == Shift(Shift(a, j), k)
  {
    if j > 0 {
      ShiftAdds(a / 2, j - 1, k);
    }
  }

  lemma {:induction false} ShiftByBlock(a: nat)
    ensures Shift(a, 27) == a / BLOCK
  {
    hide Shift;
    ShiftAdds(a, 8, 19);
    ShiftAdds(a / 256, 8, 11);
    ShiftAdds(a / 256 / 256, 8, 3);
    ShiftByByte(a);
    ShiftByByte(a / 256);
    ShiftByByte(a / 256 / 256);
    ShiftByThree(a / 256 / 256 / 256);
  }

  lemma {:induction false} ShiftByThree(a: nat)
    ensures Shift(a, 3) == a / 8
  {
    assert Shift(a, 3) == Shift(a / 2 / 2, 1) == Shift(a / 2 / 2 / 2, 0);
  }

  /** A small value stays within the block. */
  lemma {:induction false} XorKeepsBlock(a: Word, b: Word)
    requires b < BLOCK
    ensures XorWord(a, b) / BLOCK == a / BLOCK
  {
    assert Pow2(27) == BLOCK by {
      assert Pow2(3) == 8;
      WordIsPow2();
      Pow2Adds(8, 8);
      Pow2Adds(16, 8);
      Pow2Adds(24, 3);
    }
    XorShifts(a, b, 27);
    ShiftByBlock(a);
    ShiftByBlock(XorWord(a, b));
  }

  lemma {:induction false} BitChanges(a: Word)
    ensures XorWord(a, 0) == a && -1 <= XorWord(a, 1) - a <= 1 && XorWord(a, 1) != a
    ensures XorWord(a, 1) / BLOCK == a / BLOCK
  {
    XorZero(a);
    XorInjective(0, 1, a);
    assert Xor(a, 1) == 2 * Xor(a / 2, 0) + 1 - a % 2;
    XorZero(a / 2);
    XorKeepsBlock(a, 1);
  }

  /** Neighbours in one block stay near each other when mixed and combined with small values. */
  lemma {:induction false} NeighboursMixed(h: Word, i: Word, kind: Word)
    requires -1 <= i - h <= 1 && h / BLOCK == i / BLOCK && kind < BLOCK
    ensures Apart(Combine(h, kind), Combine(i, kind), 2 * BLOCK)
  {
    hide Mix, SignedShift27, XorWord;
    MixIs(h);
    MixIs(i);
    assert SignedShift27(h) == SignedShift27(i) by {
      SameBlock(h, i);
    }
    var x, y := Mix(h), Mix(i);
    XorKeepsBlock(x, kind);
    XorKeepsBlock(y, kind);
    MovedBy(33 * h + SignedShift27(h), 33 * i + SignedShift27(i));
    NearAfterXor(x, y, XorWord(x, kind), XorWord(y, kind));
  }

  lemma {:induction false} SameBlock(h: Word, i: Word)
    requires h / BLOCK == i / BLOCK
    ensures SignedShift27(h) == SignedShift27(i)
  {
  }

  lemma {:induction false} MovedBy(a: int, b: int)
    requires -33 <= b - a <= 33
    ensures (a % WORD - b % WORD) % WORD <= 33 || (b % WORD - a % WORD) % WORD <= 33
  {
  }

  lemma {:induction false} NearAfterXor(x: Word, y: Word, u: Word, v: Word)
    requires (x - y) % WORD <= 33 || (y - x) % WORD <= 33
    requires u / BLOCK == x / BLOCK && v / BLOCK == y / BLOCK
    ensures Apart(u, v, 2 * BLOCK)
  {
    if (x - y) % WORD <= 33 {
      Neighbours(x, y);
      NearInBlocks(u, v);
    } else {
      Neighbours(y, x);
      NearInBlocks(v, u);
    }
  }

  lemma {:induction false} Neighbours(x: Word, y: Word)
    requires (x - y) % WORD <= 33
    ensures var s, t := x / BLOCK, y / BLOCK; s == t || s == t + 1 || (s == 0 && t == 31)
  {
  }

  lemma {:induction false} NearInBlocks(u: Word, v: Word)
    requires var s, t := u / BLOCK, v / BLOCK; s == t || s == t + 1 || (s == 0 && t == 31)
    ensures Apart(u, v, 2 * BLOCK)
  {
    var s, t := u / BLOCK, v / BLOCK;
    if s == t + 1 {
      assert 0 < u - v < 2 * BLOCK;
    } else if s != t {
      assert 0 < u - v + WORD < 2 * BLOCK;
      Remainder(u - v, u - v + WORD, -1);
    } else {
      assert -BLOCK < u - v < BLOCK;
    }
  }

  /** The hash with a parameter up to its kind. */
  function KindWord(h: Word, index: nat, p: Param): Word {
    Combine(Combine(Combine(h, index % WORD), BoolHash(p.isVar)), p.kind)
  }

  lemma {:induction false} CombineLoses(h: Word, i: Word, value: Word)
    ensures Combine(h, value) == Combine(i, value) <==> Collides(h, i)
  {
    hide Mix, Collides;
    MixLoses(h, i);
    XorInjective(Mix(h), Mix(i), value);
  }

  /** Exactly when two parameters add up to the same hash: without a subtype behind them if
      their words are the same, with the same subtype behind them if these collide, and with
      the same word before different subtypes never. */
  lemma {:induction false} ParamsCoincide(h: Word, index: nat, p: Param, q: Param, disambiguate: bool)
    ensures !disambiguate ==>
              (AddParam(h, index, p, false) == AddParam(h, index, q, false)
               <==> KindWord(h, index, p) == KindWord(h, index, q))
    ensures disambiguate && p.subtype == q.subtype ==>
              (AddParam(h, index, p, true) == AddParam(h, index, q, true)
               <==> Collides(KindWord(h, index, p), KindWord(h, index, q)))
    ensures disambiguate && KindWord(h, index, p) == KindWord(h, index, q) ==>
              (AddParam(h, index, p, true) == AddParam(h, index, q, true) <==> p.subtype == q.subtype)
  {
    hide Combine, Collides, BoolHash;
    CombineLoses(KindWord(h, index, p), KindWord(h, index, q), p.subtype);
    CombineInjective(KindWord(h, index, p), p.subtype, q.subtype);
  }

  /** Parameters that differ in one value have different words up to the kind, unless it is the
      subtype. */
  lemma {:induction false} KindWordsDiffer(h: Word, index: nat, p: Param, q: Param)
    requires OneValueApart(p, q)
    ensures KindWord(h, index, p) == KindWord(h, index, q) <==> p.subtype != q.subtype
  {
    hide Combine, Apart;
    var a := Combine(h, index % WORD);
    if p.kind != q.kind {
      CombineInjective(Combine(a, BoolHash(p.isVar)), p.kind, q.kind);
    } else if p.isVar != q.isVar {
      VarChanges(a, p.isVar, q.isVar);
      CombineTellsNear(Combine(a, BoolHash(p.isVar)), Combine(a, BoolHash(q.isVar)), p.kind);
    }
  }

  /** For small kinds the words stay near each other, so that even a subtype combined behind
      them keeps them apart. */
  lemma {:induction false} SmallKindsNear(h: Word, index: nat, p: Param, q: Param)
    requires OneValueApart(p, q) && p.kind < BLOCK && q.kind < BLOCK
    ensures Apart(KindWord(h, index, p), KindWord(h, index, q), 2 * BLOCK)
  {
    hide Combine, Mix, XorWord, Apart;
    var a := Combine(h, index % WORD);
    if p.isVar == q.isVar {
      KindsStayNear(Combine(a, BoolHash(p.isVar)), p.kind, q.kind);
    } else {
      VarChanges(a, p.isVar, q.isVar);
      NeighboursMixed(Combine(a, BoolHash(p.isVar)), Combine(a, BoolHash(q.isVar)), p.kind);
    }
  }

  /** One value of a parameter changes the hash. Kinds must be small only if a subtype that is
      the same for both is combined behind them. */
  lemma {:induction false} LastParamDiffers(h: Word, index: nat, p: Param, q: Param, disambiguate: bool)
    requires OneValueApart(p, q) && (!disambiguate ==> p.subtype == q.subtype)
    requires disambiguate && p.subtype == q.subtype ==> p.kind < BLOCK && q.kind < BLOCK
    ensures AddParam(h, index, p, disambiguate) != AddParam(h, index, q, disambiguate)
  {
    hide AddParam, KindWord, Combine, Apart, Collides, OneValueApart;
    ParamsCoincide(h, index, p, q, disambiguate);
    KindWordsDiffer(h, index, p, q);
    if disambiguate && p.subtype == q.subtype {
      SmallKindsNear(h, index, p, q);
      CombineTellsNear(KindWord(h, index, p), KindWord(h, index, q), p.subtype);
      CombineLoses(KindWord(h, index, p), KindWord(h, index, q), p.subtype);
    }
  }

  lemma {:induction false} KindsStayNear(b: Word, j: Word, k: Word)
    requires j < BLOCK && k < BLOCK
    ensures Apart(Combine(b, j), Combine(b, k), 2 * BLOCK)
  {
    hide Mix, XorWord;
    XorKeepsBlock(Mix(b), j);
    XorKeepsBlock(Mix(b), k);
  }

  lemma {:induction false} VarChanges(a: Word, v: bool, w: bool)
    requires v != w
    ensures var b, c := Combine(a, BoolHash(v)), Combine(a, BoolHash(w));
            b != c && -1 <= c - b <= 1 && b / BLOCK == c / BLOCK && Apart(b, c, 2 * BLOCK)
  {
    hide Mix, XorWord;
    BitChanges(Mix(a));
  }

  predicate OneValueApart(p: Param, q: Param) {
    || (p.kind != q.kind && p.isVar == q.isVar && p.subtype == q.subtype)
    || (p.kind == q.kind && p.isVar != q.isVar && p.subtype == q.subtype)
    || (p.kind == q.kind && p.isVar == q.isVar && p.subtype != q.subtype)
  }

  /** Methods of a user object that differ only in the value combined last have different ids:
      in the return kind without parameters ... */
  lemma {:induction false} ReturnKindShows(upper: char -> string, name: string, a: Word, b: Word, disambiguate: bool,
                                           objectId: int)
    requires objectId < 2_000_000_000
    ensures Id(upper, name, a, [], disambiguate, objectId) == Id(upper, name, b, [], disambiguate, objectId) <==> a == b
  {
    hide Combine;
    var h := Fnv(LittleEndian(Utf16(Upper(upper, name))));
    SignedInjective(Combine(h, a), Combine(h, b));
    CombineInjective(h, a, b);
  }

  lemma {:induction false} LastParamDecides(upper: char -> string, name: string, returnKind: Word, params: seq<Param>,
                                            p: Param, q: Param, disambiguate: bool, objectId: int)
    requires objectId < 2_000_000_000
    ensures var k := AddParams(Combine(Fnv(LittleEndian(Utf16(Upper(upper, name)))), returnKind), params, disambiguate);
            Id(upper, name, returnKind, params + [p], disambiguate, objectId) ==
            Id(upper, name, returnKind, params + [q], disambiguate, objectId)
            <==> AddParam(k, |params|, p, disambiguate) == AddParam(k, |params|, q, disambiguate)
  {
    hide AddParam, Combine, Fnv;
    var h := Combine(Fnv(LittleEndian(Utf16(Upper(upper, name)))), returnKind);
    assert (params + [p])[..|params|] == params && (params + [q])[..|params|] == params;
    var k := AddParams(h, params, disambiguate);
    SignedInjective(AddParam(k, |params|, p, disambiguate), AddParam(k, |params|, q, disambiguate));
  }

  /** ... in one value of the last parameter: its kind, whether it is `var`, or, with
      disambiguation, its subtype. Kinds are any `i32` values, except that they must be below
      2^27, as they are, if a subtype that is the same for both is combined behind them. */
  lemma {:induction false} LastParamShows(upper: char -> string, name: string, returnKind: Word, params: seq<Param>,
                                          p: Param, q: Param, disambiguate: bool, objectId: int)
    requires objectId < 2_000_000_000
    requires OneValueApart(p, q) && (!disambiguate ==> p.subtype == q.subtype)
    requires disambiguate && p.subtype == q.subtype ==> p.kind < BLOCK && q.kind < BLOCK
    ensures Id(upper, name, returnKind, params + [p], disambiguate, objectId) !=
            Id(upper, name, returnKind, params + [q], disambiguate, objectId)
  {
    hide AddParam, Combine, OneValueApart, Id;
    var k := AddParams(Combine(Fnv(LittleEndian(Utf16(Upper(upper, name)))), returnKind), params, disambiguate);
    LastParamDecides(upper, name, returnKind, params, p, q, disambiguate, objectId);
    LastParamDiffers(k, |params|, p, q, disambiguate);
  }

  /** For any kinds: with the same subtype combined behind them, the ids of two methods that
      differ in the last parameter otherwise are equal exactly if the words before it collide. */
  lemma {:induction false} SubtypeHides(upper: char -> string, name: string, returnKind: Word, params: seq<Param>,
                                        p: Param, q: Param, objectId: int)
    requires objectId < 2_000_000_000 && p.subtype == q.subtype
    ensures var k := AddParams(Combine(Fnv(LittleEndian(Utf16(Upper(upper, name)))), returnKind), params, true);
            Id(upper, name, returnKind, params + [p], true, objectId) ==
            Id(upper, name, returnKind, params + [q], true, objectId)
            <==> Collides(KindWord(k, |params|, p), KindWord(k, |params|, q))
  {
    hide AddParam, Combine, Id, KindWord, Collides;
    var k := AddParams(Combine(Fnv(LittleEndian(Utf16(Upper(upper, name)))), returnKind), params, true);
    LastParamDecides(upper, name, returnKind, params, p, q, true, objectId);
    ParamsCoincide(k, |params|, p, q, true);
  }
}
