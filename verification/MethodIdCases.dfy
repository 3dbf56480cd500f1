/** Generated ids bit by bit, and ids that the compiler is known to generate. */
module MethodIdCases {
  import opened MethodId

  // ----- Bits -----

  /** Bit `k` of a number. */
  function Bit(a: nat, k: nat): nat {
    if k == 0 then a % 2 else Bit(a / 2, k - 1)
  }

  /** A bit of the exclusive or is set if and only if exactly one of the two is. */
  lemma {:induction false} XorBits(a: nat, b: nat, k: nat)
    ensures Bit(Xor(a, b), k) == 1 <==> Bit(a, k) + Bit(b, k) == 1
  {
    if k > 0 {
      XorBits(a / 2, b / 2, k - 1);
      assert Xor(a, b) / 2 == Xor(a / 2, b / 2);
    }
  }

  /** Exclusive or works on the low bits and on the others separately. */
  lemma {:induction false} XorSplits(q: nat, r: nat, p: nat, s: nat, k: nat)
    requires r < Pow2(k) && s < Pow2(k)
    ensures Xor(Pow2(k) * q + r, Pow2(k) * p + s) == Pow2(k) * Xor(q, p) + Xor(r, s)
  {
    if k > 0 {
      hide Xor;
      XorSplits(q, r / 2, p, s / 2, k - 1);
      XorSplitsOnce(Pow2(k - 1), q, r, p, s);
    } else {
      XorZero(0);
    }
  }

  lemma {:induction false} XorSplitsOnce(h: nat, q: nat, r: nat, p: nat, s: nat)
    requires Xor(h * q + r / 2, h * p + s / 2) == h * Xor(q, p) + Xor(r / 2, s / 2)
    ensures Xor(2 * h * q + r, 2 * h * p + s) == 2 * h * Xor(q, p) + Xor(r, s)
  {
    hide Xor;
    Halved(h, q, r);
    Halved(h, p, s);
    XorHalves(2 * h * q + r, 2 * h * p + s);
    XorHalves(r, s);
    Twice(h, Xor(q, p), Xor(r / 2, s / 2));
  }

  lemma {:induction false} Twice(h: nat, x: nat, y: nat)
    ensures 2 * (h * x + y) == 2 * h * x + 2 * y
  {
  }

  lemma {:induction false} Halved(h: nat, q: nat, r: nat)
    ensures (2 * h * q + r) / 2 == h * q + r / 2 && (2 * h * q + r) % 2 == r % 2
  {
    assert 2 * h * q == 2 * (h * q);
  }

  lemma {:induction false} XorHalves(a: nat, b: nat)
    ensures Xor(a, b) == 2 * Xor(a / 2, b / 2) + if a % 2 == b % 2 then 0 else 1
  {
  }

  lemma {:induction false} XorOfBytes(q: nat, r: nat, p: nat, s: nat)
    requires r < 256 && s < 256
    ensures Xor(256 * q + r, 256 * p + s) == 256 * Xor(q, p) + Xor(r, s)
  {
    WordIsPow2();
    XorSplits(q, r, p, s, 8);
  }

  lemma {:induction false} OneBit(a: nat, b: nat, x: nat)
    requires x == 2 * Xor(a / 2, b / 2) + if a % 2 == b % 2 then 0 else 1
    ensures Xor(a, b) == x
  {
  }

  // ----- Characters -----

  /** The character of one or two UTF-16 code units. */
  function Decoded(units: seq<int>): int
    requires |units| == 1 || |units| == 2
  {
    if |units| == 1 then units[0] else 0x1_0000 + (units[0] - 0xD800) * 0x400 + (units[1] - 0xDC00)
  }

  /** A character of the basic plane is one code unit, and any other a high and a low surrogate;
      decoding gives it back. */
  lemma {:induction false} UnitsDecode(c: char)
    ensures var units := Units(c);
            && (|units| == 1 <==> c as int < 0x1_0000) && |units| <= 2 && units != []
            && (|units| == 2 ==> 0xD800 <= units[0] < 0xDC00 && 0xDC00 <= units[1] < 0xE000)
            && Decoded(seq(|units|, i requires 0 <= i < |units| => units[i] as int)) == c as int
  {
  }

  /** The low byte of a code unit stands first. */
  lemma {:induction false} BytesOfUnit(units: seq<Unit>, u: Unit)
    ensures LittleEndian(units + [u]) == LittleEndian(units) + [u % 0x100, u / 0x100]
  {
    assert (units + [u])[..|units|] == units;
  }

  // ----- Upper case -----

  /** The upper case of a character if that is one character, and otherwise the character. */
  function UpperOne(upper: char -> string, c: char): char {
    if |upper(c)| == 1 then upper(c)[0] else c
  }

  lemma {:induction false} UpperAt(upper: char -> string, s: string, i: nat)
    requires i < |s|
    ensures |Upper(upper, s)| == |s| && Upper(upper, s)[i] == UpperOne(upper, s[i])
  {
    if i < |s| - 1 {
      UpperAt(upper, s[..|s| - 1], i);
    }
  }

  /** Names with the same upper case, character by character, share their ids. */
  lemma {:induction false} CaseDoesNotCount(upper: char -> string, a: string, b: string, returnKind: Word,
                                            params: seq<Param>, disambiguate: bool, objectId: int)
    requires |a| == |b| && forall i :: 0 <= i < |a| ==> UpperOne(upper, a[i]) == UpperOne(upper, b[i])
    ensures Id(upper, a, returnKind, params, disambiguate, objectId)
            == Id(upper, b, returnKind, params, disambiguate, objectId)
  {
    hide Upper, UpperOne, Id;
    forall i | 0 <= i < |a| ensures Upper(upper, a)[i] == Upper(upper, b)[i] {
      UpperAt(upper, a, i);
      UpperAt(upper, b, i);
    }
    SameUpper(upper, a, b, returnKind, params, disambiguate, objectId);
  }

  lemma {:induction false} SameUpper(upper: char -> string, a: string, b: string, returnKind: Word,
                                     params: seq<Param>, disambiguate: bool, objectId: int)
    requires Upper(upper, a) == Upper(upper, b)
    ensures Id(upper, a, returnKind, params, disambiguate, objectId)
            == Id(upper, b, returnKind, params, disambiguate, objectId)
  {
  }

  // ----- Known ids -----

  lemma {:induction false} OneStep(h: Word, q: nat, r: nat, b: Byte, x: nat, next: Word)
    requires h == 256 * q + r && r < 256 && Xor(r, b) == x && (256 * q + x) * 16777619 % 0x1_0000_0000 == next
    ensures Step(h, b) == next
  {
    hide Xor;
    XorOfBytes(q, r, 0, b);
    XorZero(q);
  }

  lemma {:induction false} TwoCharacters(c: char, d: char)
    requires c as int < 256 && d as int < 256
    ensures LittleEndian(Utf16([c, d])) == [c as int, 0, d as int, 0]
  {
    assert [c, d][..1] == [c] && [c][..0] == [];
    assert Utf16([c]) == [c as int] && Utf16([c, d]) == [c as int, d as int];
    var units: seq<Unit> := [c as int, d as int];
    assert units[..1] == [c as int] && units[..1][..0] == [];
    assert LittleEndian(units[..1]) == [c as int, 0];
  }

  lemma {:induction false} FourBytes(a: Byte, b: Byte, c: Byte, d: Byte, h1: Word, h2: Word, h3: Word, h4: Word)
    requires Step(0x811C9DC5, a) == h1 && Step(h1, b) == h2 && Step(h2, c) == h3 && Step(h3, d) == h4
    ensures Fnv([a, b, c, d]) == h4
  {
    hide Step;
    assert FNV_OFFSET_BIAS == 0x811C9DC5;
    FnvTwo(FNV_OFFSET_BIAS, a, b);
    FnvTwo(h2, c, d);
    FnvAppends(FNV_OFFSET_BIAS, [a, b], [c, d]);
    assert [a, b] + [c, d] == [a, b, c, d];
  }

  lemma {:induction false} XorC54D()
    ensures Xor(0xC5, 0x4D) == 0x88
  {
    hide Xor;
    XorZero(0);
    OneBit(0x1, 0x0, 0x1);
    OneBit(0x3, 0x1, 0x2);
    OneBit(0x6, 0x2, 0x4);
    OneBit(0xC, 0x4, 0x8);
    OneBit(0x18, 0x9, 0x11);
    OneBit(0x31, 0x13, 0x22);
    OneBit(0x62, 0x26, 0x44);
    OneBit(0xC5, 0x4D, 0x88);
  }

  lemma {:induction false} XorC830()
    ensures Xor(0xC8, 0x30) == 0xF8
  {
    hide Xor;
    XorZero(0);
    OneBit(0x1, 0x0, 0x1);
    OneBit(0x3, 0x0, 0x3);
    OneBit(0x6, 0x1, 0x7);
    OneBit(0xC, 0x3, 0xF);
    OneBit(0x19, 0x6, 0x1F);
    OneBit(0x32, 0xC, 0x3E);
    OneBit(0x64, 0x18, 0x7C);
    OneBit(0xC8, 0x30, 0xF8);
  }

  lemma {:induction false} XorC835()
    ensures Xor(0xC8, 0x35) == 0xFD
  {
    hide Xor;
    XorZero(0);
    OneBit(0x1, 0x0, 0x1);
    OneBit(0x3, 0x0, 0x3);
    OneBit(0x6, 0x1, 0x7);
    OneBit(0xC, 0x3, 0xF);
    OneBit(0x19, 0x6, 0x1F);
    OneBit(0x32, 0xD, 0x3F);
    OneBit(0x64, 0x1A, 0x7E);
    OneBit(0xC8, 0x35, 0xFD);
  }

  lemma {:induction false} Xor2005()
    ensures Xor(0x20, 0x05) == 0x25
  {
    hide Xor;
    XorZero(0);
    OneBit(0x1, 0x0, 0x1);
    OneBit(0x2, 0x0, 0x2);
    OneBit(0x4, 0x0, 0x4);
    OneBit(0x8, 0x1, 0x9);
    OneBit(0x10, 0x2, 0x12);
    OneBit(0x20, 0x5, 0x25);
  }

  lemma {:induction false} Xor16BE()
    ensures Xor(0x16, 0xBE) == 0xA8
  {
    hide Xor;
    XorZero(0);
    OneBit(0x0, 0x1, 0x1);
    OneBit(0x0, 0x2, 0x2);
    OneBit(0x0, 0x5, 0x5);
    OneBit(0x1, 0xB, 0xA);
    OneBit(0x2, 0x17, 0x15);
    OneBit(0x5, 0x2F, 0x2A);
    OneBit(0xB, 0x5F, 0x54);
    OneBit(0x16, 0xBE, 0xA8);
  }

  lemma {:induction false} XorEB01()
    ensures Xor(0xEB, 0x1) == 0xEA
  {
    hide Xor;
    XorZero(0);
    OneBit(0x1, 0x0, 0x1);
    OneBit(0x3, 0x0, 0x3);
    OneBit(0x7, 0x0, 0x7);
    OneBit(0xE, 0x0, 0xE);
    OneBit(0x1D, 0x0, 0x1D);
    OneBit(0x3A, 0x0, 0x3A);
    OneBit(0x75, 0x0, 0x75);
    OneBit(0xEB, 0x1, 0xEA);
  }

  lemma {:induction false} HashOfM0()
    ensures Fnv(LittleEndian(Utf16("M0"))) == 0x5181E1B8
  {
    hide FnvFrom, Step, Xor, Utf16, LittleEndian;
    XorC54D();
    OneStep(0x811C9DC5, 0x811C9D, 0xC5, 0x4D, 0x88, 0xC80BFD18);
    XorZero(0x18);
    OneStep(0xC80BFD18, 0xC80BFD, 0x18, 0x0, 0x18, 0x2DF6CC8);
    XorC830();
    OneStep(0x2DF6CC8, 0x2DF6C, 0xC8, 0x30, 0xF8, 0x7DB88A68);
    XorZero(0x68);
    OneStep(0x7DB88A68, 0x7DB88A, 0x68, 0x0, 0x68, 0x5181E1B8);
    TwoCharacters('M', '0');
    FourBytes(0x4D, 0x0, 0x30, 0x0, 0xC80BFD18, 0x2DF6CC8, 0x7DB88A68, 0x5181E1B8);
  }

  lemma {:induction false} HashOfM5()
    ensures Fnv(LittleEndian(Utf16("M5"))) == 0xF8E45C5
  {
    hide FnvFrom, Step, Xor, Utf16, LittleEndian;
    XorC54D();
    OneStep(0x811C9DC5, 0x811C9D, 0xC5, 0x4D, 0x88, 0xC80BFD18);
    XorZero(0x18);
    OneStep(0xC80BFD18, 0xC80BFD, 0x18, 0x0, 0x18, 0x2DF6CC8);
    XorC835();
    OneStep(0x2DF6CC8, 0x2DF6C, 0xC8, 0x35, 0xFD, 0x82B89247);
    XorZero(0x47);
    OneStep(0x82B89247, 0x82B892, 0x47, 0x0, 0x47, 0xF8E45C5);
    TwoCharacters('M', '5');
    FourBytes(0x4D, 0x0, 0x35, 0x0, 0xC80BFD18, 0x2DF6CC8, 0x82B89247, 0xF8E45C5);
  }

  /** `M0`, without parameters or a return value. */
  lemma {:induction false} IdOfM0(upper: char -> string)
    requires UpperOne(upper, 'M') == 'M' && UpperOne(upper, '0') == '0'
    ensures Id(upper, "M0", 0, [], false, 50100) == -2118248254
    ensures Id(upper, "M0", 0, [], false, 1_999_999_999) == -2118248254
    ensures Id(upper, "M0", 0, [], false, 2_000_000_000) == 2118248254 % 1_250_000_000
  {
    hide Fnv, Utf16, LittleEndian, Upper, UpperOne, Xor;
    UpperAt(upper, "M0", 0);
    UpperAt(upper, "M0", 1);
    assert Upper(upper, "M0") == "M0";
    HashOfM0();
    XorZero(Mix(0x5181E1B8));
  }

  /** `M5(var Integer)`, without a return value. */
  lemma {:induction false} IdOfM5(upper: char -> string)
    requires UpperOne(upper, 'M') == 'M' && UpperOne(upper, '5') == '5'
    ensures Id(upper, "M5", 0, [Param(12451845, true, 1)], false, 50100) == 363343141
  {
    hide Fnv, Utf16, LittleEndian, Upper, UpperOne, Xor, Combine;
    UpperAt(upper, "M5", 0);
    UpperAt(upper, "M5", 1);
    assert Upper(upper, "M5") == "M5";
    HashOfM5();
    CombinesOfM5();
    assert [Param(12451845, true, 1)][..0] == [];
  }

  lemma {:induction false} CombinesOfM5()
    ensures Combine(0xF8E45C5, 0) == 0x156FE66 && Combine(0x156FE66, 0) == 0x2C36CB26
    ensures Combine(0x2C36CB26, 1) == 0xB3102FEA && Combine(0xB3102FEA, 12451845) == 0x15A82D25
  {
    hide Xor;
    XorZero(0x156FE66);
    XorZero(0x2C36CB26);
    XorOfBytes(0xB3102F, 0xEB, 0, 1);
    XorZero(0xB3102F);
    XorEB01();
    XorOfBytes(0x15162D, 0x20, 0xBE00, 0x05);
    XorOfBytes(0x1516, 0x2D, 0xBE, 0);
    XorOfBytes(0x15, 0x16, 0, 0xBE);
    XorZero(0x15);
    XorZero(0x2D);
    Xor2005();
    Xor16BE();
  }

  /** From object 2000000000 on the id is what is left of the hash, without its sign, when
      1250000000 is taken away as often as it can be. */
  lemma {:induction false} AdjustedIs(h: Word, objectId: int)
    requires objectId >= 2_000_000_000
    ensures var s, id := Signed(h), Adjusted(h, objectId);
            && 0 <= id < 1_250_000_000
            && (s >= 0 ==> (s - id) % 1_250_000_000 == 0)
            && (s < 0 ==> (s + id) % 1_250_000_000 == 0)
  {
    var s, id := Signed(h), Adjusted(h, objectId);
    var q := (if s < 0 then -s else s) / 1_250_000_000;
    Multiple(if s < 0 then s + id else s - id, if s < 0 then -q else q);
  }

  lemma {:induction false} Multiple(a: int, q: int)
    requires a == 1_250_000_000 * q
    ensures a % 1_250_000_000 == 0
  {
  }
}
