// The two table-driven forms of the CRC: their tables are exact, and their steps are the reflected register's.

module CrcTables {
  import opened Sequences
  import opened Crc

  function Low4(r: word): word {
    r & 0x0f
  }

  function Low8(r: word): word {
    r & 0xff
  }

  function High12(r: word): word {
    r >> 4
  }

  function High8(r: word): word {
    r >> 8
  }

  function AsWord(b: byte): word {
    b as word
  }

  /** Entry j of sixteen. */
  function Pick(j: word, t0: word, t1: word, t2: word, t3: word, t4: word, t5: word, t6: word, t7: word,
                t8: word, t9: word, ta: word, tb: word, tc: word, td: word, te: word, tf: word): word {
    if (j & 8) != 0 then
      if (j & 4) != 0 then
        if (j & 2) != 0 then (if (j & 1) != 0 then tf else te) else (if (j & 1) != 0 then td else tc)
      else
        if (j & 2) != 0 then (if (j & 1) != 0 then tb else ta) else (if (j & 1) != 0 then t9 else t8)
    else
      if (j & 4) != 0 then
        if (j & 2) != 0 then (if (j & 1) != 0 then t7 else t6) else (if (j & 1) != 0 then t5 else t4)
      else
        if (j & 2) != 0 then (if (j & 1) != 0 then t3 else t2) else (if (j & 1) != 0 then t1 else t0)
  }

  /** The 16-entry table of crc_16_dnp_tbl4bit.c. */
  function NibbleTable(i: word): word {
    Pick(i, 0x0000, 0xb26b, 0x29af, 0x9bc4, 0x535e, 0xe135, 0x7af1, 0xc89a,
            0xa6bc, 0x14d7, 0x8f13, 0x3d78, 0xf5e2, 0x4789, 0xdc4d, 0x6e26)
  }

  /** The 256-entry table of crc_16_dnp_crcmod.c. */
  function ByteTable(i: word): word {
    var j := i & 15;
    Pick(i >> 4,
      Pick(j, 0x0000, 0x365E, 0x6CBC, 0x5AE2, 0xD978, 0xEF26, 0xB5C4, 0x839A,
              0xFF89, 0xC9D7, 0x9335, 0xA56B, 0x26F1, 0x10AF, 0x4A4D, 0x7C13),
      Pick(j, 0xB26B, 0x8435, 0xDED7, 0xE889, 0x6B13, 0x5D4D, 0x07AF, 0x31F1,
              0x4DE2, 0x7BBC, 0x215E, 0x1700, 0x949A, 0xA2C4, 0xF826, 0xCE78),
      Pick(j, 0x29AF, 0x1FF1, 0x4513, 0x734D, 0xF0D7, 0xC689, 0x9C6B, 0xAA35,
              0xD626, 0xE078, 0xBA9A, 0x8CC4, 0x0F5E, 0x3900, 0x63E2, 0x55BC),
      Pick(j, 0x9BC4, 0xAD9A, 0xF778, 0xC126, 0x42BC, 0x74E2, 0x2E00, 0x185E,
              0x644D, 0x5213, 0x08F1, 0x3EAF, 0xBD35, 0x8B6B, 0xD189, 0xE7D7),
      Pick(j, 0x535E, 0x6500, 0x3FE2, 0x09BC, 0x8A26, 0xBC78, 0xE69A, 0xD0C4,
              0xACD7, 0x9A89, 0xC06B, 0xF635, 0x75AF, 0x43F1, 0x1913, 0x2F4D),
      Pick(j, 0xE135, 0xD76B, 0x8D89, 0xBBD7, 0x384D, 0x0E13, 0x54F1, 0x62AF,
              0x1EBC, 0x28E2, 0x7200, 0x445E, 0xC7C4, 0xF19A, 0xAB78, 0x9D26),
      Pick(j, 0x7AF1, 0x4CAF, 0x164D, 0x2013, 0xA389, 0x95D7, 0xCF35, 0xF96B,
              0x8578, 0xB326, 0xE9C4, 0xDF9A, 0x5C00, 0x6A5E, 0x30BC, 0x06E2),
      Pick(j, 0xC89A, 0xFEC4, 0xA426, 0x9278, 0x11E2, 0x27BC, 0x7D5E, 0x4B00,
              0x3713, 0x014D, 0x5BAF, 0x6DF1, 0xEE6B, 0xD835, 0x82D7, 0xB489),
      Pick(j, 0xA6BC, 0x90E2, 0xCA00, 0xFC5E, 0x7FC4, 0x499A, 0x1378, 0x2526,
              0x5935, 0x6F6B, 0x3589, 0x03D7, 0x804D, 0xB613, 0xECF1, 0xDAAF),
      Pick(j, 0x14D7, 0x2289, 0x786B, 0x4E35, 0xCDAF, 0xFBF1, 0xA113, 0x974D,
              0xEB5E, 0xDD00, 0x87E2, 0xB1BC, 0x3226, 0x0478, 0x5E9A, 0x68C4),
      Pick(j, 0x8F13, 0xB94D, 0xE3AF, 0xD5F1, 0x566B, 0x6035, 0x3AD7, 0x0C89,
              0x709A, 0x46C4, 0x1C26, 0x2A78, 0xA9E2, 0x9FBC, 0xC55E, 0xF300),
      Pick(j, 0x3D78, 0x0B26, 0x51C4, 0x679A, 0xE400, 0xD25E, 0x88BC, 0xBEE2,
              0xC2F1, 0xF4AF, 0xAE4D, 0x9813, 0x1B89, 0x2DD7, 0x7735, 0x416B),
      Pick(j, 0xF5E2, 0xC3BC, 0x995E, 0xAF00, 0x2C9A, 0x1AC4, 0x4026, 0x7678,
              0x0A6B, 0x3C35, 0x66D7, 0x5089, 0xD313, 0xE54D, 0xBFAF, 0x89F1),
      Pick(j, 0x4789, 0x71D7, 0x2B35, 0x1D6B, 0x9EF1, 0xA8AF, 0xF24D, 0xC413,
              0xB800, 0x8E5E, 0xD4BC, 0xE2E2, 0x6178, 0x5726, 0x0DC4, 0x3B9A),
      Pick(j, 0xDC4D, 0xEA13, 0xB0F1, 0x86AF, 0x0535, 0x336B, 0x6989, 0x5FD7,
              0x23C4, 0x159A, 0x4F78, 0x7926, 0xFABC, 0xCCE2, 0x9600, 0xA05E),
      Pick(j, 0x6E26, 0x5878, 0x029A, 0x34C4, 0xB75E, 0x8100, 0xDBE2, 0xEDBC,
              0x91AF, 0xA7F1, 0xFD13, 0xCB4D, 0x48D7, 0x7E89, 0x246B, 0x1235))
  }

  /** One turn of the loop of crc_16_dnp_tbl4bit_update: two table steps. */
  function NibbleStep(crc: word, d: byte): word {
    var first := Xor(NibbleTable(Low4(Xor(crc, AsWord(d)))), High12(crc));
    Xor(NibbleTable(Low4(Xor(first, High12(AsWord(d))))), High12(first))
  }

  /** One turn of the loop of computeCRC_16_DNP. */
  function ByteStep(crc: word, d: byte): word {
    Xor(ByteTable(Xor(AsWord(d), Low8(crc))), High8(crc))
  }

  // ---- Window of bits as a word ----

  /** 2^k, for k below 16. */
  function BitAt(k: nat): word {
    match k
    case 0 => 0x0001 case 1 => 0x0002 case 2 => 0x0004 case 3 => 0x0008
    case 4 => 0x0010 case 5 => 0x0020 case 6 => 0x0040 case 7 => 0x0080
    case 8 => 0x0100 case 9 => 0x0200 case 10 => 0x0400 case 11 => 0x0800
    case 12 => 0x1000 case 13 => 0x2000 case 14 => 0x4000 case _ => 0x8000
  }

  lemma BitAtDoubles(k: nat)
    requires k < 15
    ensures BitAt(k + 1) == BitAt(k) << 1 && 0 < BitAt(k) <= 0x4000
  {
  }

  /** The bits of s as a number, the first the least significant. */
  function Pack(s: seq<bool>): word {
    if s == [] then 0 else Xor(AsBit(s[0]), Twice(Pack(s[1..])))
  }

  predicate Below(x: word, p: word) {
    x < p
  }

  lemma {:induction false} PackBound(s: seq<bool>)
    requires |s| < 16
    ensures Below(Pack(s), BitAt(|s|))
  {
    if s == [] {
      PackNothing();
      hide *;
    } else {
      hide *;
      PackUnfold(s);
      PackBound(s[1..]);
      BitAtDoubles(|s| - 1);
      PackBoundRaw(AsBit(s[0]), Pack(s[1..]), BitAt(|s| - 1), Pack(s), BitAt(|s|), s[0]);
    }
  }

  lemma PackNothing()
    ensures Pack([]) == 0 && Below(Pack([]), BitAt(0))
  {
  }

  lemma AsBitBound(bit: bool)
    ensures AsBit(bit) < 2
  {
  }

  lemma PackBoundRaw(b: word, x: word, p: word, r: word, q: word, bit: bool)
    requires b == AsBit(bit) && Below(x, p) && 0 < p <= 0x4000 && q == p << 1 && r == b ^ (x << 1)
    ensures Below(r, q)
  {
  }

  lemma PackBelowTop(s: seq<bool>)
    requires |s| < 16
    ensures BelowTop(Pack(s))
  {
    PackBound(s);
    hide Pack;
  }

  function LowBit(r: word): word {
    r & 1
  }

  predicate BelowTop(r: word) {
    r < 0x8000
  }

  lemma PartsOf(b: word, x: word)
    requires b < 2 && BelowTop(x)
    ensures LowBit(Xor(b, Twice(x))) == b
    ensures Half(Xor(b, Twice(x))) == x
  {
  }

  lemma PackParts(s: seq<bool>)
    requires 0 < |s| <= 16
    ensures LowBit(Pack(s)) == AsBit(s[0]) && Half(Pack(s)) == Pack(s[1..])
  {
    assert Pack(s) == Xor(AsBit(s[0]), Twice(Pack(s[1..]))) by { hide AsBit, Xor, Twice; }
    hide *;
    PackBelowTop(s[1..]);
    AsBitBound(s[0]);
    PartsOf(AsBit(s[0]), Pack(s[1..]));
  }

  /** Different windows are different numbers. */
  lemma {:induction false} PackInjective(s: seq<bool>, t: seq<bool>)
    requires |s| == |t| <= 16 && Pack(s) == Pack(t)
    ensures s == t
    decreases |s|
  {
    hide *;
    if s != [] {
      PackParts(s);
      PackParts(t);
      PackInjective(s[1..], t[1..]);
      AsBitInjective(s[0], t[0]);
      assert s == [s[0]] + s[1..] && t == [t[0]] + t[1..];
    }
  }

  lemma AsBitInjective(b: bool, c: bool)
    ensures AsBit(b) == AsBit(c) ==> b == c
  {
  }

  lemma PackUnfold(s: seq<bool>)
    requires s != []
    ensures Pack(s) == AsBit(s[0]) ^ (Pack(s[1..]) << 1)
  {
    hide Xor, AsBit, Twice;
    XorValue(AsBit(s[0]), Twice(Pack(s[1..])));
    TwiceValue(Pack(s[1..]));
  }

  lemma ShiftDownTwice(x: word)
    requires BelowTop(x)
    ensures ShiftDown(Twice(x)) == x
  {
    assert x < 0x8000;
    hide *;
    TwiceValue(x);
    ShiftDownValue(Twice(x));
    ShiftDownTwiceRaw(x);
  }

  lemma ShiftDownTwiceRaw(x: word)
    requires x < 0x8000
    ensures ((x << 1) >> 1) ^ (0xa6bc & (0 - ((x << 1) & 1))) == x
  {
  }

  /** Feeding a window of up to 16 bits is adding it to the register and shifting it out. */
  lemma {:induction false} FoldIsDown(r: word, s: seq<bool>)
    requires |s| <= 16
    ensures Fold(ReflectedBit, r, s) == Down(|s|, Xor(r, Pack(s)))
    decreases |s|
  {
    if s == [] {
      XorZero(r);
    } else {
      var b, t := s[0], s[1..];
      var x := Pack(t);
      assert s == [b] + t;
      assert Pack(s) == Xor(AsBit(b), Twice(x));
      FoldOne(r, b);
      PackBelowTop(t);
      var r' := ReflectedBit(r, b);
      hide *;
      FoldAppend(ReflectedBit, r, [b], t);
      FoldIsDown(r', t);
      BitValues(r, b);
      ShiftDownTwice(x);
      ShiftLinear(Xor(r, AsBit(b)), Twice(x));
      XorAssociates(r, AsBit(b), Twice(x));
      DownFirst(|t|, Xor(r, Pack(s)));
    }
  }

  lemma FoldOne(r: word, b: bool)
    ensures Fold(ReflectedBit, r, [b]) == ReflectedBit(r, b)
  {
    hide ReflectedBit;
    assert [b][..0] == [];
    assert Fold(ReflectedBit, r, []) == r;
  }

  lemma DownFirst(n: nat, r: word)
    ensures Down(n + 1, r) == Down(n, ShiftDown(r))
  {
    assert Down(1, r) == ShiftDown(r) by { hide ShiftDown; assert Down(0, r) == r; }
    hide *;
    DownAdds(n, 1, r);
  }

  // ---- A byte at a time ----

  lemma PackByte(d: byte)
    ensures Pack(Bits(d)) == AsWord(d)
  {
    var s := Bits(d);
    AsBitOfByte(d, s);
    assert AsWord(d) == d as word;
    hide *;
    PackEight(s);
    PackByteRaw(d, AsBit(s[0]), AsBit(s[1]), AsBit(s[2]), AsBit(s[3]),
                AsBit(s[4]), AsBit(s[5]), AsBit(s[6]), AsBit(s[7]));
  }

  /** A bit in front of the bits of x. */
  function InFront(b: word, x: word): word {
    b ^ (x << 1)
  }

  lemma PackStep(s: seq<bool>)
    requires s != []
    ensures Pack(s) == InFront(AsBit(s[0]), Pack(s[1..]))
  {
    PackUnfold(s);
    hide Pack, AsBit;
  }

  lemma PackEight(s: seq<bool>)
    requires |s| == 8
    ensures Pack(s) == InFront(AsBit(s[0]), InFront(AsBit(s[1]), InFront(AsBit(s[2]), InFront(AsBit(s[3]),
                       InFront(AsBit(s[4]), InFront(AsBit(s[5]), InFront(AsBit(s[6]), InFront(AsBit(s[7]), 0))))))))
  {
    hide *;
    PackFour(s);
    PackFour(s[4..]);
    assert s[4..][4..] == [];
    PackNothing();
  }

  lemma PackFour(s: seq<bool>)
    requires 4 <= |s|
    ensures Pack(s) == InFront(AsBit(s[0]), InFront(AsBit(s[1]), InFront(AsBit(s[2]), InFront(AsBit(s[3]), Pack(s[4..])))))
  {
    hide *;
    assert s[1..][1..] == s[2..] && s[2..][1..] == s[3..] && s[3..][1..] == s[4..];
    PackStep(s);
    PackStep(s[1..]);
    PackStep(s[2..]);
    PackStep(s[3..]);
  }

  lemma AsBitOfByte(d: byte, s: seq<bool>)
    requires s == Bits(d)
    ensures AsBit(s[0]) == if (d & 0x01) != 0 then 1 else 0
    ensures AsBit(s[1]) == if (d & 0x02) != 0 then 1 else 0
    ensures AsBit(s[2]) == if (d & 0x04) != 0 then 1 else 0
    ensures AsBit(s[3]) == if (d & 0x08) != 0 then 1 else 0
    ensures AsBit(s[4]) == if (d & 0x10) != 0 then 1 else 0
    ensures AsBit(s[5]) == if (d & 0x20) != 0 then 1 else 0
    ensures AsBit(s[6]) == if (d & 0x40) != 0 then 1 else 0
    ensures AsBit(s[7]) == if (d & 0x80) != 0 then 1 else 0
  {
  }

  lemma PackByteRaw(d: byte, b0: word, b1: word, b2: word, b3: word, b4: word, b5: word, b6: word, b7: word)
    requires b0 == if (d & 0x01) != 0 then 1 else 0
    requires b1 == if (d & 0x02) != 0 then 1 else 0
    requires b2 == if (d & 0x04) != 0 then 1 else 0
    requires b3 == if (d & 0x08) != 0 then 1 else 0
    requires b4 == if (d & 0x10) != 0 then 1 else 0
    requires b5 == if (d & 0x20) != 0 then 1 else 0
    requires b6 == if (d & 0x40) != 0 then 1 else 0
    requires b7 == if (d & 0x80) != 0 then 1 else 0
    ensures d as word
      == InFront(b0, InFront(b1, InFront(b2, InFront(b3, InFront(b4, InFront(b5, InFront(b6, InFront(b7, 0))))))))
  {
  }

  /** One byte of a message turns the reflected register eight times. */
  lemma ByteIsDown(r: word, d: byte)
    ensures Run(ReflectedBit, r, [d]) == Down(8, Xor(r, AsWord(d)))
  {
    hide *;
    RunByte(ReflectedBit, r, d);
    FoldIsDown(r, Bits(d));
    PackByte(d);
  }

  // ---- The tables ----

  /** One turn of the register, without a branch. */
  function Turn(r: word): word {
    (r >> 1) ^ (0xa6bc & (0 - (r & 1)))
  }

  function FourTurns(r: word): word {
    Turn(Turn(Turn(Turn(r))))
  }

  lemma TurnIsShift(r: word)
    ensures Turn(r) == ShiftDown(r)
  {
    ShiftDownValue(r);
    hide ShiftDown;
  }

  lemma FourTurnsIsDown(r: word)
    ensures FourTurns(r) == Down(4, r)
  {
    var a := ShiftDown(r);
    var b := ShiftDown(a);
    var c := ShiftDown(b);
    assert Down(4, r) == ShiftDown(c) by {
      hide ShiftDown;
      assert Down(1, r) == a by { assert Down(0, r) == r; }
      assert Down(3, r) == c by { assert Down(2, r) == b; }
    }
    hide Turn, ShiftDown, Down;
    TurnIsShift(r);
    TurnIsShift(a);
    TurnIsShift(b);
    TurnIsShift(c);
  }

  lemma NibbleEntry(i: word)
    requires i < 16
    ensures NibbleTable(i) == FourTurns(i)
  {
  }
}
