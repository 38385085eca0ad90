// CRC-16/DNP (the CRC of the DNP3 data link layer) as a function on bits, in its three one-bit forms, and the
// proof that the three compute the same checksum. The register has 16 bits: the sources use uint_fast16_t, whose
// extra high bits are masked away after each byte and never reach a tested bit or a result.
//
// Every bit-vector operation is wrapped in a small function. Facts about single words are proved on their
// definitions (the lemmas named ...Raw); everything else is algebra on the wrapped functions, with bodies hidden.

module Crc {
  import opened Sequences

  type word = bv16

  function Xor(x: word, y: word): word {
    x ^ y
  }

  lemma XorValue(x: word, y: word)
    ensures Xor(x, y) == x ^ y
  {
  }

  lemma XorZero(x: word)
    ensures Xor(x, 0) == x
  {
  }

  lemma XorAssociates(a: word, b: word, c: word)
    ensures Xor(Xor(a, b), c) == Xor(a, Xor(b, c))
  {
    hide *;
    XorValue(a, b);
    XorValue(b, c);
    XorValue(Xor(a, b), c);
    XorValue(a, Xor(b, c));
    XorAssociatesRaw(a, b, c);
  }

  lemma XorAssociatesRaw(a: word, b: word, c: word)
    ensures (a ^ b) ^ c == a ^ (b ^ c)
  {
  }

  lemma XorCommutes(a: word, b: word)
    ensures Xor(a, b) == Xor(b, a)
  {
  }

  lemma XorSwap(a: word, b: word, c: word, d: word)
    ensures Xor(Xor(a, b), Xor(c, d)) == Xor(Xor(a, c), Xor(b, d))
  {
    hide *;
    XorAssociates(a, b, Xor(c, d));
    XorAssociates(b, c, d);
    XorCommutes(b, c);
    XorAssociates(c, b, d);
    XorAssociates(a, c, Xor(b, d));
  }

  lemma XorCancel(x: word, y: word, z: word)
    requires Xor(x, z) == Xor(y, z)
    ensures x == y
  {
    hide *;
    XorValue(x, z);
    XorValue(y, z);
    XorCancelRaw(x, y, z);
  }

  lemma XorCancelRaw(x: word, y: word, z: word)
    requires x ^ z == y ^ z
    ensures x == y
  {
  }

  function AsBit(bit: bool): word {
    if bit then 1 else 0
  }

  function TopBit(bit: bool): word {
    if bit then 0x8000 else 0
  }

  function Twice(r: word): word {
    r << 1
  }

  function Half(r: word): word {
    r >> 1
  }

  /** The polynomial 0x3d65 when the top bit of r leaves. */
  function UpPolynomial(r: word): word {
    0x3d65 & (0 - (r >> 15))
  }

  /** The reflected polynomial 0xa6bc when the bottom bit of r leaves. */
  function DownPolynomial(r: word): word {
    0xa6bc & (0 - (r & 1))
  }

  /** Shift left and divide by the polynomial. */
  function ShiftUp(r: word): word {
    Xor(Twice(r), UpPolynomial(r))
  }

  /** Shift right and divide by the reflected polynomial. */
  function ShiftDown(r: word): word {
    Xor(Half(r), DownPolynomial(r))
  }

  lemma ShiftValues(r: word)
    ensures ShiftUp(r) == Xor(Twice(r), UpPolynomial(r))
    ensures ShiftDown(r) == Xor(Half(r), DownPolynomial(r))
  {
    hide Xor, Twice, Half, UpPolynomial, DownPolynomial;
  }

  lemma TwiceValue(r: word)
    ensures Twice(r) == r << 1
  {
  }

  lemma HalfValue(r: word)
    ensures Half(r) == r >> 1
  {
  }

  lemma PolynomialValues(r: word)
    ensures UpPolynomial(r) == 0x3d65 & (0 - (r >> 15))
    ensures DownPolynomial(r) == 0xa6bc & (0 - (r & 1))
  {
  }

  // ---- One bit of each form ----

  /** Direct (crc_16_dnp_bbf): the message bit is compared with the outgoing one. */
  function DirectBit(r: word, bit: bool): word {
    ShiftUp(Xor(r, TopBit(bit)))
  }

  /** Augmented (crc_16_dnp_bbb): the message bit enters at the bottom. */
  function AugmentedBit(r: word, bit: bool): word {
    Xor(ShiftUp(r), AsBit(bit))
  }

  /** Reflected (the two table versions): the message bit meets the outgoing one at the bottom. */
  function ReflectedBit(r: word, bit: bool): word {
    ShiftDown(Xor(r, AsBit(bit)))
  }

  lemma BitValues(r: word, bit: bool)
    ensures DirectBit(r, bit) == ShiftUp(Xor(r, TopBit(bit)))
    ensures AugmentedBit(r, bit) == Xor(ShiftUp(r), AsBit(bit))
    ensures ReflectedBit(r, bit) == ShiftDown(Xor(r, AsBit(bit)))
  {
    hide ShiftUp, ShiftDown, Xor, AsBit, TopBit;
  }

  function HighBit(r: word): bool {
    (r & 0x8000) != 0
  }

  lemma ShiftUpCode(r: word)
    ensures ShiftUp(r) == if HighBit(r) then Xor(Twice(r), 0x3d65) else Twice(r)
  {
    assert UpPolynomial(r) == if HighBit(r) then 0x3d65 else 0;
    hide *;
    ShiftValues(r);
    XorZero(Twice(r));
  }

  /** One turn of the loop of crc_16_dnp_bbf_update. */
  lemma DirectBitCode(r: word, bit: bool)
    ensures DirectBit(r, bit) == if HighBit(r) != bit then Xor(Twice(r), 0x3d65) else Twice(r)
  {
    assert bit ==> TopBit(bit) == 0x8000;
    assert !bit ==> TopBit(bit) == 0;
    hide *;
    BitValues(r, bit);
    ShiftUpCode(Xor(r, TopBit(bit)));
    FlipTop(r);
    XorZero(r);
  }

  lemma FlipTop(r: word)
    ensures Twice(Xor(r, 0x8000)) == Twice(r)
    ensures HighBit(Xor(r, 0x8000)) == !HighBit(r)
  {
  }

  /** One turn of the loop of crc_16_dnp_bbb_update. */
  lemma AugmentedBitCode(r: word, bit: bool)
    ensures var shifted := Enter(r, bit);
      AugmentedBit(r, bit) == if HighBit(r) then Xor(shifted, 0x3d65) else shifted
  {
    hide *;
    BitValues(r, bit);
    ShiftUpCode(r);
    EnterIsXor(r, bit);
    XorAssociates(Twice(r), 0x3d65, AsBit(bit));
    XorCommutes(0x3d65, AsBit(bit));
    XorAssociates(Twice(r), AsBit(bit), 0x3d65);
  }

  /** Shift left, the message bit entering at the bottom. */
  function Enter(r: word, bit: bool): word {
    (r << 1) | (if bit then 1 else 0)
  }

  lemma EnterIsXor(r: word, bit: bool)
    ensures Enter(r, bit) == Xor(Twice(r), AsBit(bit))
  {
    if bit {
      OrRaw(r);
    } else {
      OrZeroRaw(r);
    }
  }

  lemma OrRaw(r: word)
    ensures (r << 1) ^ 1 == (r << 1) | 1
  {
  }

  lemma OrZeroRaw(r: word)
    ensures (r << 1) | 0 == r << 1 == (r << 1) ^ 0
  {
  }

  // ---- Linearity ----

  lemma ShiftLinear(x: word, y: word)
    ensures ShiftUp(Xor(x, y)) == Xor(ShiftUp(x), ShiftUp(y))
    ensures ShiftDown(Xor(x, y)) == Xor(ShiftDown(x), ShiftDown(y))
  {
    hide *;
    ShiftValues(x);
    ShiftValues(y);
    ShiftValues(Xor(x, y));
    TwiceHalfLinear(x, y);
    PolynomialLinear(x, y);
    XorSwap(Twice(x), UpPolynomial(x), Twice(y), UpPolynomial(y));
    XorSwap(Half(x), DownPolynomial(x), Half(y), DownPolynomial(y));
  }

  lemma TwiceHalfLinear(x: word, y: word)
    ensures Twice(Xor(x, y)) == Xor(Twice(x), Twice(y))
    ensures Half(Xor(x, y)) == Xor(Half(x), Half(y))
  {
    hide *;
    TwiceValue(x);
    TwiceValue(y);
    TwiceValue(Xor(x, y));
    HalfValue(x);
    HalfValue(y);
    HalfValue(Xor(x, y));
    XorValue(x, y);
    XorValue(Twice(x), Twice(y));
    XorValue(Half(x), Half(y));
    TwiceHalfRaw(x, y);
  }

  lemma TwiceHalfRaw(x: word, y: word)
    ensures (x ^ y) << 1 == (x << 1) ^ (y << 1)
    ensures (x ^ y) >> 1 == (x >> 1) ^ (y >> 1)
  {
  }

  lemma PolynomialLinear(x: word, y: word)
    ensures UpPolynomial(Xor(x, y)) == Xor(UpPolynomial(x), UpPolynomial(y))
    ensures DownPolynomial(Xor(x, y)) == Xor(DownPolynomial(x), DownPolynomial(y))
  {
    hide *;
    PolynomialValues(x);
    PolynomialValues(y);
    PolynomialValues(Xor(x, y));
    XorValue(x, y);
    XorValue(UpPolynomial(x), UpPolynomial(y));
    XorValue(DownPolynomial(x), DownPolynomial(y));
    UpPolynomialRaw(x, y);
    DownPolynomialRaw(x, y);
  }

  lemma UpPolynomialRaw(x: word, y: word)
    ensures 0x3d65 & (0 - ((x ^ y) >> 15)) == (0x3d65 & (0 - (x >> 15))) ^ (0x3d65 & (0 - (y >> 15)))
  {
  }

  lemma DownPolynomialRaw(x: word, y: word)
    ensures 0xa6bc & (0 - ((x ^ y) & 1)) == (0xa6bc & (0 - (x & 1))) ^ (0xa6bc & (0 - (y & 1)))
  {
  }

  lemma ShiftDownInjective(x: word, y: word)
    requires ShiftDown(x) == ShiftDown(y)
    ensures x == y
  {
    hide *;
    ShiftDownValue(x);
    ShiftDownValue(y);
    InjectiveRaw(x, y, ShiftDown(x));
  }

  lemma ShiftDownValue(r: word)
    ensures ShiftDown(r) == (r >> 1) ^ (0xa6bc & (0 - (r & 1)))
  {
    hide *;
    ShiftValues(r);
    HalfValue(r);
    PolynomialValues(r);
    XorValue(Half(r), DownPolynomial(r));
  }

  lemma InjectiveRaw(x: word, y: word, a: word)
    requires a == (x >> 1) ^ (0xa6bc & (0 - (x & 1)))
    requires a == (y >> 1) ^ (0xa6bc & (0 - (y & 1)))
    ensures x == y
  {
  }

  /** n turns of the reflected register with zero bits. */
  function Down(n: nat, r: word): word {
    if n == 0 then r else ShiftDown(Down(n - 1, r))
  }

  /** n turns of the direct (and of the augmented) register with zero bits. */
  function Up(n: nat, r: word): word {
    if n == 0 then r else ShiftUp(Up(n - 1, r))
  }

  lemma {:induction false} DownLinear(n: nat, x: word, y: word)
    ensures Down(n, Xor(x, y)) == Xor(Down(n, x), Down(n, y))
  {
    hide ShiftDown, Xor;
    if n > 0 {
      DownLinear(n - 1, x, y);
      ShiftLinear(Down(n - 1, x), Down(n - 1, y));
    }
  }

  lemma {:induction false} UpLinear(n: nat, x: word, y: word)
    ensures Up(n, Xor(x, y)) == Xor(Up(n, x), Up(n, y))
  {
    hide ShiftUp, Xor;
    if n > 0 {
      UpLinear(n - 1, x, y);
      ShiftLinear(Up(n - 1, x), Up(n - 1, y));
    }
  }

  lemma {:induction false} DownInjective(n: nat, x: word, y: word)
    requires Down(n, x) == Down(n, y)
    ensures x == y
  {
    hide ShiftDown;
    if n > 0 {
      ShiftDownInjective(Down(n - 1, x), Down(n - 1, y));
      DownInjective(n - 1, x, y);
    }
  }

  lemma {:induction false} DownAdds(m: nat, n: nat, r: word)
    ensures Down(m + n, r) == Down(m, Down(n, r))
  {
    hide ShiftDown;
    if m > 0 {
      DownAdds(m - 1, n, r);
    }
  }

  lemma {:induction false} UpCommutes(n: nat, r: word)
    ensures Up(n, ShiftUp(r)) == ShiftUp(Up(n, r))
  {
    hide ShiftUp;
    if n > 0 {
      UpCommutes(n - 1, r);
    }
  }

  // ---- Messages as bits, least significant bit of each byte first ----

  function Bits(b: byte): (s: seq<bool>)
    ensures |s| == 8
  {
    [(b & 0x01) != 0, (b & 0x02) != 0, (b & 0x04) != 0, (b & 0x08) != 0,
     (b & 0x10) != 0, (b & 0x20) != 0, (b & 0x40) != 0, (b & 0x80) != 0]
  }

  function AllBits(data: seq<byte>): (s: seq<bool>)
    ensures |s| == 8 * |data|
  {
    if data == [] then [] else AllBits(data[..|data| - 1]) + Bits(data[|data| - 1])
  }

  function Fold(step: (word, bool) -> word, r: word, s: seq<bool>): word {
    if s == [] then r else step(Fold(step, r, s[..|s| - 1]), s[|s| - 1])
  }

  lemma {:induction false} FoldAppend(step: (word, bool) -> word, r: word, s: seq<bool>, t: seq<bool>)
    ensures Fold(step, r, s + t) == Fold(step, Fold(step, r, s), t)
  {
    if t == [] {
      assert s + t == s;
    } else {
      var n := |t| - 1;
      assert (s + t)[..|s| + n] == s + t[..n];
      FoldAppend(step, r, s, t[..n]);
    }
  }

  lemma {:induction false} AllBitsAppend(x: seq<byte>, y: seq<byte>)
    ensures AllBits(x + y) == AllBits(x) + AllBits(y)
  {
    hide Bits;
    if y == [] {
      assert x + y == x;
    } else {
      var n := |y| - 1;
      assert (x + y)[..|x| + n] == x + y[..n];
      AllBitsAppend(x, y[..n]);
    }
  }

  /** Any of the three registers after a message. */
  function Run(step: (word, bool) -> word, r: word, data: seq<byte>): word {
    Fold(step, r, AllBits(data))
  }

  /** Updating over consecutive blocks is updating over their concatenation. */
  lemma RunAppend(step: (word, bool) -> word, r: word, x: seq<byte>, y: seq<byte>)
    ensures Run(step, r, x + y) == Run(step, Run(step, r, x), y)
  {
    hide AllBits, Fold;
    AllBitsAppend(x, y);
    FoldAppend(step, r, AllBits(x), AllBits(y));
  }

  lemma RunByte(step: (word, bool) -> word, r: word, b: byte)
    ensures Run(step, r, [b]) == Fold(step, r, Bits(b))
  {
    hide Bits, Fold;
    assert AllBits([]) == [];
    assert [b][..0] == [];
    assert AllBits([b]) == Bits(b);
  }

  /** The checksum of a message: what every implementation is shown to compute. */
  function Crc16(data: seq<byte>): word {
    Xor(Run(ReflectedBit, 0, data), 0xffff)
  }

  // ---- Direct and reflected ----

  /** The 16 bits of r in the opposite order. */
  function Mirror(r: word): word {
    ((r & 0x0001) << 15) | ((r & 0x0002) << 13) | ((r & 0x0004) << 11) | ((r & 0x0008) << 9) |
    ((r & 0x0010) << 7) | ((r & 0x0020) << 5) | ((r & 0x0040) << 3) | ((r & 0x0080) << 1) |
    ((r & 0x0100) >> 1) | ((r & 0x0200) >> 3) | ((r & 0x0400) >> 5) | ((r & 0x0800) >> 7) |
    ((r & 0x1000) >> 9) | ((r & 0x2000) >> 11) | ((r & 0x4000) >> 13) | ((r & 0x8000) >> 15)
  }

  lemma MirrorValue(r: word)
    ensures Mirror(r) ==
      ((r & 0x0001) << 15) | ((r & 0x0002) << 13) | ((r & 0x0004) << 11) | ((r & 0x0008) << 9) |
      ((r & 0x0010) << 7) | ((r & 0x0020) << 5) | ((r & 0x0040) << 3) | ((r & 0x0080) << 1) |
      ((r & 0x0100) >> 1) | ((r & 0x0200) >> 3) | ((r & 0x0400) >> 5) | ((r & 0x0800) >> 7) |
      ((r & 0x1000) >> 9) | ((r & 0x2000) >> 11) | ((r & 0x4000) >> 13) | ((r & 0x8000) >> 15)
  {
  }

  /** Bit k of the mirror image is bit 15 - k. */
  lemma MirrorExchanges(r: word, k: word)
    requires k < 16
    ensures (Mirror(r) >> k) & 1 == (r >> (15 - k)) & 1
  {
    hide *;
    MirrorValue(r);
    ExchangeRaw(r, Mirror(r), k);
  }

  lemma MirrorTwice(r: word)
    ensures Mirror(Mirror(r)) == r
  {
    hide *;
    MirrorValue(r);
    MirrorValue(Mirror(r));
    TwiceRaw(r, Mirror(r), Mirror(Mirror(r)));
  }

  lemma ExchangeRaw(r: word, m: word, k: word)
    requires m ==
      ((r & 0x0001) << 15) | ((r & 0x0002) << 13) | ((r & 0x0004) << 11) | ((r & 0x0008) << 9) |
      ((r & 0x0010) << 7) | ((r & 0x0020) << 5) | ((r & 0x0040) << 3) | ((r & 0x0080) << 1) |
      ((r & 0x0100) >> 1) | ((r & 0x0200) >> 3) | ((r & 0x0400) >> 5) | ((r & 0x0800) >> 7) |
      ((r & 0x1000) >> 9) | ((r & 0x2000) >> 11) | ((r & 0x4000) >> 13) | ((r & 0x8000) >> 15)
    requires k < 16
    ensures (m >> k) & 1 == (r >> (15 - k)) & 1
  {
  }

  lemma TwiceRaw(r: word, m: word, mm: word)
    requires m ==
      ((r & 0x0001) << 15) | ((r & 0x0002) << 13) | ((r & 0x0004) << 11) | ((r & 0x0008) << 9) |
      ((r & 0x0010) << 7) | ((r & 0x0020) << 5) | ((r & 0x0040) << 3) | ((r & 0x0080) << 1) |
      ((r & 0x0100) >> 1) | ((r & 0x0200) >> 3) | ((r & 0x0400) >> 5) | ((r & 0x0800) >> 7) |
      ((r & 0x1000) >> 9) | ((r & 0x2000) >> 11) | ((r & 0x4000) >> 13) | ((r & 0x8000) >> 15)
    requires mm ==
      ((m & 0x0001) << 15) | ((m & 0x0002) << 13) | ((m & 0x0004) << 11) | ((m & 0x0008) << 9) |
      ((m & 0x0010) << 7) | ((m & 0x0020) << 5) | ((m & 0x0040) << 3) | ((m & 0x0080) << 1) |
      ((m & 0x0100) >> 1) | ((m & 0x0200) >> 3) | ((m & 0x0400) >> 5) | ((m & 0x0800) >> 7) |
      ((m & 0x1000) >> 9) | ((m & 0x2000) >> 11) | ((m & 0x4000) >> 13) | ((m & 0x8000) >> 15)
    ensures mm == r
  {
  }

  lemma MirrorXor(x: word, y: word)
    ensures Mirror(Xor(x, y)) == Xor(Mirror(x), Mirror(y))
  {
    hide *;
    XorValue(x, y);
    XorValue(Mirror(x), Mirror(y));
    MirrorValue(x);
    MirrorValue(y);
    MirrorValue(Xor(x, y));
    MirrorXorRaw(x, y, Xor(x, y), Mirror(x), Mirror(y), Mirror(Xor(x, y)));
  }

  lemma MirrorXorRaw(x: word, y: word, z: word, a: word, b: word, c: word)
    requires z == x ^ y
    requires a ==
      ((x & 0x0001) << 15) | ((x & 0x0002) << 13) | ((x & 0x0004) << 11) | ((x & 0x0008) << 9) |
      ((x & 0x0010) << 7) | ((x & 0x0020) << 5) | ((x & 0x0040) << 3) | ((x & 0x0080) << 1) |
      ((x & 0x0100) >> 1) | ((x & 0x0200) >> 3) | ((x & 0x0400) >> 5) | ((x & 0x0800) >> 7) |
      ((x & 0x1000) >> 9) | ((x & 0x2000) >> 11) | ((x & 0x4000) >> 13) | ((x & 0x8000) >> 15)
    requires b ==
      ((y & 0x0001) << 15) | ((y & 0x0002) << 13) | ((y & 0x0004) << 11) | ((y & 0x0008) << 9) |
      ((y & 0x0010) << 7) | ((y & 0x0020) << 5) | ((y & 0x0040) << 3) | ((y & 0x0080) << 1) |
      ((y & 0x0100) >> 1) | ((y & 0x0200) >> 3) | ((y & 0x0400) >> 5) | ((y & 0x0800) >> 7) |
      ((y & 0x1000) >> 9) | ((y & 0x2000) >> 11) | ((y & 0x4000) >> 13) | ((y & 0x8000) >> 15)
    requires c ==
      ((z & 0x0001) << 15) | ((z & 0x0002) << 13) | ((z & 0x0004) << 11) | ((z & 0x0008) << 9) |
      ((z & 0x0010) << 7) | ((z & 0x0020) << 5) | ((z & 0x0040) << 3) | ((z & 0x0080) << 1) |
      ((z & 0x0100) >> 1) | ((z & 0x0200) >> 3) | ((z & 0x0400) >> 5) | ((z & 0x0800) >> 7) |
      ((z & 0x1000) >> 9) | ((z & 0x2000) >> 11) | ((z & 0x4000) >> 13) | ((z & 0x8000) >> 15)
    ensures c == a ^ b
  {
  }

  /** Shifting up is shifting down in the mirror. */
  lemma MirrorShift(r: word)
    ensures Mirror(ShiftUp(r)) == ShiftDown(Mirror(r))
  {
    hide *;
    ShiftValues(r);
    ShiftValues(Mirror(r));
    MirrorXor(Twice(r), UpPolynomial(r));
    MirrorTwiceHalf(r);
    MirrorPolynomial(r);
  }

  lemma MirrorTwiceHalf(r: word)
    ensures Mirror(Twice(r)) == Half(Mirror(r))
  {
    hide *;
    TwiceValue(r);
    HalfValue(Mirror(r));
    MirrorValue(r);
    MirrorValue(Twice(r));
    MirrorShiftRaw(r, Mirror(r), Twice(r), Mirror(Twice(r)));
  }

  lemma MirrorShiftRaw(r: word, m: word, s: word, ms: word)
    requires s == r << 1
    requires m ==
      ((r & 0x0001) << 15) | ((r & 0x0002) << 13) | ((r & 0x0004) << 11) | ((r & 0x0008) << 9) |
      ((r & 0x0010) << 7) | ((r & 0x0020) << 5) | ((r & 0x0040) << 3) | ((r & 0x0080) << 1) |
      ((r & 0x0100) >> 1) | ((r & 0x0200) >> 3) | ((r & 0x0400) >> 5) | ((r & 0x0800) >> 7) |
      ((r & 0x1000) >> 9) | ((r & 0x2000) >> 11) | ((r & 0x4000) >> 13) | ((r & 0x8000) >> 15)
    requires ms ==
      ((s & 0x0001) << 15) | ((s & 0x0002) << 13) | ((s & 0x0004) << 11) | ((s & 0x0008) << 9) |
      ((s & 0x0010) << 7) | ((s & 0x0020) << 5) | ((s & 0x0040) << 3) | ((s & 0x0080) << 1) |
      ((s & 0x0100) >> 1) | ((s & 0x0200) >> 3) | ((s & 0x0400) >> 5) | ((s & 0x0800) >> 7) |
      ((s & 0x1000) >> 9) | ((s & 0x2000) >> 11) | ((s & 0x4000) >> 13) | ((s & 0x8000) >> 15)
    ensures ms == m >> 1
  {
  }

  lemma MirrorPolynomial(r: word)
    ensures Mirror(UpPolynomial(r)) == DownPolynomial(Mirror(r))
  {
    hide *;
    PolynomialValues(r);
    PolynomialValues(Mirror(r));
    MirrorValue(r);
    MirrorValue(UpPolynomial(r));
    TopRaw(r, Mirror(r));
    PolynomialRaw(r >> 15, UpPolynomial(r), Mirror(UpPolynomial(r)));
  }

  lemma TopRaw(r: word, m: word)
    requires m ==
      ((r & 0x0001) << 15) | ((r & 0x0002) << 13) | ((r & 0x0004) << 11) | ((r & 0x0008) << 9) |
      ((r & 0x0010) << 7) | ((r & 0x0020) << 5) | ((r & 0x0040) << 3) | ((r & 0x0080) << 1) |
      ((r & 0x0100) >> 1) | ((r & 0x0200) >> 3) | ((r & 0x0400) >> 5) | ((r & 0x0800) >> 7) |
      ((r & 0x1000) >> 9) | ((r & 0x2000) >> 11) | ((r & 0x4000) >> 13) | ((r & 0x8000) >> 15)
    ensures m & 1 == r >> 15 < 2
  {
  }

  lemma PolynomialRaw(b: word, q: word, mq: word)
    requires b < 2 && q == 0x3d65 & (0 - b)
    requires mq ==
      ((q & 0x0001) << 15) | ((q & 0x0002) << 13) | ((q & 0x0004) << 11) | ((q & 0x0008) << 9) |
      ((q & 0x0010) << 7) | ((q & 0x0020) << 5) | ((q & 0x0040) << 3) | ((q & 0x0080) << 1) |
      ((q & 0x0100) >> 1) | ((q & 0x0200) >> 3) | ((q & 0x0400) >> 5) | ((q & 0x0800) >> 7) |
      ((q & 0x1000) >> 9) | ((q & 0x2000) >> 11) | ((q & 0x4000) >> 13) | ((q & 0x8000) >> 15)
    ensures mq == 0xa6bc & (0 - b)
  {
  }

  lemma MirrorTop(bit: bool)
    ensures Mirror(TopBit(bit)) == AsBit(bit)
  {
  }

  lemma MirrorStep(r: word, bit: bool)
    ensures Mirror(DirectBit(r, bit)) == ReflectedBit(Mirror(r), bit)
  {
    hide *;
    BitValues(r, bit);
    BitValues(Mirror(r), bit);
    MirrorXor(r, TopBit(bit));
    MirrorTop(bit);
    MirrorShift(Xor(r, TopBit(bit)));
  }

  /** After every message the direct register is the mirror image of the reflected one. */
  lemma {:induction false} DirectIsReflected(r: word, s: seq<bool>)
    ensures Mirror(Fold(DirectBit, r, s)) == Fold(ReflectedBit, Mirror(r), s)
  {
    hide Mirror, DirectBit, ReflectedBit;
    if s != [] {
      var n := |s| - 1;
      DirectIsReflected(r, s[..n]);
      MirrorStep(Fold(DirectBit, r, s[..n]), s[n]);
    }
  }

  // ---- Direct and augmented ----

  lemma UpUnrolled(x: word, n: nat)
    ensures Up(n + 5, x) == ShiftUp(ShiftUp(ShiftUp(ShiftUp(ShiftUp(Up(n, x))))))
  {
    hide ShiftUp;
    assert Up(n + 2, x) == ShiftUp(ShiftUp(Up(n, x)));
    assert Up(n + 4, x) == ShiftUp(ShiftUp(Up(n + 2, x)));
  }

  lemma ShiftUpOne(k: word)
    requires k == 1 || k == 0x20 || k == 0x400
    ensures ShiftUp(ShiftUp(ShiftUp(ShiftUp(ShiftUp(k))))) == k << 5
    ensures ShiftUp(0) == 0
  {
  }

  lemma UpBit(bit: bool)
    ensures Up(15, AsBit(bit)) == TopBit(bit)
  {
    if bit {
      assert AsBit(true) == 1 && TopBit(true) == 0x8000;
      hide ShiftUp, AsBit, TopBit;
      UpUnrolled(1, 0);
      ShiftUpOne(1);
      UpUnrolled(1, 5);
      ShiftUpOne(0x20);
      UpUnrolled(1, 10);
      ShiftUpOne(0x400);
    } else {
      assert AsBit(false) == 0 && TopBit(false) == 0;
      hide ShiftUp, AsBit, TopBit;
      ShiftUpOne(1);
      UpUnrolled(0, 0);
      UpUnrolled(0, 5);
      UpUnrolled(0, 10);
    }
  }

  /** Sixteen zero bits after a message bit turn an augmented step into a direct one. */
  lemma FlushStep(r: word, bit: bool)
    ensures Up(16, AugmentedBit(r, bit)) == DirectBit(Up(16, r), bit)
  {
    assert Up(16, AsBit(bit)) == ShiftUp(Up(15, AsBit(bit)));
    hide *;
    BitValues(r, bit);
    BitValues(Up(16, r), bit);
    UpLinear(16, ShiftUp(r), AsBit(bit));
    UpCommutes(16, r);
    UpBit(bit);
    ShiftLinear(Up(16, r), TopBit(bit));
  }

  /** The augmented register, followed by sixteen zero bits, is the direct one. */
  lemma {:induction false} AugmentedIsDirect(r: word, s: seq<bool>)
    ensures Up(16, Fold(AugmentedBit, r, s)) == Fold(DirectBit, Up(16, r), s)
  {
    hide Up, AugmentedBit, DirectBit;
    if s != [] {
      var n := |s| - 1;
      AugmentedIsDirect(r, s[..n]);
      FlushStep(Fold(AugmentedBit, r, s[..n]), s[n]);
    }
  }

  lemma ZeroStays()
    ensures Up(16, 0) == 0 && Mirror(0) == 0
  {
    assert ShiftUp(0) == 0;
    hide ShiftUp;
    UpUnrolled(0, 0);
    UpUnrolled(0, 5);
    UpUnrolled(0, 10);
  }

  /** For every message the three forms give one checksum. */
  lemma FormsAgree(data: seq<byte>)
    ensures Xor(Mirror(Run(DirectBit, 0, data)), 0xffff) == Crc16(data)
    ensures Xor(Mirror(Up(16, Run(AugmentedBit, 0, data))), 0xffff) == Crc16(data)
  {
    hide Xor, Mirror, Up, Fold, AllBits;
    ZeroStays();
    DirectIsReflected(0, AllBits(data));
    AugmentedIsDirect(0, AllBits(data));
  }
}
