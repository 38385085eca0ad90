// The four implementations of CRC-16/DNP, each proved to compute the same checksum, and what that checksum detects.

module CrcImplementations {
  import opened Sequences
  import opened Crc
  import opened CrcTables

  // ---- Table steps are byte steps ----

  lemma SplitFour(x: word)
    ensures x == Xor(Low4(x), High12(x) << 4) && Low4(x) < 16
  {
  }

  lemma ShiftOutFour(x: word)
    ensures FourTurns(High12(x) << 4) == High12(x)
  {
  }

  lemma SplitEight(x: word)
    ensures x == Xor(Low8(x), High8(x) << 8) && Low8(x) < 256
  {
  }

  lemma ShiftOutEight(x: word)
    ensures Down(8, High8(x) << 8) == High8(x)
  {
    hide *;
    DownAdds(4, 4, High8(x) << 8);
    ShiftEightParts(x);
    ShiftOutFour(High8(x) << 8);
    FourTurnsIsDown(High8(x) << 8);
    ShiftOutFour(High8(x) << 4);
    FourTurnsIsDown(High8(x) << 4);
  }

  lemma ShiftEightParts(x: word)
    ensures High12(High8(x) << 8) << 4 == High8(x) << 8 && High12(High8(x) << 8) == High8(x) << 4
    ensures High12(High8(x) << 4) << 4 == High8(x) << 4 && High12(High8(x) << 4) == High8(x)
  {
  }

  lemma FourByTable(x: word)
    ensures Down(4, x) == Xor(NibbleTable(Low4(x)), High12(x))
  {
    hide *;
    SplitFour(x);
    ShiftOutFour(x);
    NibbleEntry(Low4(x));
    FourTurnsIsDown(Low4(x));
    FourTurnsIsDown(High12(x) << 4);
    DownLinear(4, Low4(x), High12(x) << 4);
  }

  /** The first row of the 256-entry table. */
  function FirstRow(j: word): word {
    Pick(j, 0x0000, 0x365E, 0x6CBC, 0x5AE2, 0xD978, 0xEF26, 0xB5C4, 0x839A,
            0xFF89, 0xC9D7, 0x9335, 0xA56B, 0x26F1, 0x10AF, 0x4A4D, 0x7C13)
  }

  /** That row with c added to every entry. */
  function Row(j: word, c: word): word {
    Pick(j, Xor(c, 0x0000), Xor(c, 0x365E), Xor(c, 0x6CBC), Xor(c, 0x5AE2),
            Xor(c, 0xD978), Xor(c, 0xEF26), Xor(c, 0xB5C4), Xor(c, 0x839A),
            Xor(c, 0xFF89), Xor(c, 0xC9D7), Xor(c, 0x9335), Xor(c, 0xA56B),
            Xor(c, 0x26F1), Xor(c, 0x10AF), Xor(c, 0x4A4D), Xor(c, 0x7C13))
  }

  lemma PickAdded(c: word, j: word, t0: word, t1: word, t2: word, t3: word, t4: word, t5: word, t6: word, t7: word,
                  t8: word, t9: word, ta: word, tb: word, tc: word, td: word, te: word, tf: word)
    ensures Xor(c, Pick(j, t0, t1, t2, t3, t4, t5, t6, t7, t8, t9, ta, tb, tc, td, te, tf))
      == Pick(j, Xor(c, t0), Xor(c, t1), Xor(c, t2), Xor(c, t3),
              Xor(c, t4), Xor(c, t5), Xor(c, t6), Xor(c, t7),
              Xor(c, t8), Xor(c, t9), Xor(c, ta), Xor(c, tb),
              Xor(c, tc), Xor(c, td), Xor(c, te), Xor(c, tf))
  {
    hide Xor;
  }

  lemma RowAdded(j: word, c: word)
    ensures Row(j, c) == Xor(FirstRow(j), c)
  {
    hide Pick, Xor;
    PickAdded(c, j, 0x0000, 0x365E, 0x6CBC, 0x5AE2, 0xD978, 0xEF26, 0xB5C4, 0x839A,
                    0xFF89, 0xC9D7, 0x9335, 0xA56B, 0x26F1, 0x10AF, 0x4A4D, 0x7C13);
    XorCommutes(c, FirstRow(j));
  }

  lemma ByteTableRows(i: word)
    ensures ByteTable(i) == Pick(i >> 4, Row(i & 15, 0x0000), Row(i & 15, 0xb26b), Row(i & 15, 0x29af), Row(i & 15, 0x9bc4),
          Row(i & 15, 0x535e), Row(i & 15, 0xe135), Row(i & 15, 0x7af1), Row(i & 15, 0xc89a),
          Row(i & 15, 0xa6bc), Row(i & 15, 0x14d7), Row(i & 15, 0x8f13), Row(i & 15, 0x3d78),
          Row(i & 15, 0xf5e2), Row(i & 15, 0x4789), Row(i & 15, 0xdc4d), Row(i & 15, 0x6e26))
  {
    hide Pick;
  }

  /** Every row of the 256-entry table is the first one, with an entry of the 16-entry table added. */
  lemma OtherRows(i: word)
    ensures ByteTable(i) == Xor(FirstRow(i & 15), NibbleTable(i >> 4))
  {
    var j := i & 15;
    hide Pick, Xor, FirstRow, Row, ByteTable;
    ByteTableRows(i);
    RowAdded(j, 0x0000);
    RowAdded(j, 0xb26b);
    RowAdded(j, 0x29af);
    RowAdded(j, 0x9bc4);
    RowAdded(j, 0x535e);
    RowAdded(j, 0xe135);
    RowAdded(j, 0x7af1);
    RowAdded(j, 0xc89a);
    RowAdded(j, 0xa6bc);
    RowAdded(j, 0x14d7);
    RowAdded(j, 0x8f13);
    RowAdded(j, 0x3d78);
    RowAdded(j, 0xf5e2);
    RowAdded(j, 0x4789);
    RowAdded(j, 0xdc4d);
    RowAdded(j, 0x6e26);
    PickAdded(FirstRow(j), i >> 4, 0x0000, 0xb26b, 0x29af, 0x9bc4, 0x535e, 0xe135, 0x7af1, 0xc89a,
                                   0xa6bc, 0x14d7, 0x8f13, 0x3d78, 0xf5e2, 0x4789, 0xdc4d, 0x6e26);
  }

  /** What four turns make of an entry of the 16-entry table. */
  function NextEntry(y: word): word {
    Xor(NibbleTable(Low4(y)), High12(y))
  }

  lemma PickMapped(j: word, t0: word, t1: word, t2: word, t3: word, t4: word, t5: word, t6: word, t7: word,
                   t8: word, t9: word, ta: word, tb: word, tc: word, td: word, te: word, tf: word)
    ensures NextEntry(Pick(j, t0, t1, t2, t3, t4, t5, t6, t7, t8, t9, ta, tb, tc, td, te, tf))
      == Pick(j, NextEntry(t0), NextEntry(t1), NextEntry(t2), NextEntry(t3),
              NextEntry(t4), NextEntry(t5), NextEntry(t6), NextEntry(t7),
              NextEntry(t8), NextEntry(t9), NextEntry(ta), NextEntry(tb),
              NextEntry(tc), NextEntry(td), NextEntry(te), NextEntry(tf))
  {
    hide NextEntry;
  }

  lemma NextEntries()
    ensures NextEntry(0x0000) == 0x0000
    ensures NextEntry(0xb26b) == 0x365E
    ensures NextEntry(0x29af) == 0x6CBC
    ensures NextEntry(0x9bc4) == 0x5AE2
    ensures NextEntry(0x535e) == 0xD978
    ensures NextEntry(0xe135) == 0xEF26
    ensures NextEntry(0x7af1) == 0xB5C4
    ensures NextEntry(0xc89a) == 0x839A
    ensures NextEntry(0xa6bc) == 0xFF89
    ensures NextEntry(0x14d7) == 0xC9D7
    ensures NextEntry(0x8f13) == 0x9335
    ensures NextEntry(0x3d78) == 0xA56B
    ensures NextEntry(0xf5e2) == 0x26F1
    ensures NextEntry(0x4789) == 0x10AF
    ensures NextEntry(0xdc4d) == 0x4A4D
    ensures NextEntry(0x6e26) == 0x7C13
  {
  }

  lemma FirstRowEntry(j: word)
    ensures FirstRow(j) == NextEntry(NibbleTable(j))
  {
    hide Pick, NextEntry;
    NextEntries();
    PickMapped(j, 0x0000, 0xb26b, 0x29af, 0x9bc4, 0x535e, 0xe135, 0x7af1, 0xc89a,
                  0xa6bc, 0x14d7, 0x8f13, 0x3d78, 0xf5e2, 0x4789, 0xdc4d, 0x6e26);
  }

  lemma NextEntryIsDown(j: word)
    requires j < 16
    ensures FirstRow(j) == Down(8, j)
  {
    var y := NibbleTable(j);
    assert NextEntry(y) == Xor(NibbleTable(Low4(y)), High12(y)) by { hide Xor, NibbleTable, Low4, High12; }
    hide *;
    FirstRowEntry(j);
    FourByTable(y);
    NibbleEntry(j);
    FourTurnsIsDown(j);
    DownAdds(4, 4, j);
  }

  lemma NibbleOfByte(i: word)
    requires i < 256
    ensures High12(i) < 16 && i & 15 == Low4(i) < 16 && i >> 4 == High12(i)
  {
  }

  /** Every entry of the 256-entry table is eight turns of the register. */
  lemma ByteEntry(i: word)
    requires i < 256
    ensures ByteTable(i) == Down(8, i)
  {
    hide *;
    NibbleOfByte(i);
    SplitFour(i);
    ShiftOutFour(i);
    FourTurnsIsDown(High12(i) << 4);
    DownAdds(4, 4, High12(i) << 4);
    NibbleEntry(High12(i));
    FourTurnsIsDown(High12(i));
    NextEntryIsDown(Low4(i));
    DownLinear(8, Low4(i), High12(i) << 4);
    OtherRows(i);
  }

  lemma EightByTable(x: word)
    ensures Down(8, x) == Xor(ByteTable(Low8(x)), High8(x))
  {
    hide *;
    SplitEight(x);
    ShiftOutEight(x);
    ByteEntry(Low8(x));
    DownLinear(8, Low8(x), High8(x) << 8);
  }

  /** One lookup in the 256-entry table is one byte of the reflected register. */
  lemma ByteStepExact(crc: word, d: byte)
    ensures ByteStep(crc, d) == Run(ReflectedBit, crc, [d])
  {
    var x := Xor(crc, AsWord(d));
    IndexIsLow(crc, d);
    assert ByteStep(crc, d) == Xor(ByteTable(Xor(AsWord(d), Low8(crc))), High8(crc)) by {
      hide Xor, ByteTable, Low8, High8, AsWord;
    }
    hide *;
    EightByTable(x);
    ByteIsDown(crc, d);
  }

  lemma IndexIsLow(crc: word, d: byte)
    ensures Xor(AsWord(d), Low8(crc)) == Low8(Xor(crc, AsWord(d)))
    ensures High8(crc) == High8(Xor(crc, AsWord(d)))
  {
  }

  /** Two lookups in the 16-entry table are one byte of the reflected register. */
  lemma NibbleStepExact(crc: word, d: byte)
    ensures NibbleStep(crc, d) == Run(ReflectedBit, crc, [d])
  {
    var low, high := Low4(AsWord(d)), High12(AsWord(d));
    var first := Xor(NibbleTable(Low4(Xor(crc, AsWord(d)))), High12(crc));
    assert NibbleStep(crc, d) == Xor(NibbleTable(Low4(Xor(first, high))), High12(first)) by {
      hide Xor, NibbleTable, Low4, High12, AsWord;
    }
    hide *;
    NibbleParts(crc, d);
    HighNibble(first, d);
    FourByTable(Xor(crc, low));
    assert first == Down(4, Xor(crc, low));
    FourByTable(Xor(first, high));
    FourTurnsIsDown(high << 4);
    DownLinear(4, Xor(crc, low), high << 4);
    DownAdds(4, 4, Xor(Xor(crc, low), high << 4));
    XorAssociates(crc, low, high << 4);
    SplitFour(AsWord(d));
    ShiftOutFour(AsWord(d));
    ByteIsDown(crc, d);
  }

  lemma NibbleParts(crc: word, d: byte)
    ensures Low4(Xor(crc, AsWord(d))) == Low4(Xor(crc, Low4(AsWord(d))))
    ensures High12(Xor(crc, Low4(AsWord(d)))) == High12(crc)
  {
  }

  lemma HighNibble(first: word, d: byte)
    ensures High12(Xor(first, High12(AsWord(d)))) == High12(first)
  {
  }

  // ---- The implementations ----

  /** The body of the loop of crc_16_dnp_tbl4bit_update. */
  method Tbl4bitByte(crc0: word, d: byte) returns (crc: word)
    ensures crc == NibbleStep(crc0, d)
  {
    hide *;
    var tblIdx := Xor(crc0, AsWord(d));
    crc := Xor(NibbleTable(Low4(tblIdx)), High12(crc0));
    NibbleStepValue(crc0, d, crc);
    tblIdx := Xor(crc, High12(AsWord(d)));
    crc := Xor(NibbleTable(Low4(tblIdx)), High12(crc));
  }

  lemma NibbleStepValue(crc: word, d: byte, first: word)
    requires first == Xor(NibbleTable(Low4(Xor(crc, AsWord(d)))), High12(crc))
    ensures NibbleStep(crc, d) == Xor(NibbleTable(Low4(Xor(first, High12(AsWord(d))))), High12(first))
  {
    hide Xor, NibbleTable, Low4, High12, AsWord;
  }

  /** crc_16_dnp_tbl4bit_update: the one the library is built with. */
  method Tbl4bitUpdate(crc0: word, data: array<byte>, offset: nat, length: nat) returns (crc: word)
    requires offset + length <= data.Length
    ensures crc == Run(ReflectedBit, crc0, data[offset..offset + length])
  {
    hide *;
    crc := crc0;
    var d, left := offset, length;
    RunNothing(ReflectedBit, crc0);
    assert data[offset..offset] == [];
    while left > 0
      invariant 0 <= left <= length && d == offset + length - left
      invariant crc == Run(ReflectedBit, crc0, data[offset..d])
    {
      left := left - 1;
      NibbleStepExact(crc, data[d]);
      RunAppend(ReflectedBit, crc0, data[offset..d], [data[d]]);
      assert data[offset..d + 1] == data[offset..d] + [data[d]];
      crc := Tbl4bitByte(crc, data[d]);
      d := d + 1;
    }
  }

  lemma RunNothing(step: (word, bool) -> word, r: word)
    ensures Run(step, r, []) == r
  {
    assert AllBits([]) == [];
  }

  /** The body of the loop of computeCRC_16_DNP. */
  method CrcmodByte(crc0: word, d: byte) returns (crc: word)
    ensures crc == ByteStep(crc0, d)
  {
    hide Xor, AsWord, ByteTable, Low8, High8;
    crc := Xor(ByteTable(Xor(AsWord(d), Low8(crc0))), High8(crc0));
  }

  /** computeCRC_16_DNP: the register is inverted on the way in and on the way out. */
  method CrcmodCompute(data: array<byte>, offset: nat, length: nat, crc0: word) returns (crc: word)
    requires offset + length <= data.Length
    ensures crc == Xor(Run(ReflectedBit, Xor(crc0, 0xffff), data[offset..offset + length]), 0xffff)
  {
    hide *;
    crc := Xor(crc0, 0xffff);
    ghost var r := crc;
    var d, len := offset, length;
    RunNothing(ReflectedBit, r);
    assert data[offset..offset] == [];
    while len > 0
      invariant 0 <= len <= length && d == offset + length - len
      invariant crc == Run(ReflectedBit, r, data[offset..d])
    {
      ByteStepExact(crc, data[d]);
      RunAppend(ReflectedBit, r, data[offset..d], [data[d]]);
      assert data[offset..d + 1] == data[offset..d] + [data[d]];
      crc := CrcmodByte(crc, data[d]);
      d := d + 1;
      len := len - 1;
    }
    crc := Xor(crc, 0xffff);
  }

  /** Is the bit of c under the mask i set? */
  function Selects(c: byte, i: word): bool {
    AsWord(c) & i != 0
  }

  lemma SelectsBit(c: byte, k: nat)
    requires k < 8
    ensures Selects(c, BitAt(k)) == Bits(c)[k]
  {
  }

  /** Has the mask i not yet left the byte? */
  function InByte(i: word): bool {
    i & 0xff != 0
  }

  lemma MaskMoves(k: nat)
    requires k <= 8
    ensures InByte(BitAt(k)) <==> k < 8
    ensures k < 8 ==> Twice(BitAt(k)) == BitAt(k + 1)
  {
  }

  /** crc_16_dnp_bbf_update. */
  method BbfUpdate(crc0: word, data: array<byte>, offset: nat, length: nat) returns (crc: word)
    requires offset + length <= data.Length
    ensures crc == Run(DirectBit, crc0, data[offset..offset + length])
  {
    hide *;
    crc := crc0;
    var d, left := offset, length;
    RunNothing(DirectBit, crc0);
    assert data[offset..offset] == [];
    while left > 0
      invariant 0 <= left <= length && d == offset + length - left
      invariant crc == Run(DirectBit, crc0, data[offset..d])
    {
      left := left - 1;
      RunByte(DirectBit, crc, data[d]);
      RunAppend(DirectBit, crc0, data[offset..d], [data[d]]);
      assert data[offset..d + 1] == data[offset..d] + [data[d]];
      crc := BbfByte(crc, data[d]);
      d := d + 1;
    }
  }

  /** The inner loop of crc_16_dnp_bbf_update: the mask i runs through 0x01, 0x02, ... until it leaves the byte. */
  method BbfByte(crc0: word, c: byte) returns (crc: word)
    ensures crc == Fold(DirectBit, crc0, Bits(c))
  {
    hide *;
    crc := crc0;
    var i: word := 0x01;
    ghost var k := 0;
    FirstMask();
    FoldNothing(DirectBit, crc0, Bits(c));
    MaskMoves(0);
    while InByte(i)
      invariant 0 <= k <= 8 && i == BitAt(k)
      invariant crc == Fold(DirectBit, crc0, Bits(c)[..k])
      decreases 8 - k
    {
      MaskMoves(k);
      SelectsBit(c, k);
      DirectBitCode(crc, Bits(c)[k]);
      FoldNext(DirectBit, crc0, Bits(c), k);
      var bit := HighBit(crc);
      if Selects(c, i) {
        bit := !bit;
      }
      crc := Twice(crc);
      if bit {
        crc := Xor(crc, 0x3d65);
      }
      i := Twice(i);
      k := k + 1;
    }
    assert k == 8 by { MaskMoves(k); }
    assert Bits(c)[..8] == Bits(c);
  }

  lemma FirstMask()
    ensures BitAt(0) == 0x01
  {
  }

  lemma FoldNothing(step: (word, bool) -> word, r: word, s: seq<bool>)
    ensures Fold(step, r, s[..0]) == r
  {
  }

  lemma FoldNext(step: (word, bool) -> word, r: word, s: seq<bool>, k: nat)
    requires k < |s|
    ensures Fold(step, r, s[..k + 1]) == step(Fold(step, r, s[..k]), s[k])
  {
    assert s[..k + 1][..k] == s[..k];
  }

  // ---- The augmented implementation ----

  function RightBy(r: word, k: word): word
    requires k < 16
  {
    r >> k
  }

  /** Shift left, the bottom bit of data entering at the bottom. */
  function Append(ret: word, data: word): word {
    (ret << 1) | (data & 0x01)
  }

  function TopBits(m: word, n: word): word
    requires 1 <= n <= 16
  {
    m >> (16 - n)
  }

  /** The low n bits of data in the opposite order. */
  function Reflected(data: word, n: word): word
    requires 1 <= n <= 16
  {
    TopBits(Mirror(data), n)
  }

  lemma ReflectFirst(data: word)
    ensures Reflected(data, 1) == LowBit(data) && RightBy(data, 0) == data
  {
  }

  lemma RightByNext(data: word, i: word)
    requires 1 <= i < 16
    ensures Half(RightBy(data, i - 1)) == RightBy(data, i)
  {
  }

  lemma ReflectNext(data: word, i: word)
    requires 1 <= i < 16
    ensures Reflected(data, i + 1) == Append(Reflected(data, i), RightBy(data, i))
  {
    assert Reflected(data, i) == TopBits(Mirror(data), i) by { hide Mirror, TopBits; }
    assert Reflected(data, i + 1) == TopBits(Mirror(data), i + 1) by { hide Mirror, TopBits; }
    hide *;
    MirrorSameBit(data, i);
    AppendSameBit(Mirror(data), data, i);
  }

  predicate SameBit(m: word, data: word, i: word)
    requires i < 16
  {
    (m >> (15 - i)) & 1 == (data >> i) & 1
  }

  lemma MirrorSameBit(data: word, i: word)
    requires i < 16
    ensures SameBit(Mirror(data), data, i)
  {
    hide Mirror;
    MirrorExchanges(data, 15 - i);
  }

  lemma AppendSameBit(m: word, data: word, i: word)
    requires 1 <= i < 16 && SameBit(m, data, i)
    ensures Append(TopBits(m, i), RightBy(data, i)) == TopBits(m, i + 1)
  {
  }

  lemma ReflectAll(data: word)
    ensures Reflected(data, 16) == Mirror(data)
  {
  }

  /** crc_16_dnp_bbb_reflect and crc_16_dnp_bbf_reflect. */
  method Reflect(data0: word, dataLen: word) returns (ret: word)
    requires 1 <= dataLen <= 16
    ensures ret == Reflected(data0, dataLen)
  {
    hide *;
    var data := data0;
    ret := LowBit(data);
    ReflectFirst(data0);
    var i: word := 1;
    while i < dataLen
      invariant 1 <= i <= dataLen
      invariant data == RightBy(data0, i - 1) && ret == Reflected(data0, i)
      decreases dataLen - i
    {
      RightByNext(data0, i);
      ReflectNext(data0, i);
      data := Half(data);
      ret := Append(ret, data);
      i := i + 1;
    }
  }

  /** crc_16_dnp_bbf_finalize. */
  method BbfFinalize(crc0: word) returns (crc: word)
    ensures crc == Xor(Mirror(crc0), 0xffff)
  {
    hide *;
    crc := Reflect(crc0, 16);
    ReflectAll(crc0);
    crc := Xor(crc, 0xffff);
  }

  /** Bit 7 - i of the reflected byte c. */
  function BitFromTop(c: word, i: nat): bool
    requires i < 8
  {
    (c >> (7 - i)) & 0x01 != 0
  }

  lemma ReflectedByte(d: byte, i: nat)
    requires i < 8
    ensures BitFromTop(Reflected(AsWord(d), 8), i) == Bits(d)[i]
  {
  }

  /** The inner loop of crc_16_dnp_bbb_update. */
  method BbbByte(crc0: word, d: byte) returns (crc: word)
    ensures crc == Fold(AugmentedBit, crc0, Bits(d))
  {
    hide *;
    crc := crc0;
    FoldNothing(AugmentedBit, crc0, Bits(d));
    var c := Reflect(AsWord(d), 8);
    for i := 0 to 8
      invariant crc == Fold(AugmentedBit, crc0, Bits(d)[..i])
    {
      ReflectedByte(d, i);
      AugmentedBitCode(crc, Bits(d)[i]);
      FoldNext(AugmentedBit, crc0, Bits(d), i);
      var bit := HighBit(crc);
      crc := Enter(crc, BitFromTop(c, i));
      if bit {
        crc := Xor(crc, 0x3d65);
      }
    }
    assert Bits(d)[..8] == Bits(d);
  }

  /** crc_16_dnp_bbb_update. */
  method BbbUpdate(crc0: word, data: array<byte>, offset: nat, length: nat) returns (crc: word)
    requires offset + length <= data.Length
    ensures crc == Run(AugmentedBit, crc0, data[offset..offset + length])
  {
    hide *;
    crc := crc0;
    var d, left := offset, length;
    RunNothing(AugmentedBit, crc0);
    assert data[offset..offset] == [];
    while left > 0
      invariant 0 <= left <= length && d == offset + length - left
      invariant crc == Run(AugmentedBit, crc0, data[offset..d])
    {
      left := left - 1;
      RunByte(AugmentedBit, crc, data[d]);
      RunAppend(AugmentedBit, crc0, data[offset..d], [data[d]]);
      assert data[offset..d + 1] == data[offset..d] + [data[d]];
      crc := BbbByte(crc, data[d]);
      d := d + 1;
    }
  }

  /** crc_16_dnp_bbb_finalize: sixteen zero bits, then reflect and invert. */
  method BbbFinalize(crc0: word) returns (crc: word)
    ensures crc == Xor(Mirror(Up(16, crc0)), 0xffff)
  {
    crc := crc0;
    hide ShiftUp, Xor, Twice, HighBit, Mirror, Reflected;
    for i := 0 to 16
      invariant crc == Up(i, crc0)
    {
      ShiftUpCode(crc);
      var bit := HighBit(crc);
      crc := Twice(crc);
      if bit {
        crc := Xor(crc, 0x3d65);
      }
    }
    ReflectAll(crc);
    crc := Reflect(crc, 16);
    crc := Xor(crc, 0xffff);
  }

  // ---- All four agree ----

  /** On every message the four implementations, each with its own initial value and finish, give one checksum. */
  method AllAgree(data: array<byte>, offset: nat, length: nat)
      returns (bbb: word, bbf: word, tbl4bit: word, crcmod: word)
    requires offset + length <= data.Length
    ensures bbb == bbf == tbl4bit == crcmod == Crc16(data[offset..offset + length])
  {
    ghost var message := data[offset..offset + length];
    assert Crc16(message) == Xor(Run(ReflectedBit, 0, message), 0xffff) by { hide Xor, Run; }
    assert Xor(0xffff, 0xffff) == 0;
    hide *;
    FormsAgree(message);
    bbb := BbbUpdate(0, data, offset, length);
    bbb := BbbFinalize(bbb);
    bbf := BbfUpdate(0, data, offset, length);
    bbf := BbfFinalize(bbf);
    tbl4bit := Tbl4bitUpdate(0, data, offset, length);
    tbl4bit := Xor(tbl4bit, 0xffff);
    crcmod := CrcmodCompute(data, offset, length, 0xffff);
  }
}
