// The protocol in bytes: frames and conversations written out as they appear on the wire.

module Literals {
  import opened AscException
  import opened Sequences
  import opened Crc
  import opened CrcTables
  import opened CrcImplementations
  import opened Hex
  import opened Frames
  import opened Encoding
  import opened Streams
  import opened SerialCom
  import opened Registers
  import opened Device
  import opened Serving

  // ---- Checksums of literal bytes ----

  lemma Four(r0: word, d0: byte, r1: word, d1: byte, r2: word, d2: byte, r3: word, d3: byte, r4: word)
    requires NibbleStep(r0, d0) == r1 && NibbleStep(r1, d1) == r2
    requires NibbleStep(r2, d2) == r3 && NibbleStep(r3, d3) == r4
    ensures Run(ReflectedBit, r0, [d0, d1, d2, d3]) == r4
  {
    hide *;
    NibbleStepExact(r0, d0);
    NibbleStepExact(r1, d1);
    NibbleStepExact(r2, d2);
    NibbleStepExact(r3, d3);
    RunAppend(ReflectedBit, r0, [d0], [d1]);
    RunAppend(ReflectedBit, r0, [d0] + [d1], [d2]);
    RunAppend(ReflectedBit, r0, [d0] + [d1] + [d2], [d3]);
    assert [d0] + [d1] + [d2] + [d3] == [d0, d1, d2, d3];
  }

  lemma Five(r0: word, d0: byte, r1: word, d1: byte, r2: word, d2: byte, r3: word, d3: byte, r4: word,
             d4: byte, r5: word)
    requires NibbleStep(r0, d0) == r1 && NibbleStep(r1, d1) == r2
    requires NibbleStep(r2, d2) == r3 && NibbleStep(r3, d3) == r4
    requires NibbleStep(r4, d4) == r5
    ensures Run(ReflectedBit, r0, [d0, d1, d2, d3, d4]) == r5
  {
    hide *;
    Four(r0, d0, r1, d1, r2, d2, r3, d3, r4);
    NibbleStepExact(r4, d4);
    RunAppend(ReflectedBit, r0, [d0, d1, d2, d3], [d4]);
    assert [d0, d1, d2, d3] + [d4] == [d0, d1, d2, d3, d4];
  }

  lemma FrameIs(m: Message, head: seq<byte>, r: word, digits: seq<byte>)
    requires Run(ReflectedBit, 0, head) == r && HexOf16(Xor(r, 0xffff), true) == digits
    requires head == [0x3E, m.ascVersion, m.appVersion, m.command] + m.data + [0x2E]
    ensures Frame(m) == head + digits + [0x0A]
  {
    assert START == 0x3E && PERIOD == 0x2E && END == 0x0A;
    assert Head(m) == head;
    hide Xor, Run, HexOf16;
  }

  /** The same for a register number and a value, in pieces. */
  lemma ValueFrame(m: Message, num: seq<byte>, high: seq<byte>, low: seq<byte>, r1: word, r2: word, r3: word, r4: word,
                   r5: word, r6: word, digits: seq<byte>)
    requires |digits| == 4 && m.data == num + [0x2C] + (high + low)
    requires Run(ReflectedBit, 0, [0x3E, m.ascVersion, m.appVersion, m.command]) == r1
    requires Run(ReflectedBit, r1, num) == r2 && NibbleStep(r2, 0x2C) == r3
    requires Run(ReflectedBit, r3, high) == r4 && Run(ReflectedBit, r4, low) == r5 && NibbleStep(r5, 0x2E) == r6
    requires HexOf16(Xor(r6, 0xffff), true) == digits
    ensures Frame(m)
      == [0x3E, m.ascVersion, m.appVersion, m.command] + num + [0x2C] + (high + low) + [0x2E] + digits + [0x0A]
  {
    hide *;
    var first := [0x3E, m.ascVersion, m.appVersion, m.command];
    NibbleStepExact(r2, 0x2C);
    NibbleStepExact(r5, 0x2E);
    RunAppend(ReflectedBit, 0, first, num);
    RunAppend(ReflectedBit, 0, first + num, [0x2C]);
    RunAppend(ReflectedBit, 0, first + num + [0x2C], high + low);
    RunAppend(ReflectedBit, r3, high, low);
    RunAppend(ReflectedBit, 0, first + num + [0x2C] + (high + low), [0x2E]);
    Associates(first + num, [0x2C], high + low);
    Associates(first, num, [0x2C] + (high + low));
    Associates(num, [0x2C], high + low);
    FrameIs(m, first + num + [0x2C] + (high + low) + [0x2E], r6, digits);
  }

  /** A sendable message and its frame: each is made of the other. */
  lemma Codec(m: Message, bytes: seq<byte>)
    requires Sendable(m) && Frame(m) == bytes
    ensures Receive(bytes) == Receipt(Delivered(m), []) && Put([], m) == (Done, bytes)
  {
    hide *;
    assert |m.data| + 10 <= 64 by { SendableFits(m); }
    DrainedFits(m);
    RoundTrip(m, []);
    PutAppendsFrame([], m);
    assert bytes + [] == bytes && [] + bytes == bytes;
  }

  lemma SendableFits(m: Message)
    requires Sendable(m)
    ensures |m.data| + 10 <= 64
  {
  }

  lemma DrainedFits(m: Message)
    requires |m.data| + 10 <= 64
    ensures Fits([], m)
  {
  }

  // ---- Frames ----

  /** `>00w.23A6\n` */
  const WRITE_NOTHING: seq<byte> :=
    [0x3E, 0x30, 0x30, 0x77, 0x2E, 0x32, 0x33, 0x41, 0x36, 0x0A]

  /** `>00e15,w,.DF68\n` */
  const WRITE_REFUSED: seq<byte> :=
    [0x3E, 0x30, 0x30, 0x65, 0x31, 0x35, 0x2C, 0x77, 0x2C, 0x2E, 0x44, 0x46,
     0x36, 0x38, 0x0A]

  /** `>00n.3854\n` */
  const SWITCH_ON: seq<byte> :=
    [0x3E, 0x30, 0x30, 0x6E, 0x2E, 0x33, 0x38, 0x35, 0x34, 0x0A]

  /** `>00e15,n,.DDE9\n` */
  const SWITCH_REFUSED: seq<byte> :=
    [0x3E, 0x30, 0x30, 0x65, 0x31, 0x35, 0x2C, 0x6E, 0x2C, 0x2E, 0x44, 0x44,
     0x45, 0x39, 0x0A]

  /** `>00r0002.C642\n` */
  const READ_REQUESTED: seq<byte> :=
    [0x3E, 0x30, 0x30, 0x72, 0x30, 0x30, 0x30, 0x32, 0x2E, 0x43, 0x36, 0x34,
     0x32, 0x0A]

  /** `>00w0002.3ECB\n` */
  const WRITE_ECHOED: seq<byte> :=
    [0x3E, 0x30, 0x30, 0x77, 0x30, 0x30, 0x30, 0x32, 0x2E, 0x33, 0x45, 0x43,
     0x42, 0x0A]

  /** `>00w0002,ABCDEF01.0C58\n` */
  const WRITE_REQUESTED: seq<byte> :=
    [0x3E, 0x30, 0x30, 0x77] + [0x30, 0x30, 0x30, 0x32] + [0x2C]
    + [0x41, 0x42, 0x43, 0x44, 0x45, 0x46, 0x30, 0x31] + [0x2E] + [0x30, 0x43, 0x35, 0x38] + [0x0A]

  /** `>00r0002,12CD5601.A8B7\n` */
  const VALUE_READ: seq<byte> :=
    [0x3E, 0x30, 0x30, 0x72] + [0x30, 0x30, 0x30, 0x32] + [0x2C]
    + [0x31, 0x32, 0x43, 0x44, 0x35, 0x36, 0x30, 0x31] + [0x2E] + [0x41, 0x38, 0x42, 0x37] + [0x0A]

  lemma Piece1()
    ensures Run(ReflectedBit, 0x0000, [0x3E, 0x30, 0x30, 0x77, 0x2E]) == 0xDC59
  {
    assert NibbleStep(0x0000, 0x3E) == 0xD189 && NibbleStep(0xD189, 0x30) == 0xF47E;
    assert NibbleStep(0xF47E, 0x30) == 0x19E7 && NibbleStep(0x19E7, 0x77) == 0x14CE;
    assert NibbleStep(0x14CE, 0x2E) == 0xDC59;
    hide *;
    Five(0x0000, 0x3E, 0xD189, 0x30, 0xF47E, 0x30, 0x19E7, 0x77, 0x14CE, 0x2E, 0xDC59);
  }

  lemma Piece2()
    ensures Run(ReflectedBit, 0x0000, [0x3E, 0x30, 0x30, 0x77]) == 0x14CE
  {
    assert NibbleStep(0x0000, 0x3E) == 0xD189 && NibbleStep(0xD189, 0x30) == 0xF47E;
    assert NibbleStep(0xF47E, 0x30) == 0x19E7 && NibbleStep(0x19E7, 0x77) == 0x14CE;
    hide *;
    Four(0x0000, 0x3E, 0xD189, 0x30, 0xF47E, 0x30, 0x19E7, 0x77, 0x14CE);
  }

  lemma Piece3()
    ensures Run(ReflectedBit, 0x14CE, [0x46, 0x46, 0x46, 0x46, 0x2E]) == 0x60C4
  {
    assert NibbleStep(0x14CE, 0x46) == 0x5921 && NibbleStep(0x5921, 0x46) == 0xF932;
    assert NibbleStep(0xF932, 0x46) == 0x111B && NibbleStep(0x111B, 0x46) == 0xF18B;
    assert NibbleStep(0xF18B, 0x2E) == 0x60C4;
    hide *;
    Five(0x14CE, 0x46, 0x5921, 0x46, 0xF932, 0x46, 0x111B, 0x46, 0xF18B, 0x2E, 0x60C4);
  }

  lemma Piece4()
    ensures Run(ReflectedBit, 0x0000, [0x3E, 0x78, 0x78, 0x78, 0x2E]) == 0x8642
  {
    assert NibbleStep(0x0000, 0x3E) == 0xD189 && NibbleStep(0xD189, 0x78) == 0x58A9;
    assert NibbleStep(0x58A9, 0x78) == 0x718F && NibbleStep(0x718F, 0x78) == 0xEDCD;
    assert NibbleStep(0xEDCD, 0x2E) == 0x8642;
    hide *;
    Five(0x0000, 0x3E, 0xD189, 0x78, 0x58A9, 0x78, 0x718F, 0x78, 0xEDCD, 0x2E, 0x8642);
  }

  lemma Piece5()
    ensures Run(ReflectedBit, 0x0000, [0x3E, 0x31, 0x32, 0x72, 0x2E]) == 0xB145
  {
    assert NibbleStep(0x0000, 0x3E) == 0xD189 && NibbleStep(0xD189, 0x31) == 0xC220;
    assert NibbleStep(0xC220, 0x32) == 0xDE15 && NibbleStep(0xDE15, 0x72) == 0xF9B5;
    assert NibbleStep(0xF9B5, 0x2E) == 0xB145;
    hide *;
    Five(0x0000, 0x3E, 0xD189, 0x31, 0xC220, 0x32, 0xDE15, 0x72, 0xF9B5, 0x2E, 0xB145);
  }

  lemma Piece6()
    ensures Run(ReflectedBit, 0x0000, [0x3E, 0x30, 0x30, 0x65, 0x31]) == 0xD6EC
  {
    assert NibbleStep(0x0000, 0x3E) == 0xD189 && NibbleStep(0xD189, 0x30) == 0xF47E;
    assert NibbleStep(0xF47E, 0x30) == 0x19E7 && NibbleStep(0x19E7, 0x65) == 0xCA19;
    assert NibbleStep(0xCA19, 0x31) == 0xD6EC;
    hide *;
    Five(0x0000, 0x3E, 0xD189, 0x30, 0xF47E, 0x30, 0x19E7, 0x65, 0xCA19, 0x31, 0xD6EC);
  }

  lemma Piece7()
    ensures Run(ReflectedBit, 0xD6EC, [0x35, 0x2C, 0x77, 0x2C, 0x2E]) == 0x2097
  {
    assert NibbleStep(0xD6EC, 0x35) == 0x8E88 && NibbleStep(0x8E88, 0x2C) == 0x56E5;
    assert NibbleStep(0x56E5, 0x77) == 0x783D && NibbleStep(0x783D, 0x2C) == 0x844D;
    assert NibbleStep(0x844D, 0x2E) == 0x2097;
    hide *;
    Five(0xD6EC, 0x35, 0x8E88, 0x2C, 0x56E5, 0x77, 0x783D, 0x2C, 0x844D, 0x2E, 0x2097);
  }

  lemma Piece8()
    ensures Run(ReflectedBit, 0x0000, [0x3E, 0x30, 0x30, 0x73]) == 0xCDB6
  {
    assert NibbleStep(0x0000, 0x3E) == 0xD189 && NibbleStep(0xD189, 0x30) == 0xF47E;
    assert NibbleStep(0xF47E, 0x30) == 0x19E7 && NibbleStep(0x19E7, 0x73) == 0xCDB6;
    hide *;
    Four(0x0000, 0x3E, 0xD189, 0x30, 0xF47E, 0x30, 0x19E7, 0x73, 0xCDB6);
  }

  lemma Piece9()
    ensures Run(ReflectedBit, 0xCDB6, [0x30, 0x31, 0x2C, 0x30]) == 0x6C77
  {
    assert NibbleStep(0xCDB6, 0x30) == 0x13B5 && NibbleStep(0x13B5, 0x31) == 0x7FD7;
    assert NibbleStep(0x7FD7, 0x2C) == 0xCB32 && NibbleStep(0xCB32, 0x30) == 0x6C77;
    hide *;
    Four(0xCDB6, 0x30, 0x13B5, 0x31, 0x7FD7, 0x2C, 0xCB32, 0x30, 0x6C77);
  }

  lemma Piece10()
    ensures Run(ReflectedBit, 0x6C77, [0x30, 0x30, 0x30, 0x2E]) == 0x6E51
  {
    assert NibbleStep(0x6C77, 0x30) == 0xD0A8 && NibbleStep(0xD0A8, 0x30) == 0xEB8E;
    assert NibbleStep(0xEB8E, 0x30) == 0x77DE && NibbleStep(0x77DE, 0x2E) == 0x6E51;
    hide *;
    Four(0x6C77, 0x30, 0xD0A8, 0x30, 0xEB8E, 0x30, 0x77DE, 0x2E, 0x6E51);
  }

  lemma Piece11()
    ensures Run(ReflectedBit, 0x0000, [0x3E, 0x30, 0x30, 0x6E, 0x2E]) == 0xC7AB
  {
    assert NibbleStep(0x0000, 0x3E) == 0xD189 && NibbleStep(0xD189, 0x30) == 0xF47E;
    assert NibbleStep(0xF47E, 0x30) == 0x19E7 && NibbleStep(0x19E7, 0x6E) == 0x6F72;
    assert NibbleStep(0x6F72, 0x2E) == 0xC7AB;
    hide *;
    Five(0x0000, 0x3E, 0xD189, 0x30, 0xF47E, 0x30, 0x19E7, 0x6E, 0x6F72, 0x2E, 0xC7AB);
  }

  lemma Piece12()
    ensures Run(ReflectedBit, 0xD6EC, [0x35, 0x2C, 0x6E, 0x2C, 0x2E]) == 0x2216
  {
    assert NibbleStep(0xD6EC, 0x35) == 0x8E88 && NibbleStep(0x8E88, 0x2C) == 0x56E5;
    assert NibbleStep(0x56E5, 0x6E) == 0x0381 && NibbleStep(0x0381, 0x2C) == 0x9FBF;
    assert NibbleStep(0x9FBF, 0x2E) == 0x2216;
    hide *;
    Five(0xD6EC, 0x35, 0x8E88, 0x2C, 0x56E5, 0x6E, 0x0381, 0x2C, 0x9FBF, 0x2E, 0x2216);
  }

  lemma Piece13()
    ensures Run(ReflectedBit, 0x0000, [0x3E, 0x30, 0x30, 0x72]) == 0xFBE8
  {
    assert NibbleStep(0x0000, 0x3E) == 0xD189 && NibbleStep(0xD189, 0x30) == 0xF47E;
    assert NibbleStep(0xF47E, 0x30) == 0x19E7 && NibbleStep(0x19E7, 0x72) == 0xFBE8;
    hide *;
    Four(0x0000, 0x3E, 0xD189, 0x30, 0xF47E, 0x30, 0x19E7, 0x72, 0xFBE8);
  }

  lemma Piece14()
    ensures Run(ReflectedBit, 0xFBE8, [0x30, 0x30, 0x30, 0x32, 0x2E]) == 0x39BD
  {
    assert NibbleStep(0xFBE8, 0x30) == 0xB8FB && NibbleStep(0xB8FB, 0x30) == 0x5031;
    assert NibbleStep(0x5031, 0x30) == 0x360E && NibbleStep(0x360E, 0x32) == 0xBD03;
    assert NibbleStep(0xBD03, 0x2E) == 0x39BD;
    hide *;
    Five(0xFBE8, 0x30, 0xB8FB, 0x30, 0x5031, 0x30, 0x360E, 0x32, 0xBD03, 0x2E, 0x39BD);
  }

  lemma Piece15()
    ensures Run(ReflectedBit, 0x14CE, [0x30, 0x30, 0x30, 0x32, 0x2E]) == 0xC134
  {
    assert NibbleStep(0x14CE, 0x30) == 0x247F && NibbleStep(0x247F, 0x30) == 0x2F69;
    assert NibbleStep(0x2F69, 0x30) == 0x28CD && NibbleStep(0x28CD, 0x32) == 0x121D;
    assert NibbleStep(0x121D, 0x2E) == 0xC134;
    hide *;
    Five(0x14CE, 0x30, 0x247F, 0x30, 0x2F69, 0x30, 0x28CD, 0x32, 0x121D, 0x2E, 0xC134);
  }

  lemma Piece16()
    ensures Run(ReflectedBit, 0x14CE, [0x30, 0x30, 0x30, 0x32]) == 0x121D
  {
    assert NibbleStep(0x14CE, 0x30) == 0x247F && NibbleStep(0x247F, 0x30) == 0x2F69;
    assert NibbleStep(0x2F69, 0x30) == 0x28CD && NibbleStep(0x28CD, 0x32) == 0x121D;
    hide *;
    Four(0x14CE, 0x30, 0x247F, 0x30, 0x2F69, 0x30, 0x28CD, 0x32, 0x121D);
  }

  lemma Piece17()
    ensures Run(ReflectedBit, 0xAD88, [0x41, 0x42, 0x43, 0x44]) == 0x1478
  {
    assert NibbleStep(0xAD88, 0x41) == 0x3C98 && NibbleStep(0x3C98, 0x42) == 0xD480;
    assert NibbleStep(0xD480, 0x43) == 0xAFD4 && NibbleStep(0xAFD4, 0x44) == 0x1478;
    hide *;
    Four(0xAD88, 0x41, 0x3C98, 0x42, 0xD480, 0x43, 0xAFD4, 0x44, 0x1478);
  }

  lemma Piece18()
    ensures Run(ReflectedBit, 0x1478, [0x45, 0x46, 0x30, 0x31]) == 0xA781
  {
    assert NibbleStep(0x1478, 0x45) == 0x8B7F && NibbleStep(0x8B7F, 0x46) == 0x5298;
    assert NibbleStep(0x5298, 0x30) == 0x70C8 && NibbleStep(0x70C8, 0x31) == 0xA781;
    hide *;
    Four(0x1478, 0x45, 0x8B7F, 0x46, 0x5298, 0x30, 0x70C8, 0x31, 0xA781);
  }

  lemma Piece19()
    ensures Run(ReflectedBit, 0xFBE8, [0x30, 0x30, 0x30, 0x32]) == 0xBD03
  {
    assert NibbleStep(0xFBE8, 0x30) == 0xB8FB && NibbleStep(0xB8FB, 0x30) == 0x5031;
    assert NibbleStep(0x5031, 0x30) == 0x360E && NibbleStep(0x360E, 0x32) == 0xBD03;
    hide *;
    Four(0xFBE8, 0x30, 0xB8FB, 0x30, 0x5031, 0x30, 0x360E, 0x32, 0xBD03);
  }

  lemma Piece20()
    ensures Run(ReflectedBit, 0x5501, [0x31, 0x32, 0x43, 0x44]) == 0x157A
  {
    assert NibbleStep(0x5501, 0x31) == 0x9B91 && NibbleStep(0x9B91, 0x32) == 0xD56A;
    assert NibbleStep(0xD56A, 0x43) == 0xE0AD && NibbleStep(0xE0AD, 0x44) == 0x157A;
    hide *;
    Four(0x5501, 0x31, 0x9B91, 0x32, 0xD56A, 0x43, 0xE0AD, 0x44, 0x157A);
  }

  lemma Piece21()
    ensures Run(ReflectedBit, 0x157A, [0x35, 0x36, 0x30, 0x31]) == 0x6EF3
  {
    assert NibbleStep(0x157A, 0x35) == 0x2F58 && NibbleStep(0x2F58, 0x36) == 0x3093;
    assert NibbleStep(0x3093, 0x30) == 0xD5C1 && NibbleStep(0xD5C1, 0x31) == 0x6EF3;
    hide *;
    Four(0x157A, 0x35, 0x2F58, 0x36, 0x3093, 0x30, 0xD5C1, 0x31, 0x6EF3);
  }

  /** `>00w.23A6\n` */
  lemma WriteNothing()
    ensures var m := Message(0x30, 0x30, 0x77, []);
      var bytes: seq<byte> := [0x3E, 0x30, 0x30, 0x77, 0x2E, 0x32, 0x33, 0x41, 0x36, 0x0A];
      && Sendable(m) && Frame(m) == bytes == WRITE_NOTHING
      && Receive(bytes) == Receipt(Delivered(m), []) && Put([], m) == (Done, bytes)
  {
    var m := Message(0x30, 0x30, 0x77, []);
    var head: seq<byte> := [0x3E, 0x30, 0x30, 0x77, 0x2E];
    var bytes: seq<byte> := [0x3E, 0x30, 0x30, 0x77, 0x2E, 0x32, 0x33, 0x41, 0x36, 0x0A];
    assert Sendable(m) && bytes == head + [0x32, 0x33, 0x41, 0x36] + [0x0A] && bytes == WRITE_NOTHING;
    assert Xor(0xDC59, 0xffff) == 0x23A6 && HexOf16(0x23A6, true) == [0x32, 0x33, 0x41, 0x36];
    hide *;
    Piece1();
    FrameIs(m, head, 0xDC59, [0x32, 0x33, 0x41, 0x36]);
    Codec(m, bytes);
  }

  /** `>00wFFFF.9F3B\n` */
  lemma PlainData()
    ensures var m := Message(0x30, 0x30, 0x77, [0x46, 0x46, 0x46, 0x46]);
      var bytes: seq<byte> := [0x3E, 0x30, 0x30, 0x77, 0x46, 0x46, 0x46, 0x46, 0x2E, 0x39, 0x46, 0x33,
                               0x42, 0x0A];
      && Sendable(m) && Frame(m) == bytes
      && Receive(bytes) == Receipt(Delivered(m), []) && Put([], m) == (Done, bytes)
  {
    var m := Message(0x30, 0x30, 0x77, [0x46, 0x46, 0x46, 0x46]);
    var head: seq<byte> := [0x3E, 0x30, 0x30, 0x77, 0x46, 0x46, 0x46, 0x46, 0x2E];
    var bytes: seq<byte> := [0x3E, 0x30, 0x30, 0x77, 0x46, 0x46, 0x46, 0x46, 0x2E, 0x39, 0x46, 0x33,
                             0x42, 0x0A];
    assert Sendable(m) && bytes == head + [0x39, 0x46, 0x33, 0x42] + [0x0A];
    assert Xor(0x60C4, 0xffff) == 0x9F3B && HexOf16(0x9F3B, true) == [0x39, 0x46, 0x33, 0x42];
    hide *;
    Piece2();
    Piece3();
    RunAppend(ReflectedBit, 0, [0x3E, 0x30, 0x30, 0x77], [0x46, 0x46, 0x46, 0x46, 0x2E]);
    assert head == [0x3E, 0x30, 0x30, 0x77] + [0x46, 0x46, 0x46, 0x46, 0x2E];
    FrameIs(m, head, 0x60C4, [0x39, 0x46, 0x33, 0x42]);
    Codec(m, bytes);
  }

  /** `>xxx.79BD\n` */
  lemma NotACommand()
    ensures var m := Message(0x78, 0x78, 0x78, []);
      var bytes: seq<byte> := [0x3E, 0x78, 0x78, 0x78, 0x2E, 0x37, 0x39, 0x42, 0x44, 0x0A];
      && Sendable(m) && Frame(m) == bytes
      && Receive(bytes) == Receipt(Delivered(m), []) && Put([], m) == (Done, bytes)
  {
    var m := Message(0x78, 0x78, 0x78, []);
    var head: seq<byte> := [0x3E, 0x78, 0x78, 0x78, 0x2E];
    var bytes: seq<byte> := [0x3E, 0x78, 0x78, 0x78, 0x2E, 0x37, 0x39, 0x42, 0x44, 0x0A];
    assert Sendable(m) && bytes == head + [0x37, 0x39, 0x42, 0x44] + [0x0A];
    assert Xor(0x8642, 0xffff) == 0x79BD && HexOf16(0x79BD, true) == [0x37, 0x39, 0x42, 0x44];
    hide *;
    Piece4();
    FrameIs(m, head, 0x8642, [0x37, 0x39, 0x42, 0x44]);
    Codec(m, bytes);
  }

  /** `>12r.4EBA\n` */
  lemma TwoVersions()
    ensures var m := Message(0x31, 0x32, 0x72, []);
      var bytes: seq<byte> := [0x3E, 0x31, 0x32, 0x72, 0x2E, 0x34, 0x45, 0x42, 0x41, 0x0A];
      && Sendable(m) && Frame(m) == bytes
      && Receive(bytes) == Receipt(Delivered(m), []) && Put([], m) == (Done, bytes)
  {
    var m := Message(0x31, 0x32, 0x72, []);
    var head: seq<byte> := [0x3E, 0x31, 0x32, 0x72, 0x2E];
    var bytes: seq<byte> := [0x3E, 0x31, 0x32, 0x72, 0x2E, 0x34, 0x45, 0x42, 0x41, 0x0A];
    assert Sendable(m) && bytes == head + [0x34, 0x45, 0x42, 0x41] + [0x0A];
    assert Xor(0xB145, 0xffff) == 0x4EBA && HexOf16(0x4EBA, true) == [0x34, 0x45, 0x42, 0x41];
    hide *;
    Piece5();
    FrameIs(m, head, 0xB145, [0x34, 0x45, 0x42, 0x41]);
    Codec(m, bytes);
  }

  /** `>00e15,w,.DF68\n` */
  lemma WriteRefused()
    ensures var m := Message(0x30, 0x30, 0x65, [0x31, 0x35, 0x2C, 0x77, 0x2C]);
      var bytes: seq<byte> := [0x3E, 0x30, 0x30, 0x65, 0x31, 0x35, 0x2C, 0x77, 0x2C, 0x2E, 0x44, 0x46,
                               0x36, 0x38, 0x0A];
      && Sendable(m) && Frame(m) == bytes == WRITE_REFUSED
      && Receive(bytes) == Receipt(Delivered(m), []) && Put([], m) == (Done, bytes)
  {
    var m := Message(0x30, 0x30, 0x65, [0x31, 0x35, 0x2C, 0x77, 0x2C]);
    var head: seq<byte> := [0x3E, 0x30, 0x30, 0x65, 0x31, 0x35, 0x2C, 0x77, 0x2C, 0x2E];
    var bytes: seq<byte> := [0x3E, 0x30, 0x30, 0x65, 0x31, 0x35, 0x2C, 0x77, 0x2C, 0x2E, 0x44, 0x46,
                             0x36, 0x38, 0x0A];
    assert Sendable(m) && bytes == head + [0x44, 0x46, 0x36, 0x38] + [0x0A] && bytes == WRITE_REFUSED;
    assert Xor(0x2097, 0xffff) == 0xDF68 && HexOf16(0xDF68, true) == [0x44, 0x46, 0x36, 0x38];
    hide *;
    Piece6();
    Piece7();
    RunAppend(ReflectedBit, 0, [0x3E, 0x30, 0x30, 0x65, 0x31], [0x35, 0x2C, 0x77, 0x2C, 0x2E]);
    assert head == [0x3E, 0x30, 0x30, 0x65, 0x31] + [0x35, 0x2C, 0x77, 0x2C, 0x2E];
    FrameIs(m, head, 0x2097, [0x44, 0x46, 0x36, 0x38]);
    Codec(m, bytes);
  }

  /** `>00s01,0000.91AE\n` */
  lemma StreamedData()
    ensures var m := Message(0x30, 0x30, 0x73, [0x30, 0x31, 0x2C, 0x30, 0x30, 0x30, 0x30]);
      var bytes: seq<byte> := [0x3E, 0x30, 0x30, 0x73, 0x30, 0x31, 0x2C, 0x30, 0x30, 0x30, 0x30, 0x2E,
                               0x39, 0x31, 0x41, 0x45, 0x0A];
      && Sendable(m) && Frame(m) == bytes
      && Receive(bytes) == Receipt(Delivered(m), []) && Put([], m) == (Done, bytes)
  {
    var m := Message(0x30, 0x30, 0x73, [0x30, 0x31, 0x2C, 0x30, 0x30, 0x30, 0x30]);
    var head: seq<byte> := [0x3E, 0x30, 0x30, 0x73, 0x30, 0x31, 0x2C, 0x30, 0x30, 0x30, 0x30, 0x2E];
    var bytes: seq<byte> := [0x3E, 0x30, 0x30, 0x73, 0x30, 0x31, 0x2C, 0x30, 0x30, 0x30, 0x30, 0x2E,
                             0x39, 0x31, 0x41, 0x45, 0x0A];
    assert Sendable(m) && bytes == head + [0x39, 0x31, 0x41, 0x45] + [0x0A];
    assert Xor(0x6E51, 0xffff) == 0x91AE && HexOf16(0x91AE, true) == [0x39, 0x31, 0x41, 0x45];
    hide *;
    Piece8();
    Piece9();
    RunAppend(ReflectedBit, 0, [0x3E, 0x30, 0x30, 0x73], [0x30, 0x31, 0x2C, 0x30]);
    Piece10();
    RunAppend(ReflectedBit, 0, [0x3E, 0x30, 0x30, 0x73] + [0x30, 0x31, 0x2C, 0x30], [0x30, 0x30, 0x30, 0x2E]);
    assert head == [0x3E, 0x30, 0x30, 0x73] + [0x30, 0x31, 0x2C, 0x30] + [0x30, 0x30, 0x30, 0x2E];
    FrameIs(m, head, 0x6E51, [0x39, 0x31, 0x41, 0x45]);
    Codec(m, bytes);
  }

  /** `>00n.3854\n` */
  lemma SwitchOn()
    ensures var m := Message(0x30, 0x30, 0x6E, []);
      var bytes: seq<byte> := [0x3E, 0x30, 0x30, 0x6E, 0x2E, 0x33, 0x38, 0x35, 0x34, 0x0A];
      && Sendable(m) && Frame(m) == bytes == SWITCH_ON
      && Receive(bytes) == Receipt(Delivered(m), []) && Put([], m) == (Done, bytes)
  {
    var m := Message(0x30, 0x30, 0x6E, []);
    var head: seq<byte> := [0x3E, 0x30, 0x30, 0x6E, 0x2E];
    var bytes: seq<byte> := [0x3E, 0x30, 0x30, 0x6E, 0x2E, 0x33, 0x38, 0x35, 0x34, 0x0A];
    assert Sendable(m) && bytes == head + [0x33, 0x38, 0x35, 0x34] + [0x0A] && bytes == SWITCH_ON;
    assert Xor(0xC7AB, 0xffff) == 0x3854 && HexOf16(0x3854, true) == [0x33, 0x38, 0x35, 0x34];
    hide *;
    Piece11();
    FrameIs(m, head, 0xC7AB, [0x33, 0x38, 0x35, 0x34]);
    Codec(m, bytes);
  }

  /** `>00e15,n,.DDE9\n` */
  lemma SwitchRefused()
    ensures var m := Message(0x30, 0x30, 0x65, [0x31, 0x35, 0x2C, 0x6E, 0x2C]);
      var bytes: seq<byte> := [0x3E, 0x30, 0x30, 0x65, 0x31, 0x35, 0x2C, 0x6E, 0x2C, 0x2E, 0x44, 0x44,
                               0x45, 0x39, 0x0A];
      && Sendable(m) && Frame(m) == bytes == SWITCH_REFUSED
      && Receive(bytes) == Receipt(Delivered(m), []) && Put([], m) == (Done, bytes)
  {
    var m := Message(0x30, 0x30, 0x65, [0x31, 0x35, 0x2C, 0x6E, 0x2C]);
    var head: seq<byte> := [0x3E, 0x30, 0x30, 0x65, 0x31, 0x35, 0x2C, 0x6E, 0x2C, 0x2E];
    var bytes: seq<byte> := [0x3E, 0x30, 0x30, 0x65, 0x31, 0x35, 0x2C, 0x6E, 0x2C, 0x2E, 0x44, 0x44,
                             0x45, 0x39, 0x0A];
    assert Sendable(m) && bytes == head + [0x44, 0x44, 0x45, 0x39] + [0x0A] && bytes == SWITCH_REFUSED;
    assert Xor(0x2216, 0xffff) == 0xDDE9 && HexOf16(0xDDE9, true) == [0x44, 0x44, 0x45, 0x39];
    hide *;
    Piece6();
    Piece12();
    RunAppend(ReflectedBit, 0, [0x3E, 0x30, 0x30, 0x65, 0x31], [0x35, 0x2C, 0x6E, 0x2C, 0x2E]);
    assert head == [0x3E, 0x30, 0x30, 0x65, 0x31] + [0x35, 0x2C, 0x6E, 0x2C, 0x2E];
    FrameIs(m, head, 0x2216, [0x44, 0x44, 0x45, 0x39]);
    Codec(m, bytes);
  }

  /** `>00r0002.C642\n` */
  lemma ReadRequested()
    ensures var m := Message(0x30, 0x30, 0x72, [0x30, 0x30, 0x30, 0x32]);
      var bytes: seq<byte> := [0x3E, 0x30, 0x30, 0x72, 0x30, 0x30, 0x30, 0x32, 0x2E, 0x43, 0x36, 0x34,
                               0x32, 0x0A];
      && Sendable(m) && Frame(m) == bytes == READ_REQUESTED
      && Receive(bytes) == Receipt(Delivered(m), []) && Put([], m) == (Done, bytes)
  {
    var m := Message(0x30, 0x30, 0x72, [0x30, 0x30, 0x30, 0x32]);
    var head: seq<byte> := [0x3E, 0x30, 0x30, 0x72, 0x30, 0x30, 0x30, 0x32, 0x2E];
    var bytes: seq<byte> := [0x3E, 0x30, 0x30, 0x72, 0x30, 0x30, 0x30, 0x32, 0x2E, 0x43, 0x36, 0x34,
                             0x32, 0x0A];
    assert Sendable(m) && bytes == head + [0x43, 0x36, 0x34, 0x32] + [0x0A] && bytes == READ_REQUESTED;
    assert Xor(0x39BD, 0xffff) == 0xC642 && HexOf16(0xC642, true) == [0x43, 0x36, 0x34, 0x32];
    hide *;
    Piece13();
    Piece14();
    RunAppend(ReflectedBit, 0, [0x3E, 0x30, 0x30, 0x72], [0x30, 0x30, 0x30, 0x32, 0x2E]);
    assert head == [0x3E, 0x30, 0x30, 0x72] + [0x30, 0x30, 0x30, 0x32, 0x2E];
    FrameIs(m, head, 0x39BD, [0x43, 0x36, 0x34, 0x32]);
    Codec(m, bytes);
  }

  /** `>00w0002.3ECB\n` */
  lemma WriteEchoed()
    ensures var m := Message(0x30, 0x30, 0x77, [0x30, 0x30, 0x30, 0x32]);
      var bytes: seq<byte> := [0x3E, 0x30, 0x30, 0x77, 0x30, 0x30, 0x30, 0x32, 0x2E, 0x33, 0x45, 0x43,
                               0x42, 0x0A];
      && Sendable(m) && Frame(m) == bytes == WRITE_ECHOED
      && Receive(bytes) == Receipt(Delivered(m), []) && Put([], m) == (Done, bytes)
  {
    var m := Message(0x30, 0x30, 0x77, [0x30, 0x30, 0x30, 0x32]);
    var head: seq<byte> := [0x3E, 0x30, 0x30, 0x77, 0x30, 0x30, 0x30, 0x32, 0x2E];
    var bytes: seq<byte> := [0x3E, 0x30, 0x30, 0x77, 0x30, 0x30, 0x30, 0x32, 0x2E, 0x33, 0x45, 0x43,
                             0x42, 0x0A];
    assert Sendable(m) && bytes == head + [0x33, 0x45, 0x43, 0x42] + [0x0A] && bytes == WRITE_ECHOED;
    assert Xor(0xC134, 0xffff) == 0x3ECB && HexOf16(0x3ECB, true) == [0x33, 0x45, 0x43, 0x42];
    hide *;
    Piece2();
    Piece15();
    RunAppend(ReflectedBit, 0, [0x3E, 0x30, 0x30, 0x77], [0x30, 0x30, 0x30, 0x32, 0x2E]);
    assert head == [0x3E, 0x30, 0x30, 0x77] + [0x30, 0x30, 0x30, 0x32, 0x2E];
    FrameIs(m, head, 0xC134, [0x33, 0x45, 0x43, 0x42]);
    Codec(m, bytes);
  }

  lemma WriteRequested()
    ensures var number: seq<byte> := [0x30, 0x30, 0x30, 0x32];
      var value: seq<byte> := [0x41, 0x42, 0x43, 0x44, 0x45, 0x46, 0x30, 0x31];
      Frame(Message(0x30, 0x30, 0x77, number + [0x2C] + value)) == WRITE_REQUESTED
  {
    var number: seq<byte> := [0x30, 0x30, 0x30, 0x32];
    var high: seq<byte>, low: seq<byte> := [0x41, 0x42, 0x43, 0x44], [0x45, 0x46, 0x30, 0x31];
    var value: seq<byte> := [0x41, 0x42, 0x43, 0x44, 0x45, 0x46, 0x30, 0x31];
    assert WRITE_REQUESTED
      == [0x3E, 0x30, 0x30, 0x77] + number + [0x2C] + value + [0x2E] + [0x30, 0x43, 0x35, 0x38] + [0x0A];
    assert NibbleStep(0x121D, 0x2C) == 0xAD88 && NibbleStep(0xA781, 0x2E) == 0xF3A7;
    assert Xor(0xF3A7, 0xffff) == 0x0C58 && HexOf16(0x0C58, true) == [0x30, 0x43, 0x35, 0x38];
    hide *;
    Piece2();
    Piece16();
    Piece17();
    Piece18();
    assert high + low == value;
    ValueFrame(Message(0x30, 0x30, 0x77, number + [0x2C] + value), number, high, low,
               0x14CE, 0x121D, 0xAD88, 0x1478, 0xA781, 0xF3A7,
               [0x30, 0x43, 0x35, 0x38]);
  }

  lemma ValueRead()
    ensures var number: seq<byte> := [0x30, 0x30, 0x30, 0x32];
      var value: seq<byte> := [0x31, 0x32, 0x43, 0x44, 0x35, 0x36, 0x30, 0x31];
      Frame(Message(0x30, 0x30, 0x72, number + [0x2C] + value)) == VALUE_READ
  {
    var number: seq<byte> := [0x30, 0x30, 0x30, 0x32];
    var high: seq<byte>, low: seq<byte> := [0x31, 0x32, 0x43, 0x44], [0x35, 0x36, 0x30, 0x31];
    var value: seq<byte> := [0x31, 0x32, 0x43, 0x44, 0x35, 0x36, 0x30, 0x31];
    assert VALUE_READ
      == [0x3E, 0x30, 0x30, 0x72] + number + [0x2C] + value + [0x2E] + [0x41, 0x38, 0x42, 0x37] + [0x0A];
    assert NibbleStep(0xBD03, 0x2C) == 0x5501 && NibbleStep(0x6EF3, 0x2E) == 0x5748;
    assert Xor(0x5748, 0xffff) == 0xA8B7 && HexOf16(0xA8B7, true) == [0x41, 0x38, 0x42, 0x37];
    hide *;
    Piece13();
    Piece19();
    Piece20();
    Piece21();
    assert high + low == value;
    ValueFrame(Message(0x30, 0x30, 0x72, number + [0x2C] + value), number, high, low,
               0xFBE8, 0xBD03, 0x5501, 0x157A, 0x6EF3, 0x5748,
               [0x41, 0x38, 0x42, 0x37]);
  }

  // ---- Conversations ----

  /** Bytes that arrive one in each turn, while the transmitter takes none. */
  function Arrivals(bs: seq<byte>): (turns: seq<Turn>)
    ensures |turns| == |bs|
  {
    seq(|bs|, i requires 0 <= i < |bs| => Turn(Some(bs[i]), false))
  }

  predicate Unready(turns: seq<Turn>) {
    forall i :: 0 <= i < |turns| ==> !turns[i].ready
  }

  lemma ArrivalsAppend(x: seq<byte>, y: seq<byte>)
    ensures Arrivals(x + y) == Arrivals(x) + Arrivals(y)
  {
  }

  lemma ArrivalsUnready(bs: seq<byte>)
    ensures Unready(Arrivals(bs))
  {
  }

  lemma {:induction false} ArrivalsBring(bs: seq<byte>)
    ensures Received(Arrivals(bs)) == bs
  {
    if bs == [] {
    } else {
      assert Arrivals(bs)[1..] == Arrivals(bs[1..]);
      assert Arrivals(bs)[0] == Turn(Some(bs[0]), false);
      hide *;
      ReceivedFirst(Arrivals(bs));
      ArrivalsBring(bs[1..]);
      assert [bs[0]] + bs[1..] == bs;
    }
  }

  lemma UnreadyFirst(s: DeviceState, turns: seq<Turn>)
    requires Unready(turns) && turns != []
    ensures Transmitted(s, turns[0].ready) == [] && Unready(turns[1..])
  {
  }

  lemma {:induction false} UnreadySent(cfg: Config, s: DeviceState, turns: seq<Turn>)
    requires Fitting(cfg, s) && Unready(turns)
    ensures Sent(cfg, s, turns) == []
    decreases |turns|
  {
    hide *;
    if turns == [] {
      TurnsNone(cfg, s);
    } else {
      UnreadyFirst(s, turns);
      TurnsFirst(cfg, s, turns);
      UnreadySent(cfg, AfterTurn(cfg, s, turns[0]), turns[1..]);
    }
  }

  /** Noise and the frame of m, arriving. */
  function Arriving(noise: seq<byte>, m: Message): (x: Exchange) {
    var f := Frame(m);
    Exchange(noise, m, Arrivals(noise + f[..|f| - 1]), Turn(Some(END), false))
  }

  lemma ArrivingParts(noise: seq<byte>, m: Message)
    requires END !in noise && Sendable(m) && m.command != 0
    ensures var x := Arriving(noise, m);
      && Carries(x) && AllTurns(x) == Arrivals(noise + Frame(m)) && x.m == m && Unready(x.turns) && !x.last.ready
  {
    var f := Frame(m);
    var front := noise + f[..|f| - 1];
    assert noise + f == front + [END];
    ArrivalsBring(front);
    ArrivalsUnready(front);
    ArrivalsAppend(front, [END]);
    assert Arrivals([END]) == [Turn(Some(END), false)];
    hide Frame, Received, Sendable, Arrivals;
  }

  lemma ArrivingRoom(cfg: Config, s: DeviceState, noise: seq<byte>, m: Message)
    requires Fitting(cfg, s) && s.input == [] && s.front == 0 && END !in noise && Sendable(m) && m.command != 0
    requires |m.data| <= MAXDATALEN
    requires var a := AnswerTo(cfg, s, m);
      a.Some? && a.value.Ok? ==> |s.output| + |a.value.value.data| + 10 <= 64
    ensures Carries(Arriving(noise, m)) && RoomAtEnd(cfg, s, Arriving(noise, m))
  {
    var x := Arriving(noise, m);
    assert END !in s.input && |s.output| <= 64;
    assert RoomFor(AnswerTo(cfg, s, m), s) by { hide AnswerTo; }
    hide *;
    ArrivingParts(noise, m);
    Gathered(cfg, s, x);
    var u := After(cfg, s, x.turns);
    ServesIs(cfg, s, x.turns, [], s.(input := u.input));
    UnreadySent(cfg, s, x.turns);
    assert [] + u.output == u.output && s.output + [] == s.output;
    StillAtFront();
    RoomStays(cfg, s, x);
  }

  lemma StillAtFront()
    ensures Ahead(0, 0) == 0
  {
  }

  lemma RoomStays(cfg: Config, s: DeviceState, x: Exchange)
    requires Fitting(cfg, s) && |x.m.data| <= MAXDATALEN && RoomFor(AnswerTo(cfg, s, x.m), s) && !x.last.ready
    requires After(cfg, s, x.turns).output == s.output && After(cfg, s, x.turns).front == s.front
    ensures RoomAtEnd(cfg, s, x)
  {
    hide AnswerTo, After;
  }

  /** Noise and a frame arrive while nothing is transmitted: the answer's frame is added to the output. */
  lemma FrameArrives(cfg: Config, s: DeviceState, noise: seq<byte>, m: Message, reply: seq<byte>)
    requires Fitting(cfg, s) && s.input == [] && s.front == 0 && END !in noise && Sendable(m) && m.command != 0
    requires |m.data| <= MAXDATALEN && reply == AnswerFrame(AnswerTo(cfg, s, m))
    requires var a := AnswerTo(cfg, s, m);
      a.Some? && a.value.Ok? ==> |s.output| + |a.value.value.data| + 10 <= 64
    ensures var t := After(cfg, s, Arrivals(noise + Frame(m)));
      && AllInReach(cfg, s, Arrivals(noise + Frame(m))) && t.output == s.output + reply && t.front == 0 && t.input == []
      && t.mem == Answered(cfg, s, m).mem && t.streaming == Answered(cfg, s, m).streaming
  {
    assert END !in s.input;
    hide *;
    var x := Arriving(noise, m);
    var t := After(cfg, s, AllTurns(x));
    ArrivingParts(noise, m);
    ArrivingRoom(cfg, s, noise, m);
    ExchangeGiven(cfg, s, x);
    ServesIs(cfg, s, AllTurns(x), reply, Answered(cfg, s, m));
    ArrivalsUnready(noise + Frame(m));
    UnreadySent(cfg, s, AllTurns(x));
    assert [] + t.output == t.output;
    StillAtFront();
    CoreParts(t, Answered(cfg, s, m));
  }

  // ---- A device with registers and no handler for 'n' and 'f' ----

  /** Register 0 is cell 2, register 1 is null, register 2 is cell 0 with half of its bits writable. */
  const TABLE := RegisterMap([Some(2), None, Some(0)], [0, 0, 0x00FF00FF], 3)

  lemma TableFits()
    ensures MapFits(TABLE, 3) && NoAlias(TABLE)
  {
  }

  lemma Two()
    ensures Names([0x30, 0x30, 0x30, 0x32], 2)
  {
    var s: seq<byte> := [0x30, 0x30, 0x30, 0x32];
    assert s[0..2] == [0x30, 0x30] && s[2..4] == [0x30, 0x32];
    assert Join16(0, 2) == 2 && Join(0, 0) == 0 && Join(0, 2) == 2;
  }

  lemma WrittenNumber()
    ensures Parse32([0x41, 0x42, 0x43, 0x44, 0x45, 0x46, 0x30, 0x31]) == Ok(0xABCDEF01)
    ensures HexOf32(0x12CD5601, true) == [0x31, 0x32, 0x43, 0x44, 0x35, 0x36, 0x30, 0x31]
  {
    var s: seq<byte> := [0x41, 0x42, 0x43, 0x44, 0x45, 0x46, 0x30, 0x31];
    assert s[0..2] == [0x41, 0x42] && s[2..4] == [0x43, 0x44] && s[4..6] == [0x45, 0x46] && s[6..8] == [0x30, 0x31];
    assert Join(0xA, 0xB) == 0xAB && Join(0xC, 0xD) == 0xCD && Join(0xE, 0xF) == 0xEF && Join(0, 1) == 1;
    assert Join32(0xAB, 0xCD, 0xEF, 0x01) == 0xABCDEF01;
  }

  /** `w 0002,ABCDEF01` over 0x12345678, under the mask 0x00FF00FF. */
  lemma WriteCase(cfg: Config, s: DeviceState)
    requires Fitting(cfg, s) && cfg.handlesRw && cfg.regs == Some(TABLE) && s.mem == [0x12345678, 0, 0xFFFF0000]
    ensures var num: seq<byte> := [0x30, 0x30, 0x30, 0x32];
      var m := Message(0x30, 0x30, 0x77, num + [0x2C] + [0x41, 0x42, 0x43, 0x44, 0x45, 0x46, 0x30, 0x31]);
      && |m.data| <= MAXDATALEN && Sendable(m)
      && AnswerTo(cfg, s, m) == Some(Ok(Message(0x30, 0x30, 0x77, num)))
      && Answered(cfg, s, m).mem == [0x12CD5601, 0, 0xFFFF0000]
  {
    var num: seq<byte>, value: seq<byte> := [0x30, 0x30, 0x30, 0x32], [0x41, 0x42, 0x43, 0x44, 0x45, 0x46, 0x30, 0x31];
    assert WRITE == 0x77 && COMMA == 0x2C && HasRegister(cfg, 2) && TABLE.pointers[2] == Some(0);
    assert Masked(0x12345678, 0xABCDEF01, 0x00FF00FF) == 0x12CD5601;
    assert s.mem[0 := 0x12CD5601] == [0x12CD5601, 0, 0xFFFF0000];
    assert Sendable(Message(0x30, 0x30, 0x77, num + [0x2C] + value));
    assert WriteRequest(0x30, 0x30, num, value) == Message(0x30, 0x30, 0x77, num + [0x2C] + value);
    assert TABLE.writeMasks[2] == 0x00FF00FF && s.mem[0] == 0x12345678;
    TableFits();
    hide *;
    Two();
    WrittenNumber();
    WriteAnswer(cfg, s, 0x30, 0x30, num, value, 2);
    WrittenCell(TABLE, s.mem, 2, 0xABCDEF01);
  }

  /** `r 0002` of 0x12CD5601. */
  lemma ReadCase(cfg: Config, s: DeviceState)
    requires Fitting(cfg, s) && cfg.handlesRw && cfg.regs == Some(TABLE) && s.mem == [0x12CD5601, 0, 0xFFFF0000]
    ensures var num: seq<byte> := [0x30, 0x30, 0x30, 0x32];
      var m := Message(0x30, 0x30, 0x72, num);
      && |m.data| <= MAXDATALEN
      && AnswerTo(cfg, s, m)
         == Some(Ok(Message(0x30, 0x30, 0x72, num + [0x2C] + [0x31, 0x32, 0x43, 0x44, 0x35, 0x36, 0x30, 0x31])))
      && Answered(cfg, s, m).mem == s.mem
  {
    var num: seq<byte> := [0x30, 0x30, 0x30, 0x32];
    assert READ == 0x72 && COMMA == 0x2C && HasRegister(cfg, 2) && TABLE.pointers[2] == Some(0);
    assert ReadRequest(0x30, 0x30, num) == Message(0x30, 0x30, 0x72, num);
    assert ReadValue(TABLE, s.mem, 2) == 0x12CD5601;
    hide *;
    Two();
    WrittenNumber();
    ReadAnswer(cfg, s, 0x30, 0x30, num, 2);
  }

  lemma AnswerFrameIs(m: Message)
    ensures AnswerFrame(Some(Ok(m))) == Frame(m) && AnswerFrame(None) == []
  {
    hide Frame;
  }

  /** A frame arrives, its bytes being `frame`. */
  lemma BytesArrive(cfg: Config, s: DeviceState, noise: seq<byte>, frame: seq<byte>, m: Message, reply: seq<byte>)
    requires Fitting(cfg, s) && s.input == [] && s.front == 0 && END !in noise && Sendable(m) && m.command != 0
    requires Frame(m) == frame && |m.data| <= MAXDATALEN && reply == AnswerFrame(AnswerTo(cfg, s, m))
    requires var a := AnswerTo(cfg, s, m);
      a.Some? && a.value.Ok? ==> |s.output| + |a.value.value.data| + 10 <= 64
    ensures var t := After(cfg, s, Arrivals(noise + frame));
      && AllInReach(cfg, s, Arrivals(noise + frame)) && t.output == s.output + reply && t.front == 0 && t.input == []
      && t.mem == Answered(cfg, s, m).mem && t.streaming == Answered(cfg, s, m).streaming
  {
    hide *;
    FrameArrives(cfg, s, noise, m, reply);
  }

  lemma MoreBytes(cfg: Config, s: DeviceState, x: seq<byte>, y: seq<byte>)
    requires Fitting(cfg, s)
    ensures var t := After(cfg, s, Arrivals(x));
      && After(cfg, s, Arrivals(x + y)) == After(cfg, t, Arrivals(y))
      && (AllInReach(cfg, s, Arrivals(x + y)) <==> AllInReach(cfg, s, Arrivals(x)) && AllInReach(cfg, t, Arrivals(y)))
  {
    hide *;
    ArrivalsAppend(x, y);
    TurnsAppend(cfg, s, Arrivals(x), Arrivals(y));
  }

  lemma NoneSent(cfg: Config, s: DeviceState, bs: seq<byte>)
    requires Fitting(cfg, s)
    ensures Sent(cfg, s, Arrivals(bs)) == []
  {
    hide *;
    ArrivalsUnready(bs);
    UnreadySent(cfg, s, Arrivals(bs));
  }

  lemma FrameLengths()
    ensures |WRITE_ECHOED| == 14 && |VALUE_READ| == 23 && |WRITE_REFUSED| == 15
  {
  }

  /** A message without data whose command has no handler. */
  lemma NoHandler(cfg: Config, s: DeviceState, command: byte)
    requires Fitting(cfg, s) && command != 0 && !HasHandler(cfg, command)
    ensures var m := Message(0x30, 0x30, command, []);
      && AnswerTo(cfg, s, m) == Some(Ok(Message(0x30, 0x30, 0x65, [0x31, 0x35, 0x2C, command, 0x2C])))
      && Answered(cfg, s, m).mem == s.mem
  {
    hide *;
    var data: seq<byte> := [0x31, 0x35, 0x2C, command, 0x2C];
    assert data + [] == data;
    RefusedAnswer(cfg, s, Message(0x30, 0x30, command, []));
  }

  lemma Handlers(cfg: Config)
    ensures HasHandler(cfg, 0x6E) == cfg.handlesNf && HasHandler(cfg, 0x77) == cfg.handlesRw
  {
    assert READ == 0x72 && WRITE == 0x77 && NOOP == 0x7A && STREAMING_ON == 0x6E && STREAMING_OFF == 0x66;
  }

  lemma WriteStep(cfg: Config, s: DeviceState)
    requires Fitting(cfg, s) && s.input == [] && s.output == [] && s.front == 0
    requires cfg.handlesRw && cfg.regs == Some(TABLE) && s.mem == [0x12345678, 0, 0xFFFF0000]
    ensures var turns := Arrivals([0x78, 0x3E, 0x30] + WRITE_REQUESTED);
      var t := After(cfg, s, turns);
      && AllInReach(cfg, s, turns) && t.output == WRITE_ECHOED && t.input == [] && t.front == 0
      && t.mem == [0x12CD5601, 0, 0xFFFF0000]
  {
    var noise: seq<byte>, num: seq<byte> := [0x78, 0x3E, 0x30], [0x30, 0x30, 0x30, 0x32];
    var value: seq<byte> := [0x41, 0x42, 0x43, 0x44, 0x45, 0x46, 0x30, 0x31];
    var write, echo := Message(0x30, 0x30, 0x77, num + [0x2C] + value), Message(0x30, 0x30, 0x77, num);
    assert END !in noise && |echo.data| == 4;
    hide *;
    WriteRequested();
    WriteEchoed();
    WriteCase(cfg, s);
    AnswerFrameIs(echo);
    BytesArrive(cfg, s, noise, WRITE_REQUESTED, write, WRITE_ECHOED);
    assert [] + WRITE_ECHOED == WRITE_ECHOED;
  }

  lemma ReadStep(cfg: Config, s: DeviceState)
    requires Fitting(cfg, s) && s.input == [] && |s.output| == 14 && s.front == 0
    requires cfg.handlesRw && cfg.regs == Some(TABLE) && s.mem == [0x12CD5601, 0, 0xFFFF0000]
    ensures var t := After(cfg, s, Arrivals(READ_REQUESTED));
      && AllInReach(cfg, s, Arrivals(READ_REQUESTED)) && t.output == s.output + VALUE_READ
      && t.input == [] && t.front == 0 && t.mem == s.mem
  {
    var num: seq<byte>, digits: seq<byte> := [0x30, 0x30, 0x30, 0x32], [0x31, 0x32, 0x43, 0x44, 0x35, 0x36, 0x30, 0x31];
    var read, answer := Message(0x30, 0x30, 0x72, num), Message(0x30, 0x30, 0x72, num + [0x2C] + digits);
    hide *;
    ReadRequested();
    ValueRead();
    ReadCase(cfg, s);
    AnswerFrameIs(answer);
    BytesArrive(cfg, s, [], READ_REQUESTED, read, VALUE_READ);
    assert [] + READ_REQUESTED == READ_REQUESTED;
  }

  lemma SwitchStep(cfg: Config, s: DeviceState)
    requires Fitting(cfg, s) && s.input == [] && |s.output| == 37 && s.front == 0 && !cfg.handlesNf
    ensures var t := After(cfg, s, Arrivals(SWITCH_ON));
      AllInReach(cfg, s, Arrivals(SWITCH_ON)) && t.output == s.output + SWITCH_REFUSED && t.mem == s.mem
  {
    var switch, refusal := Message(0x30, 0x30, 0x6E, []), Message(0x30, 0x30, 0x65, [0x31, 0x35, 0x2C, 0x6E, 0x2C]);
    hide *;
    SwitchOn();
    SwitchRefused();
    Handlers(cfg);
    NoHandler(cfg, s, 0x6E);
    AnswerFrameIs(refusal);
    BytesArrive(cfg, s, [], SWITCH_ON, switch, SWITCH_REFUSED);
    assert [] + SWITCH_ON == SWITCH_ON;
  }

  lemma TableSession(cfg: Config, s: DeviceState)
    requires Fitting(cfg, s) && s.input == [] && s.output == [] && s.front == 0
    requires cfg.handlesRw && !cfg.handlesNf && cfg.regs == Some(TABLE) && s.mem == [0x12345678, 0, 0xFFFF0000]
    ensures var turns := Arrivals([0x78, 0x3E, 0x30] + WRITE_REQUESTED + READ_REQUESTED + SWITCH_ON);
      var t := After(cfg, s, turns);
      && AllInReach(cfg, s, turns) && Sent(cfg, s, turns) == []
      && t.output == WRITE_ECHOED + VALUE_READ + SWITCH_REFUSED && t.mem == [0x12CD5601, 0, 0xFFFF0000]
  {
    hide *;
    FrameLengths();
    var w: seq<byte> := [0x78, 0x3E, 0x30] + WRITE_REQUESTED;
    WriteStep(cfg, s);
    var a := After(cfg, s, Arrivals(w));
    ReadStep(cfg, a);
    SwitchStep(cfg, After(cfg, a, Arrivals(READ_REQUESTED)));
    MoreBytes(cfg, s, w, READ_REQUESTED);
    MoreBytes(cfg, s, w + READ_REQUESTED, SWITCH_ON);
    NoneSent(cfg, s, w + READ_REQUESTED + SWITCH_ON);
  }

  method TableDevice() returns (device: AsciiSerialComDevice, memory: array<word32>)
    ensures device.Valid() && device.slot.dataLen == 0 && !device.asc.ignoreCrcMismatch && memory.Length == 3
    ensures fresh(device.asc.inBuf) && fresh(device.asc.outBuf) && fresh(device.asc.rawBuffer)
    ensures fresh(device.slot) && fresh(device.slot.data) && fresh(memory) && fresh(device.config.stateNf)
    ensures Cells(device.config.stateRw) == {memory} && MemoryOf(device.config.stateRw) == memory[..]
    ensures ConfigOf(device.config) == Config(true, Some(TABLE), false)
    ensures Fitting(ConfigOf(device.config), device.Value())
    ensures device.Value().input == [] && device.Value().output == [] && device.Value().front == 0
    ensures device.Value().mem == [0x12345678, 0, 0xFFFF0000]
  {
    memory := new word32[][0x12345678, 0, 0xFFFF0000];
    TableFits();
    var state := new RegisterPointers(TABLE, memory);
    var flag := new StreamingFlag();
    device := new AsciiSerialComDevice(DeviceConfig(true, state, false, flag));
    device.SlotIs();
    assert memory[..] == [0x12345678, 0, 0xFFFF0000];
  }

  /**
   * Noise, a write, a read and an 'n' on a device with a register table and no handler for 'n' and 'f': it echoes the
   * number of register 2, reads back half of the new bits over half of the old ones, and refuses the 'n'.
   */
  method RegistersInBytes() returns (device: AsciiSerialComDevice, memory: array<word32>, sent: seq<byte>)
    ensures device.Valid() && sent == []
    ensures device.asc.outBuf.Contents() == WRITE_ECHOED + VALUE_READ + SWITCH_REFUSED
    ensures memory[..] == [0x12CD5601, 0, 0xFFFF0000]
  {
    assert MAXDATALEN == 54;
    hide *;
    device, memory := TableDevice();
    TableSession(Config(true, Some(TABLE), false), device.Value());
    sent := Serve(device, Arrivals([0x78, 0x3E, 0x30] + WRITE_REQUESTED + READ_REQUESTED + SWITCH_ON));
    device.SlotIs();
  }

  // ---- A device with a handler for 'n' and 'f' only ----

  lemma RefusedStep(cfg: Config, s: DeviceState)
    requires Fitting(cfg, s) && s.input == [] && s.output == [] && s.front == 0 && !cfg.handlesRw
    ensures var t := After(cfg, s, Arrivals(WRITE_NOTHING));
      && AllInReach(cfg, s, Arrivals(WRITE_NOTHING)) && t.output == WRITE_REFUSED && t.input == [] && t.front == 0
  {
    var write, refusal := Message(0x30, 0x30, 0x77, []), Message(0x30, 0x30, 0x65, [0x31, 0x35, 0x2C, 0x77, 0x2C]);
    hide *;
    WriteNothing();
    WriteRefused();
    Handlers(cfg);
    NoHandler(cfg, s, 0x77);
    AnswerFrameIs(refusal);
    BytesArrive(cfg, s, [], WRITE_NOTHING, write, WRITE_REFUSED);
    assert [] + WRITE_NOTHING == WRITE_NOTHING && [] + WRITE_REFUSED == WRITE_REFUSED;
  }

  lemma StreamingStep(cfg: Config, s: DeviceState)
    requires Fitting(cfg, s) && s.input == [] && s.front == 0 && cfg.handlesNf
    ensures var t := After(cfg, s, Arrivals(SWITCH_ON));
      AllInReach(cfg, s, Arrivals(SWITCH_ON)) && t.output == s.output && t.streaming
  {
    var switch := Message(0x30, 0x30, 0x6E, []);
    hide *;
    SwitchOn();
    StreamingAnswer(cfg, s, switch);
    AnswerFrameIs(switch);
    BytesArrive(cfg, s, [], SWITCH_ON, switch, []);
    assert [] + SWITCH_ON == SWITCH_ON && s.output + [] == s.output;
  }

  lemma BareSession(cfg: Config, s: DeviceState)
    requires Fitting(cfg, s) && s.input == [] && s.output == [] && s.front == 0 && !cfg.handlesRw && cfg.handlesNf
    ensures var turns := Arrivals(WRITE_NOTHING + SWITCH_ON);
      var t := After(cfg, s, turns);
      AllInReach(cfg, s, turns) && Sent(cfg, s, turns) == [] && t.output == WRITE_REFUSED && t.streaming
  {
    hide *;
    RefusedStep(cfg, s);
    StreamingStep(cfg, After(cfg, s, Arrivals(WRITE_NOTHING)));
    MoreBytes(cfg, s, WRITE_NOTHING, SWITCH_ON);
    NoneSent(cfg, s, WRITE_NOTHING + SWITCH_ON);
  }

  /** A write and an 'n' on a device without a register handler: it refuses the write and switches streaming on. */
  method RefusalInBytes() returns (device: AsciiSerialComDevice, flag: StreamingFlag, sent: seq<byte>)
    ensures device.Valid() && sent == [] && device.asc.outBuf.Contents() == WRITE_REFUSED && flag.on
  {
    flag := new StreamingFlag();
    device := new AsciiSerialComDevice(DeviceConfig(false, null, true, flag));
    ghost var cfg := ConfigOf(device.config);
    assert cfg == Config(false, None, true);
    device.SlotIs();
    assert Fitting(cfg, device.Value());
    hide *;
    BareSession(cfg, device.Value());
    sent := Serve(device, Arrivals(WRITE_NOTHING + SWITCH_ON));
    device.SlotIs();
  }
}
