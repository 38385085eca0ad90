// Numbers as hexadecimal text (the converters at the end of ascii_serial_com.c).

module Hex {
  import opened AscException
  import opened Sequences

  // ---- Digits ----

  predicate IsNibble(n: byte) {
    n < 16
  }

  function Digit(n: byte, caps: bool): byte {
    if n < 10 then 0x30 + n else if caps then 0x41 + n - 10 else 0x61 + n - 10
  }

  function DigitValue(c: byte): Option<byte> {
    if 0x30 <= c <= 0x39 then Some(c - 0x30)
    else if 0x41 <= c <= 0x46 then Some(c - 0x41 + 10)
    else if 0x61 <= c <= 0x66 then Some(c - 0x61 + 10)
    else None
  }

  /** The lower-case digits a-f turned into A-F; everything else unchanged. */
  function Upper(c: byte): byte {
    if 0x61 <= c <= 0x66 then c - 0x20 else c
  }

  lemma DigitRoundTrip(n: byte, caps: bool)
    requires IsNibble(n)
    ensures DigitValue(Digit(n, caps)) == Some(n)
  {
  }

  lemma ValueRoundTrip(c: byte)
    requires DigitValue(c).Some?
    ensures IsNibble(DigitValue(c).value) && Digit(DigitValue(c).value, true) == Upper(c)
  {
  }

  /** The digits and their values, one by one. */
  lemma DigitLiterals()
    ensures [Digit(0, true), Digit(1, true), Digit(2, true), Digit(3, true)] == [0x30, 0x31, 0x32, 0x33]
    ensures [Digit(4, true), Digit(5, true), Digit(6, true), Digit(7, true)] == [0x34, 0x35, 0x36, 0x37]
    ensures [Digit(8, true), Digit(9, true), Digit(10, true), Digit(11, true)] == [0x38, 0x39, 0x41, 0x42]
    ensures [Digit(12, true), Digit(13, true), Digit(14, true), Digit(15, true)] == [0x43, 0x44, 0x45, 0x46]
    ensures [Digit(0, false), Digit(9, false), Digit(10, false), Digit(11, false)] == [0x30, 0x39, 0x61, 0x62]
    ensures [Digit(12, false), Digit(13, false), Digit(14, false), Digit(15, false)] == [0x63, 0x64, 0x65, 0x66]
  {
  }

  /** A digit's value as a number: 0 to 9, or 10 to 15 in either letter case; no other byte is a digit. */
  lemma DigitNumber(c: byte)
    ensures var n := c as nat;
      match DigitValue(c)
      case Some(v) =>
        var d := v as nat;
        (d <= 9 && n == 48 + d) || (10 <= d <= 15 && (n == 55 + d || n == 87 + d))
      case None => n < 48 || 57 < n < 65 || 70 < n < 97 || 102 < n
  {
  }

  // ---- Nibbles and bytes of numbers ----

  function Nibble(num: byte, i: nat): byte
    requires i < 2
  {
    if i == 0 then num & 0xF else (num >> 4) & 0xF
  }

  function Join(high: byte, low: byte): byte {
    low | (high << 4)
  }

  lemma NibbleJoin(num: byte)
    ensures IsNibble(Nibble(num, 0)) && IsNibble(Nibble(num, 1)) && Join(Nibble(num, 1), Nibble(num, 0)) == num
  {
  }

  lemma JoinNibbles(high: byte, low: byte)
    requires IsNibble(high) && IsNibble(low)
    ensures Nibble(Join(high, low), 0) == low && Nibble(Join(high, low), 1) == high
  {
  }

  function Byte16(num: bv16, i: nat): byte
    requires i < 2
  {
    if i == 0 then (num & 0xFF) as byte else ((num >> 8) & 0xFF) as byte
  }

  function Join16(high: byte, low: byte): bv16 {
    (low as bv16) | ((high as bv16) << 8)
  }

  lemma Join16Bytes(num: bv16)
    ensures Join16(Byte16(num, 1), Byte16(num, 0)) == num
  {
  }

  lemma Bytes16Join(high: byte, low: byte)
    ensures Byte16(Join16(high, low), 0) == low && Byte16(Join16(high, low), 1) == high
  {
  }

  function Byte32(num: bv32, i: nat): byte
    requires i < 4
  {
    if i == 0 then (num & 0xFF) as byte else if i == 1 then ((num >> 8) & 0xFF) as byte
    else if i == 2 then ((num >> 16) & 0xFF) as byte else ((num >> 24) & 0xFF) as byte
  }

  function Join32(b3: byte, b2: byte, b1: byte, b0: byte): bv32 {
    (b0 as bv32) | ((b1 as bv32) << 8) | ((b2 as bv32) << 16) | ((b3 as bv32) << 24)
  }

  lemma Join32Bytes(num: bv32)
    ensures Join32(Byte32(num, 3), Byte32(num, 2), Byte32(num, 1), Byte32(num, 0)) == num
  {
  }

  lemma Bytes32Join(b3: byte, b2: byte, b1: byte, b0: byte)
    ensures var n := Join32(b3, b2, b1, b0);
      Byte32(n, 0) == b0 && Byte32(n, 1) == b1 && Byte32(n, 2) == b2 && Byte32(n, 3) == b3
  {
  }

  // ---- Text of numbers, most significant digit first ----

  function HexOf8(num: byte, caps: bool): (s: seq<byte>)
    ensures |s| == 2
  {
    [Digit(Nibble(num, 1), caps), Digit(Nibble(num, 0), caps)]
  }

  function HexOf16(num: bv16, caps: bool): (s: seq<byte>)
    ensures |s| == 4
  {
    HexOf8(Byte16(num, 1), caps) + HexOf8(Byte16(num, 0), caps)
  }

  function HexOf32(num: bv32, caps: bool): (s: seq<byte>)
    ensures |s| == 8
  {
    HexOf8(Byte32(num, 3), caps) + HexOf8(Byte32(num, 2), caps)
    + HexOf8(Byte32(num, 1), caps) + HexOf8(Byte32(num, 0), caps)
  }

  function Parse8(s: seq<byte>): Result<byte>
    requires |s| == 2
  {
    match (DigitValue(s[0]), DigitValue(s[1]))
    case (Some(high), Some(low)) => Ok(Join(high, low))
    case _ => Throw(NotHexChar)
  }

  function Parse16(s: seq<byte>): Result<bv16>
    requires |s| == 4
  {
    match (Parse8(s[0..2]), Parse8(s[2..4]))
    case (Ok(high), Ok(low)) => Ok(Join16(high, low))
    case _ => Throw(NotHexChar)
  }

  function Parse32(s: seq<byte>): Result<bv32>
    requires |s| == 8
  {
    match (Parse8(s[0..2]), Parse8(s[2..4]), Parse8(s[4..6]), Parse8(s[6..8]))
    case (Ok(b3), Ok(b2), Ok(b1), Ok(b0)) => Ok(Join32(b3, b2, b1, b0))
    case _ => Throw(NotHexChar)
  }

  // ---- What text stands for ----

  lemma JoinNumber(high: byte, low: byte)
    requires IsNibble(high) && IsNibble(low)
    ensures Join(high, low) as nat == 16 * (high as nat) + low as nat
  {
  }

  lemma Join16Number(high: byte, low: byte)
    ensures Join16(high, low) as nat == 256 * (high as nat) + low as nat
  {
    var n := Join16(high, low);
    assert n == (low as bv16) | ((high as bv16) << 8);
    hide *;
    Join16NumberRaw(high, low, n);
  }

  lemma Join16NumberRaw(high: byte, low: byte, n: bv16)
    requires n == (low as bv16) | ((high as bv16) << 8)
    ensures n as nat == 256 * (high as nat) + low as nat
  {
  }

  lemma Join32Number(b3: byte, b2: byte, b1: byte, b0: byte)
    ensures Join32(b3, b2, b1, b0) as nat
      == 0x100_0000 * (b3 as nat) + 0x1_0000 * (b2 as nat) + 0x100 * (b1 as nat) + b0 as nat
  {
    var n := Join32(b3, b2, b1, b0);
    assert n == (b0 as bv32) | ((b1 as bv32) << 8) | ((b2 as bv32) << 16) | ((b3 as bv32) << 24);
    hide *;
    Join32NumberRaw(b3, b2, b1, b0, n);
  }

  lemma Join32NumberRaw(b3: byte, b2: byte, b1: byte, b0: byte, n: bv32)
    requires n == (b0 as bv32) | ((b1 as bv32) << 8) | ((b2 as bv32) << 16) | ((b3 as bv32) << 24)
    ensures n as nat == 0x100_0000 * (b3 as nat) + 0x1_0000 * (b2 as nat) + 0x100 * (b1 as nat) + b0 as nat
  {
  }

  /** Two digits stand for sixteen times the first and the second. */
  lemma Parse8Number(s: seq<byte>)
    requires |s| == 2
    ensures Parse8(s).Ok? <==> DigitValue(s[0]).Some? && DigitValue(s[1]).Some?
    ensures Parse8(s).Ok? ==>
      Parse8(s).value as nat == 16 * (DigitValue(s[0]).value as nat) + DigitValue(s[1]).value as nat
  {
    hide Join, DigitValue, IsNibble;
    if Parse8(s).Ok? {
      ValueRoundTrip(s[0]);
      ValueRoundTrip(s[1]);
      JoinNumber(DigitValue(s[0]).value, DigitValue(s[1]).value);
    }
  }

  /** Four digits stand for the number they are the hexadecimal notation of, the most significant digit first. */
  lemma Parse16Number(s: seq<byte>)
    requires |s| == 4
    ensures Parse16(s).Ok? <==> forall i :: 0 <= i < 4 ==> DigitValue(s[i]).Some?
    ensures Parse16(s).Ok? ==>
      Parse16(s).value as nat
        == 4096 * (DigitValue(s[0]).value as nat) + 256 * (DigitValue(s[1]).value as nat)
           + 16 * (DigitValue(s[2]).value as nat) + DigitValue(s[3]).value as nat
  {
    assert s[0..2][0] == s[0] && s[0..2][1] == s[1] && s[2..4][0] == s[2] && s[2..4][1] == s[3];
    hide Parse8, Join16, DigitValue;
    Parse8Number(s[0..2]);
    Parse8Number(s[2..4]);
    if Parse16(s).Ok? {
      Join16Number(Parse8(s[0..2]).value, Parse8(s[2..4]).value);
    }
  }

  /** The same for eight digits. */
  lemma Parse32Number(s: seq<byte>)
    requires |s| == 8
    ensures Parse32(s).Ok? <==> Parse16(s[..4]).Ok? && Parse16(s[4..]).Ok?
    ensures Parse32(s).Ok? ==>
      Parse32(s).value as nat == 0x1_0000 * (Parse16(s[..4]).value as nat) + Parse16(s[4..]).value as nat
  {
    assert s[..4][0..2] == s[0..2] && s[..4][2..4] == s[2..4] && s[4..][0..2] == s[4..6] && s[4..][2..4] == s[6..8];
    hide Parse8, Join16, Join32;
    if Parse32(s).Ok? {
      var b3, b2, b1, b0 := Parse8(s[0..2]).value, Parse8(s[2..4]).value, Parse8(s[4..6]).value, Parse8(s[6..8]).value;
      Join32Number(b3, b2, b1, b0);
      Join16Number(b3, b2);
      Join16Number(b1, b0);
    }
  }

  predicate AllHex(s: seq<byte>) {
    forall c :: c in s ==> DigitValue(c).Some?
  }

  function UpperAll(s: seq<byte>): (r: seq<byte>)
    ensures |r| == |s| && forall i :: 0 <= i < |s| ==> r[i] == Upper(s[i])
  {
    seq(|s|, i requires 0 <= i < |s| => Upper(s[i]))
  }

  lemma HexOf8Parses(num: byte, caps: bool)
    ensures Parse8(HexOf8(num, caps)) == Ok(num)
  {
    hide Join, Nibble, Digit, DigitValue, IsNibble;
    NibbleJoin(num);
    DigitRoundTrip(Nibble(num, 0), caps);
    DigitRoundTrip(Nibble(num, 1), caps);
  }

  lemma Parse8Prints(s: seq<byte>)
    requires |s| == 2
    ensures Parse8(s).Ok? <==> AllHex(s)
    ensures Parse8(s).Ok? ==> HexOf8(Parse8(s).value, true) == UpperAll(s)
  {
    hide Join, Nibble, Digit, DigitValue, IsNibble, Upper;
    assert s[0] in s && s[1] in s;
    if Parse8(s).Ok? {
      ValueRoundTrip(s[0]);
      ValueRoundTrip(s[1]);
      JoinNibbles(DigitValue(s[0]).value, DigitValue(s[1]).value);
    }
  }

  /** Printing and reading back a number of each width is the identity, in either letter case. */
  lemma HexOf16Parses(num: bv16, caps: bool)
    ensures Parse16(HexOf16(num, caps)) == Ok(num)
  {
    hide Join16, Byte16, Parse8, HexOf8;
    var s := HexOf16(num, caps);
    assert s[0..2] == HexOf8(Byte16(num, 1), caps) && s[2..4] == HexOf8(Byte16(num, 0), caps);
    HexOf8Parses(Byte16(num, 1), caps);
    HexOf8Parses(Byte16(num, 0), caps);
    Join16Bytes(num);
  }

  lemma HexOf32Parses(num: bv32, caps: bool)
    ensures Parse32(HexOf32(num, caps)) == Ok(num)
  {
    hide Join32, Byte32, Parse8, HexOf8;
    var s := HexOf32(num, caps);
    assert s[0..2] == HexOf8(Byte32(num, 3), caps) && s[2..4] == HexOf8(Byte32(num, 2), caps);
    assert s[4..6] == HexOf8(Byte32(num, 1), caps) && s[6..8] == HexOf8(Byte32(num, 0), caps);
    HexOf8Parses(Byte32(num, 3), caps);
    HexOf8Parses(Byte32(num, 2), caps);
    HexOf8Parses(Byte32(num, 1), caps);
    HexOf8Parses(Byte32(num, 0), caps);
    Join32Bytes(num);
  }

  /** Text is accepted exactly when it is all digits, and printing what was read gives the text in upper case. */
  lemma Parse16Prints(s: seq<byte>)
    requires |s| == 4
    ensures Parse16(s).Ok? <==> AllHex(s)
    ensures Parse16(s).Ok? ==> HexOf16(Parse16(s).value, true) == UpperAll(s)
  {
    var a, b := s[0..2], s[2..4];
    assert s == a + b;
    hide Join16, Byte16, Parse8, HexOf8, UpperAll, AllHex;
    Parse8Prints(a);
    Parse8Prints(b);
    TextAppend(a, b);
    if Parse16(s).Ok? {
      Bytes16Join(Parse8(a).value, Parse8(b).value);
    }
  }

  lemma Parse32Prints(s: seq<byte>)
    requires |s| == 8
    ensures Parse32(s).Ok? <==> AllHex(s)
    ensures Parse32(s).Ok? ==> HexOf32(Parse32(s).value, true) == UpperAll(s)
  {
    var a, b, c, d := s[0..2], s[2..4], s[4..6], s[6..8];
    assert s == a + b + c + d;
    hide Join32, Byte32, Parse8, HexOf8, UpperAll, AllHex;
    Parse8Prints(a);
    Parse8Prints(b);
    Parse8Prints(c);
    Parse8Prints(d);
    TextAppend(a, b);
    TextAppend(a + b, c);
    TextAppend(a + b + c, d);
    if Parse32(s).Ok? {
      Bytes32Join(Parse8(a).value, Parse8(b).value, Parse8(c).value, Parse8(d).value);
    }
  }

  lemma TextAppend(s: seq<byte>, t: seq<byte>)
    ensures AllHex(s + t) <==> AllHex(s) && AllHex(t)
    ensures UpperAll(s + t) == UpperAll(s) + UpperAll(t)
  {
    hide DigitValue, Upper;
    assert forall c :: c in s + t <==> c in s || c in t;
  }

  lemma HexOf8AllHex(num: byte, caps: bool)
    ensures AllHex(HexOf8(num, caps))
  {
    hide Nibble, Digit, DigitValue, IsNibble;
    NibbleJoin(num);
    DigitRoundTrip(Nibble(num, 0), caps);
    DigitRoundTrip(Nibble(num, 1), caps);
  }

  lemma HexOf16AllHex(num: bv16, caps: bool)
    ensures AllHex(HexOf16(num, caps))
  {
    hide HexOf8, DigitValue, Byte16;
    HexOf8AllHex(Byte16(num, 1), caps);
    HexOf8AllHex(Byte16(num, 0), caps);
  }

  lemma HexOf32AllHex(num: bv32, caps: bool)
    ensures AllHex(HexOf32(num, caps))
  {
    hide HexOf8, DigitValue, Byte32;
    HexOf8AllHex(Byte32(num, 3), caps);
    HexOf8AllHex(Byte32(num, 2), caps);
    HexOf8AllHex(Byte32(num, 1), caps);
    HexOf8AllHex(Byte32(num, 0), caps);
  }

  // ---- The converters ----

  ghost predicate SameOutside(a: seq<byte>, b: seq<byte>, from: nat, to: nat) {
    |a| == |b| && forall k :: 0 <= k < |a| && !(from <= k < to) ==> a[k] == b[k]
  }

  method ConvertUint8ToHex(num: byte, out: array<byte>, offset: nat, caps: bool)
    requires offset + 2 <= out.Length
    modifies out
    ensures out[offset] == HexOf8(num, caps)[0] && out[offset + 1] == HexOf8(num, caps)[1]
    ensures out[offset..offset + 2] == HexOf8(num, caps)
    ensures SameOutside(out[..], old(out[..]), offset, offset + 2)
  {
    hide Nibble, Digit;
    for i := 0 to 2
      invariant i > 0 ==> out[offset + 1] == Digit(Nibble(num, 0), caps)
      invariant i > 1 ==> out[offset] == Digit(Nibble(num, 1), caps)
      invariant SameOutside(out[..], old(out[..]), offset, offset + 2)
    {
      var nibble := Nibble(num, i);
      out[offset + 1 - i] := Digit(nibble, caps);
    }
  }

  method ConvertUint16ToHex(num: bv16, out: array<byte>, offset: nat, caps: bool)
    requires offset + 4 <= out.Length
    modifies out
    ensures out[offset..offset + 4] == HexOf16(num, caps)
    ensures SameOutside(out[..], old(out[..]), offset, offset + 4)
  {
    hide HexOf8, Byte16;
    for i := 0 to 2
      invariant forall j :: 0 <= j < i ==>
        && out[offset + (1 - j) * 2] == HexOf8(Byte16(num, j), caps)[0]
        && out[offset + (1 - j) * 2 + 1] == HexOf8(Byte16(num, j), caps)[1]
      invariant SameOutside(out[..], old(out[..]), offset, offset + 4)
    {
      ConvertUint8ToHex(Byte16(num, i), out, offset + (1 - i) * 2, caps);
    }
  }

  method ConvertUint32ToHex(num: bv32, out: array<byte>, offset: nat, caps: bool)
    requires offset + 8 <= out.Length
    modifies out
    ensures out[offset..offset + 8] == HexOf32(num, caps)
    ensures SameOutside(out[..], old(out[..]), offset, offset + 8)
  {
    hide HexOf8, Byte32;
    for i := 0 to 4
      invariant forall j :: 0 <= j < i ==>
        && out[offset + (3 - j) * 2] == HexOf8(Byte32(num, j), caps)[0]
        && out[offset + (3 - j) * 2 + 1] == HexOf8(Byte32(num, j), caps)[1]
      invariant SameOutside(out[..], old(out[..]), offset, offset + 8)
    {
      ConvertUint8ToHex(Byte32(num, i), out, offset + (3 - i) * 2, caps);
    }
  }

  function OrNibble(result: byte, v: byte, i: nat): byte
    requires i < 2
  {
    if i == 0 then result | v else result | (v << 4)
  }

  function OrByte16(result: bv16, v: byte, i: nat): bv16
    requires i < 2
  {
    if i == 0 then result | (v as bv16) else result | ((v as bv16) << 8)
  }

  function OrByte32(result: bv32, v: byte, i: nat): bv32
    requires i < 4
  {
    if i == 0 then result | (v as bv32) else if i == 1 then result | ((v as bv32) << 8)
    else if i == 2 then result | ((v as bv32) << 16) else result | ((v as bv32) << 24)
  }

  lemma JoinByOr(high: byte, low: byte)
    ensures OrNibble(0, low, 0) == low && OrNibble(OrNibble(0, low, 0), high, 1) == Join(high, low)
  {
  }

  lemma Join16ByOr(high: byte, low: byte)
    ensures OrByte16(OrByte16(0, low, 0), high, 1) == Join16(high, low)
  {
  }

  lemma Join32ByOr(b3: byte, b2: byte, b1: byte, b0: byte)
    ensures OrByte32(OrByte32(OrByte32(OrByte32(0, b0, 0), b1, 1), b2, 2), b3, 3) == Join32(b3, b2, b1, b0)
  {
  }

  method ConvertHexToUint8(instr: array<byte>, offset: nat) returns (r: Result<byte>)
    requires offset + 2 <= instr.Length
    ensures r == Parse8(instr[offset..offset + 2])
  {
    var result: byte := 0;
    hide Join, OrNibble;
    for i := 0 to 2
      invariant i == 0 ==> result == 0
      invariant i > 0 ==> DigitValue(instr[offset + 1]).Some?
      invariant i == 1 ==> result == OrNibble(0, DigitValue(instr[offset + 1]).value, 0)
      invariant i == 2 ==> Parse8(instr[offset..offset + 2]) == Ok(result)
    {
      var thischar := instr[offset + 1 - i];
      if 0x30 <= thischar <= 0x39 {
        result := OrNibble(result, thischar - 0x30, i);
      } else if 0x41 <= thischar <= 0x46 {
        result := OrNibble(result, thischar - 0x41 + 10, i);
      } else if 0x61 <= thischar <= 0x66 {
        result := OrNibble(result, thischar - 0x61 + 10, i);
      } else {
        return Throw(NotHexChar);
      }
      if i == 1 {
        JoinByOr(DigitValue(instr[offset]).value, DigitValue(instr[offset + 1]).value);
      }
    }
    return Ok(result);
  }

  method ConvertHexToUint16(instr: array<byte>, offset: nat) returns (r: Result<bv16>)
    requires offset + 4 <= instr.Length
    ensures r == Parse16(instr[offset..offset + 4])
  {
    ghost var s := instr[offset..offset + 4];
    var result: bv16 := 0;
    hide Parse8, Join16, OrByte16;
    for i := 0 to 2
      invariant i == 0 ==> result == 0
      invariant i > 0 ==> Parse8(s[2..4]).Ok?
      invariant i == 1 ==> result == OrByte16(0, Parse8(s[2..4]).value, 0)
      invariant i == 2 ==> Parse16(s) == Ok(result)
    {
      var b := ConvertHexToUint8(instr, offset + (1 - i) * 2);
      SliceOfSlice(instr[..], offset, offset + 4, (1 - i) * 2, (1 - i) * 2 + 2);
      if b.Throw? {
        return Throw(b.error);
      }
      if i == 1 {
        Join16ByOr(b.value, Parse8(s[2..4]).value);
      }
      result := OrByte16(result, b.value, i);
    }
    return Ok(result);
  }

  method ConvertHexToUint32(instr: array<byte>, offset: nat) returns (r: Result<bv32>)
    requires offset + 8 <= instr.Length
    ensures r == Parse32(instr[offset..offset + 8])
  {
    ghost var s := instr[offset..offset + 8];
    ghost var b0, b1, b2 := Parse8(s[6..8]), Parse8(s[4..6]), Parse8(s[2..4]);
    var result: bv32 := 0;
    hide Parse8, Join32, OrByte32;
    for i := 0 to 4
      invariant i == 0 ==> result == 0
      invariant i > 0 ==> b0.Ok?
      invariant i > 1 ==> b1.Ok?
      invariant i > 2 ==> b2.Ok?
      invariant i == 1 ==> result == OrByte32(0, b0.value, 0)
      invariant i == 2 ==> result == OrByte32(OrByte32(0, b0.value, 0), b1.value, 1)
      invariant i == 3 ==> result == OrByte32(OrByte32(OrByte32(0, b0.value, 0), b1.value, 1), b2.value, 2)
      invariant i == 4 ==> Parse32(s) == Ok(result)
    {
      var b := ConvertHexToUint8(instr, offset + (3 - i) * 2);
      SliceOfSlice(instr[..], offset, offset + 8, (3 - i) * 2, (3 - i) * 2 + 2);
      if b.Throw? {
        return Throw(b.error);
      }
      if i == 3 {
        Join32ByOr(b.value, b2.value, b1.value, b0.value);
      }
      result := OrByte32(result, b.value, i);
    }
    return Ok(result);
  }
}
