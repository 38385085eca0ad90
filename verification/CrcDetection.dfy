// What the checksum detects: any change confined to sixteen consecutive bits of a message.

module CrcDetection {
  import opened Sequences
  import opened Crc
  import opened CrcTables

  lemma BitsInjective(b: byte, c: byte)
    requires Bits(b) == Bits(c)
    ensures b == c
  {
    var s, t := Bits(b), Bits(c);
    assert s[0] == t[0] && s[1] == t[1] && s[2] == t[2] && s[3] == t[3];
    assert s[4] == t[4] && s[5] == t[5] && s[6] == t[6] && s[7] == t[7];
  }

  lemma {:induction false} AllBitsInjective(x: seq<byte>, y: seq<byte>)
    requires |x| == |y| && AllBits(x) == AllBits(y)
    ensures x == y
  {
    hide Bits;
    if x != [] {
      var n := |x| - 1;
      var p, q := AllBits(x[..n]), AllBits(y[..n]);
      assert AllBits(x)[..8 * n] == p && AllBits(y)[..8 * n] == q;
      assert AllBits(x)[8 * n..] == Bits(x[n]) && AllBits(y)[8 * n..] == Bits(y[n]);
      AllBitsInjective(x[..n], y[..n]);
      BitsInjective(x[n], y[n]);
      assert x == x[..n] + [x[n]] && y == y[..n] + [y[n]];
    }
  }

  lemma BitInjective(x: word, y: word, bit: bool)
    requires ReflectedBit(x, bit) == ReflectedBit(y, bit)
    ensures x == y
  {
    hide *;
    BitValues(x, bit);
    BitValues(y, bit);
    ShiftDownInjective(Xor(x, AsBit(bit)), Xor(y, AsBit(bit)));
    XorCancel(x, y, AsBit(bit));
  }

  /** Different registers stay different as long as the messages agree. */
  lemma {:induction false} FoldInjective(x: word, y: word, s: seq<bool>)
    requires Fold(ReflectedBit, x, s) == Fold(ReflectedBit, y, s)
    ensures x == y
  {
    hide ReflectedBit;
    if s != [] {
      var n := |s| - 1;
      BitInjective(Fold(ReflectedBit, x, s[..n]), Fold(ReflectedBit, y, s[..n]), s[n]);
      FoldInjective(x, y, s[..n]);
    }
  }

  /** Different windows of up to sixteen bits leave different registers. */
  lemma WindowInjective(r: word, s: seq<bool>, t: seq<bool>)
    requires |s| == |t| <= 16 && Fold(ReflectedBit, r, s) == Fold(ReflectedBit, r, t)
    ensures s == t
  {
    hide *;
    FoldIsDown(r, s);
    FoldIsDown(r, t);
    DownInjective(|s|, Xor(r, Pack(s)), Xor(r, Pack(t)));
    XorCommutes(r, Pack(s));
    XorCommutes(r, Pack(t));
    XorCancel(Pack(s), Pack(t), r);
    PackInjective(s, t);
  }

  /** x and y agree on every bit outside [k, k + 16). */
  ghost predicate BurstAt(x: seq<byte>, y: seq<byte>, k: nat) {
    && |x| == |y|
    && forall i :: 0 <= i < 8 * |x| && !(k <= i < k + 16) ==> AllBits(x)[i] == AllBits(y)[i]
  }

  lemma SplitFold(s: seq<bool>, a: nat, b: nat)
    requires a <= b <= |s|
    ensures Fold(ReflectedBit, 0, s)
      == Fold(ReflectedBit, Fold(ReflectedBit, Fold(ReflectedBit, 0, s[..a]), s[a..b]), s[b..])
  {
    hide *;
    assert s == (s[..a] + s[a..b]) + s[b..];
    FoldAppend(ReflectedBit, 0, s[..a] + s[a..b], s[b..]);
    FoldAppend(ReflectedBit, 0, s[..a], s[a..b]);
  }

  /** Bit strings that differ only in a short window and leave the same register are equal. */
  lemma WindowDetected(s: seq<bool>, t: seq<bool>, a: nat, b: nat)
    requires a <= b <= |s| == |t| && b - a <= 16 && s[..a] == t[..a] && s[b..] == t[b..]
    requires Fold(ReflectedBit, 0, s) == Fold(ReflectedBit, 0, t)
    ensures s == t
  {
    hide *;
    SplitFold(s, a, b);
    SplitFold(t, a, b);
    var r := Fold(ReflectedBit, 0, s[..a]);
    FoldInjective(Fold(ReflectedBit, r, s[a..b]), Fold(ReflectedBit, r, t[a..b]), s[b..]);
    WindowInjective(r, s[a..b], t[a..b]);
    assert s == s[..a] + s[a..b] + s[b..] && t == t[..a] + t[a..b] + t[b..];
  }

  lemma SameChecksum(x: seq<byte>, y: seq<byte>)
    requires Crc16(x) == Crc16(y)
    ensures Fold(ReflectedBit, 0, AllBits(x)) == Fold(ReflectedBit, 0, AllBits(y))
  {
    hide Xor, Fold, AllBits;
    XorCancel(Run(ReflectedBit, 0, x), Run(ReflectedBit, 0, y), 0xffff);
  }

  lemma BitOfByte(b: byte, k: nat)
    requires k < 8
    ensures Bits(b)[k] <==> (b >> k) & 1 == 1
  {
  }

  /** Bit i of a message is bit i % 8 of its byte i / 8, counted from the least significant one. */
  lemma {:induction false} BitOfMessage(x: seq<byte>, i: nat)
    requires i < 8 * |x|
    ensures AllBits(x)[i] <==> (x[i / 8] >> (i % 8)) & 1 == 1
    decreases |x|
  {
    hide Bits;
    var n := |x| - 1;
    if i < 8 * n {
      BitOfMessage(x[..n], i);
      assert x[..n][i / 8] == x[i / 8];
    } else {
      assert i / 8 == n && i % 8 == i - 8 * n;
      BitOfByte(x[n], i - 8 * n);
    }
  }

  lemma BurstByBits(x: seq<byte>, y: seq<byte>, k: nat)
    requires |x| == |y|
    requires forall i :: 0 <= i < 8 * |x| && !(k <= i < k + 16) ==>
      (x[i / 8] >> (i % 8)) & 1 == (y[i / 8] >> (i % 8)) & 1
    ensures BurstAt(x, y, k)
  {
    forall i | 0 <= i < 8 * |x| && !(k <= i < k + 16) ensures AllBits(x)[i] == AllBits(y)[i] {
      hide AllBits;
      BitOfMessage(x, i);
      BitOfMessage(y, i);
    }
  }

  lemma BurstChangesChecksum(x: seq<byte>, y: seq<byte>, k: nat)
    requires BurstAt(x, y, k) && x != y
    ensures Crc16(x) != Crc16(y)
  {
    var s, t := AllBits(x), AllBits(y);
    var a := if k < |s| then k else |s|;
    var b := if k + 16 < |s| then k + 16 else |s|;
    assert s[..a] == t[..a] && s[b..] == t[b..];
    hide *;
    if Crc16(x) == Crc16(y) {
      SameChecksum(x, y);
      WindowDetected(s, t, a, b);
      AllBitsInjective(x, y);
    }
  }

  /** Two different messages of one length that differ only within sixteen consecutive bits have different checksums. */
  lemma BurstDetected(x: seq<byte>, y: seq<byte>, k: nat)
    requires |x| == |y| && x != y
    requires forall i :: 0 <= i < 8 * |x| && !(k <= i < k + 16) ==>
      (x[i / 8] >> (i % 8)) & 1 == (y[i / 8] >> (i % 8)) & 1
    ensures Crc16(x) != Crc16(y)
  {
    hide *;
    BurstByBits(x, y, k);
    BurstChangesChecksum(x, y, k);
  }
}
