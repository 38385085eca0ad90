// Frames on the wire, and what encoding and decoding do to the contents of the two buffers.

module Frames {
  import opened AscException
  import opened Sequences
  import opened Resync
  import opened Crc
  import opened Hex

  const START: byte := 0x3E   // '>'
  const PERIOD: byte := 0x2E  // '.'
  const END: byte := 0x0A     // '\n'

  const MAXMESSAGELEN: nat := 64
  const MAXDATALEN: nat := 54
  const NCHARCHECKSUM: nat := 4

  datatype Message = Message(ascVersion: byte, appVersion: byte, command: byte, data: seq<byte>)

  /** The part of a frame its checksum covers. */
  function Head(m: Message): (s: seq<byte>)
    ensures |s| == |m.data| + 5
  {
    [START, m.ascVersion, m.appVersion, m.command] + m.data + [PERIOD]
  }

  function Checksum(s: seq<byte>): (c: seq<byte>)
    ensures |c| == NCHARCHECKSUM
  {
    HexOf16(Crc16(s), true)
  }

  /** A frame of m whose checksum field holds the text x. */
  function FrameWith(m: Message, x: seq<byte>): (s: seq<byte>)
    requires |x| == NCHARCHECKSUM
    ensures |s| == |m.data| + 10
  {
    Head(m) + x + [END]
  }

  function Frame(m: Message): (s: seq<byte>)
    ensures |s| == |m.data| + 10
  {
    FrameWith(m, Checksum(Head(m)))
  }

  predicate Plain(b: byte) {
    b != START && b != PERIOD && b != END
  }

  predicate AllPlain(s: seq<byte>) {
    forall i :: 0 <= i < |s| ==> Plain(s[i])
  }

  /** The messages a frame can carry. */
  predicate Sendable(m: Message) {
    && |m.data| <= MAXDATALEN
    && Plain(m.ascVersion) && Plain(m.appVersion) && Plain(m.command) && AllPlain(m.data)
  }

  // ---- compute_checksum ----

  /** Do the start marker at iStart and the period at iStop, in a buffer of `size` bytes, delimit a frame's head? */
  function MarkerStatus(size: nat, iStart: nat, iStop: nat): Status {
    if iStart >= size then Threw(InvalidFrame)
    else if iStop >= size then Threw(InvalidFramePeriod)
    else if iStop >= MAXMESSAGELEN - NCHARCHECKSUM - 1 then Threw(ChecksumProblem)
    else if iStop <= iStart || iStop - iStart < 4 then Threw(InvalidFramePeriod)
    else Done
  }

  /** The checksum of the first frame of an input buffer, or of the last frame of an output buffer. */
  function ComputeChecksum(c: seq<byte>, outputBuffer: bool): Result<seq<byte>> {
    var iStart := if outputBuffer then FindLast(c, START) else FindFirst(c, START);
    var iStop := if outputBuffer then FindLast(c, PERIOD) else FindFirst(c, PERIOD);
    match MarkerStatus(|c|, iStart, iStop)
    case Threw(e) => Throw(e)
    case Done => Ok(Checksum(c[iStart..iStop + 1]))
  }

  // ---- Decoding ----

  /** How one call of get_message ends. */
  datatype Outcome =
    | NoMessage                                // nothing stored but command 0 and length 0
    | Mismatch(m: Message)                     // m stored, then command 0 and length 0
    | Delivered(m: Message)
    | Thrown(error: Error)                     // nothing stored
    | ThrownAfter(error: Error, m: Message)    // m stored, then the throw

  datatype Receipt = Receipt(outcome: Outcome, rest: seq<byte>)

  /** get_message on the contents c of the input buffer: how it ends and what it leaves. */
  function Receive(c: seq<byte>): Receipt {
    if c == [] then Receipt(NoMessage, [])
    else
      CleanShape(c, START, END);
      ReceiveClean(Clean(c, START, END))
  }

  /** The part of get_message that follows the removal of unfinished frames. */
  function ReceiveClean(r: seq<byte>): Receipt
    requires AtFrame(r, START, END)
  {
    var iEnd := FindFirst(r, END);
    var iPeriod := FindFirst(r, PERIOD);
    if iEnd == |r| then Receipt(NoMessage, r)
    else if iPeriod > iEnd then Receipt(Thrown(InvalidFramePeriod), r[iEnd + 1..])
    else match ComputeChecksum(r, false)
      case Throw(e) => Receipt(Thrown(e), r)
      case Ok(chk) => ReceiveBody(r, iPeriod, chk)
  }

  /** The part of get_message that pops a frame whose first period is at iPeriod. */
  function ReceiveBody(r: seq<byte>, iPeriod: nat, chk: seq<byte>): Receipt
    requires 4 <= iPeriod < |r|
  {
    var m := Message(r[1], r[2], r[3], r[4..iPeriod]);
    var rest := r[iPeriod + 1..];
    if |rest| < NCHARCHECKSUM + 1 || rest[NCHARCHECKSUM] != END then Receipt(ThrownAfter(InvalidFrame, m), rest)
    else if rest[..NCHARCHECKSUM] != chk then Receipt(Mismatch(m), rest[NCHARCHECKSUM + 1..])
    else Receipt(Delivered(m), rest[NCHARCHECKSUM + 1..])
  }

  // ---- Frames resynchronise to themselves ----

  lemma HexIsPlain(s: seq<byte>)
    requires AllHex(s)
    ensures AllPlain(s)
  {
    forall i | 0 <= i < |s| ensures Plain(s[i]) {
      assert s[i] in s;
      HexDigitIsPlain(s[i]);
    }
  }

  lemma HexDigitIsPlain(c: byte)
    requires DigitValue(c).Some?
    ensures Plain(c)
  {
  }

  lemma ChecksumPlain(s: seq<byte>)
    ensures AllPlain(Checksum(s))
  {
    hide Crc16, HexOf16, AllPlain, AllHex;
    HexOf16AllHex(Crc16(s), true);
    HexIsPlain(Checksum(s));
  }

  /** Where the markers of a sendable frame are. */
  lemma FrameShape(m: Message, x: seq<byte>, tail: seq<byte>)
    requires Sendable(m) && |x| == 4 && AllPlain(x)
    ensures var c := FrameWith(m, x) + tail;
      && c[0] == START && AllPlain(c[1..|m.data| + 4]) && c[|m.data| + 4] == PERIOD
      && AllPlain(c[|m.data| + 5..|m.data| + 9]) && c[|m.data| + 9] == END
  {
    hide Plain;
    var c, n := FrameWith(m, x) + tail, |m.data|;
    assert c[1..n + 4] == [m.ascVersion, m.appVersion, m.command] + m.data;
    assert c[n + 5..n + 9] == x;
  }

  lemma FrameMarkers(m: Message, x: seq<byte>, tail: seq<byte>)
    requires Sendable(m) && |x| == 4 && AllPlain(x)
    ensures var c := FrameWith(m, x) + tail;
      && AtFrame(c, START, END) && FindFirst(c, START) == 0
      && FindFirst(c, PERIOD) == |m.data| + 4 && FindFirst(c, END) == |m.data| + 9
  {
    var c, n := FrameWith(m, x) + tail, |m.data|;
    FrameShape(m, x, tail);
    assert forall i :: 0 < i < n + 4 ==> Plain(c[i]) by {
      forall i | 0 < i < n + 4 ensures Plain(c[i]) { assert c[i] == c[1..n + 4][i - 1]; }
    }
    assert forall i :: n + 5 <= i < n + 9 ==> Plain(c[i]) by {
      forall i | n + 5 <= i < n + 9 ensures Plain(c[i]) { assert c[i] == c[n + 5..n + 9][i - n - 5]; }
    }
    hide FrameWith, Sendable;
    FindFirstUnique(c, PERIOD, n + 4);
    FindFirstUnique(c, END, n + 9);
    FindFirstUnique(c, START, 0);
  }

  /** Decoding a complete frame delivers it exactly when its checksum field is right, and consumes it either way. */
  lemma ReceiveFrame(m: Message, x: seq<byte>, tail: seq<byte>)
    requires Sendable(m) && |x| == 4 && AllPlain(x)
    ensures Receive(FrameWith(m, x) + tail)
      == Receipt(if x == Checksum(Head(m)) then Delivered(m) else Mismatch(m), tail)
  {
    var c, n := FrameWith(m, x) + tail, |m.data|;
    assert n <= MAXDATALEN;
    hide *;
    FrameSlices(m, x, tail);
    FrameMarkers(m, x, tail);
    CleanFixed(c, START, END);
    FrameDecoded(c, n, Checksum(Head(m)));
    BodyParts(c, n, m, x, tail, Checksum(Head(m)));
  }

  lemma FrameSlices(m: Message, x: seq<byte>, tail: seq<byte>)
    requires |x| == 4
    ensures var c, n := FrameWith(m, x) + tail, |m.data|;
      && |c| == n + 10 + |tail| && c[..n + 5] == Head(m) && c[0..n + 5] == Head(m) && c[4..n + 4] == m.data
      && c[1] == m.ascVersion && c[2] == m.appVersion && c[3] == m.command
      && c[n + 5..][..4] == x && c[n + 5..][4] == END && c[n + 5..][5..] == tail
  {
    var c, n := FrameWith(m, x) + tail, |m.data|;
    var h := Head(m);
    assert c == h + (x + ([END] + tail));
    assert h[4..n + 4] == m.data;
    assert c[4..n + 4] == h[4..n + 4];
    assert c[n + 5..] == x + ([END] + tail);
  }

  /** A complete frame with n data bytes, by the markers of the buffer that begins with it. */
  lemma FrameDecoded(c: seq<byte>, n: nat, chk: seq<byte>)
    requires AtFrame(c, START, END) && Clean(c, START, END) == c && n <= MAXDATALEN && n + 10 <= |c|
    requires FindFirst(c, START) == 0 && FindFirst(c, PERIOD) == n + 4 && FindFirst(c, END) == n + 9
    requires Checksum(c[0..n + 5]) == chk
    ensures Receive(c) == ReceiveBody(c, n + 4, chk)
  {
    hide Checksum, Clean, AtFrame, FindFirst, ReceiveBody;
  }

  lemma BodyParts(c: seq<byte>, n: nat, m: Message, x: seq<byte>, tail: seq<byte>, chk: seq<byte>)
    requires n + 10 <= |c| && |x| == 4
    requires c[1] == m.ascVersion && c[2] == m.appVersion && c[3] == m.command && c[4..n + 4] == m.data
    requires c[n + 5..][..4] == x && c[n + 5..][4] == END && c[n + 5..][5..] == tail
    ensures ReceiveBody(c, n + 4, chk) == Receipt(if x == chk then Delivered(m) else Mismatch(m), tail)
  {
  }

  /** Decoding what was encoded gives the message back and leaves what follows the frame. */
  lemma RoundTrip(m: Message, tail: seq<byte>)
    requires Sendable(m)
    ensures Receive(Frame(m) + tail) == Receipt(Delivered(m), tail)
  {
    hide Receive, Checksum, FrameWith, Sendable, AllPlain;
    ChecksumPlain(Head(m));
    ReceiveFrame(m, Checksum(Head(m)), tail);
  }

  // ---- Every outcome ----

  /** What a buffer holds after resynchronisation decides the outcome; the first period is at p, the first end at e. */
  lemma OutcomeTable(c: seq<byte>)
    ensures var r := Clean(c, START, END);
      var e, p := FindFirst(r, END), FindFirst(r, PERIOD);
      var late := 4 <= p < 59 && p < e < |r|;
      && (END !in r ==> Receive(c) == Receipt(NoMessage, r))
      && (END in r && PERIOD !in r[..e] ==> Receive(c) == Receipt(Thrown(InvalidFramePeriod), r[e + 1..]))
      && (END in r && PERIOD in r[..e] && p < 4 ==> Receive(c) == Receipt(Thrown(InvalidFramePeriod), r))
      && (END in r && PERIOD in r[..e] && p >= 59 ==> Receive(c) == Receipt(Thrown(ChecksumProblem), r))
      && (END in r && PERIOD in r[..e] && 4 <= p < 59 ==> late && Receive(c) == ReceiveBody(r, p, Checksum(r[..p + 1])))
  {
    hide Clean, Checksum;
    CleanShape(c, START, END);
    var r := Clean(c, START, END);
    var e, p := FindFirst(r, END), FindFirst(r, PERIOD);
    if r == [] {
      EmptyReceipt();
    } else {
      PeriodBefore(r, e, p);
      assert FindFirst(r, START) == 0;
      assert p < |r| ==> r[0..p + 1] == r[..p + 1];
      hide FindFirst;
    }
    if c == [] { assert r == [] by { EmptyClean(); } }
  }

  lemma EmptyClean()
    ensures Clean<byte>([], START, END) == []
  {
  }

  lemma PeriodBefore(r: seq<byte>, e: nat, p: nat)
    requires e == FindFirst(r, END) && p == FindFirst(r, PERIOD)
    ensures END in r <==> e < |r|
    ensures PERIOD in r[..e] <==> p < e
  {
    hide FindFirst;
    if p < e { assert r[..e][p] == PERIOD; }
    if e < |r| { assert r[e] in r; }
    if e == |r| { assert r[..e] == r; }
    if PERIOD in r[..e] {
      var i :| 0 <= i < e && r[..e][i] == PERIOD;
      assert forall j :: 0 <= j < p ==> r[..p][j] == r[j];
    }
  }

  /** What a popped frame gives: m is what lies between the start and the first period. */
  lemma BodyTable(r: seq<byte>, p: nat, chk: seq<byte>)
    requires 4 <= p < 59 && p < |r| && r[0] == START && r[p] == PERIOD && |chk| == 4
    ensures var m := Message(r[1], r[2], r[3], r[4..p]);
      && Head(m) == r[..p + 1] && |m.data| == p - 4 <= MAXDATALEN
      && (|r| <= p + 5 || r[p + 5] != END ==> ReceiveBody(r, p, chk) == Receipt(ThrownAfter(InvalidFrame, m), r[p + 1..]))
      && (p + 5 < |r| && r[p + 5] == END && r[p + 1..p + 5] != chk ==>
            ReceiveBody(r, p, chk) == Receipt(Mismatch(m), r[p + 6..]))
      && (p + 5 < |r| && r[p + 5] == END && r[p + 1..p + 5] == chk ==>
            ReceiveBody(r, p, chk) == Receipt(Delivered(m), r[p + 6..]) && r == FrameWith(m, chk) + r[p + 6..])
  {
    var m := Message(r[1], r[2], r[3], r[4..p]);
    HeadOf(r, p);
    if p + 5 < |r| {
      TailOf(r, p);
      hide Head;
    }
  }

  lemma HeadOf(r: seq<byte>, p: nat)
    requires 4 <= p < |r| && r[0] == START && r[p] == PERIOD
    ensures Head(Message(r[1], r[2], r[3], r[4..p])) == r[..p + 1]
  {
  }

  lemma TailOf(r: seq<byte>, p: nat)
    requires p + 5 < |r|
    ensures var rest := r[p + 1..];
      rest[..4] == r[p + 1..p + 5] && rest[4] == r[p + 5] && rest[5..] == r[p + 6..]
    ensures r == r[..p + 1] + r[p + 1..p + 5] + [r[p + 5]] + r[p + 6..]
  {
    assert r[..p + 1] + r[p + 1..] == r;
    assert r[p + 1..] == r[p + 1..p + 5] + ([r[p + 5]] + r[p + 6..]);
  }

  /** At most MAXDATALEN data bytes are ever stored, and only three errors can escape. */
  lemma DecoderBounds(c: seq<byte>)
    ensures var o := Receive(c).outcome;
      && (o.Delivered? || o.Mismatch? || o.ThrownAfter? ==> |o.m.data| <= MAXDATALEN)
      && (o.Thrown? || o.ThrownAfter? ==> o.error in {InvalidFramePeriod, ChecksumProblem, InvalidFrame})
  {
    OutcomeTable(c);
    var r := Clean(c, START, END);
    var p := FindFirst(r, PERIOD);
    CleanShape(c, START, END);
    assert NCHARCHECKSUM == 4;
    hide *;
    PeriodBefore(r, FindFirst(r, END), p);
    if END in r && PERIOD in r[..FindFirst(r, END)] && 4 <= p < 59 {
      assert |r| > p;
      StartsAtStart(r);
      BodyTable(r, p, Checksum(r[..p + 1]));
    }
  }

  lemma StartsAtStart(r: seq<byte>)
    requires AtFrame(r, START, END) && r != []
    ensures r[0] == START
  {
  }

  /**
   * A call that finds a complete line does not always consume it: it does so exactly when the line has no period, or
   * its first period is at 4 to 58.
   */
  lemma ProgressExact(c: seq<byte>)
    requires END in Clean(c, START, END)
    ensures var r := Clean(c, START, END);
      var e, p := FindFirst(r, END), FindFirst(r, PERIOD);
      |Receive(c).rest| < |r| <==> PERIOD !in r[..e] || 4 <= p < 59
  {
    OutcomeTable(c);
    var r := Clean(c, START, END);
    var e, p := FindFirst(r, END), FindFirst(r, PERIOD);
    CleanShape(c, START, END);
    assert NCHARCHECKSUM == 4;
    hide *;
    PeriodBefore(r, e, p);
    if PERIOD in r[..e] && 4 <= p < 59 {
      assert |r| > p;
      StartsAtStart(r);
      BodyTable(r, p, Checksum(r[..p + 1]));
    }
  }

  /** A line that is kept by a call: start, period, end. */
  lemma StuckExample()
    ensures Receive([START, PERIOD, END]) == Receipt(Thrown(InvalidFramePeriod), [START, PERIOD, END])
  {
    var c := [START, PERIOD, END];
    assert c[2] in c && c[..2][1] in c[..2];
    FindFirstUnique(c, PERIOD, 1);
    FindFirstUnique(c, END, 2);
    assert AtFrame(c, START, END) by { hide FindFirst; }
    hide *;
    CleanFixed(c, START, END);
    OutcomeTable(c);
  }

  /** No shorter line is kept: a call that leaves a complete line leaves its start two bytes or more before its end. */
  lemma StuckShape(c: seq<byte>)
    requires Receive(c).rest == Clean(c, START, END)
    ensures var r := Clean(c, START, END);
      END in r ==> 2 <= FindFirst(r, END) < |r| && r[0] == START
  {
    var r := Clean(c, START, END);
    var e, p := FindFirst(r, END), FindFirst(r, PERIOD);
    CleanShape(c, START, END);
    hide *;
    PeriodBefore(r, e, p);
    if END in r {
      ProgressExact(c);
      StartsAtStart(r);
      PeriodBehindStart(r);
    }
  }

  lemma PeriodBehindStart(r: seq<byte>)
    requires r != [] && r[0] == START
    ensures 0 < FindFirst(r, PERIOD)
  {
  }

  // ---- The undocumented error ----

  lemma BodyOutcomes(r: seq<byte>, p: nat, chk: seq<byte>)
    requires 4 <= p < |r|
    ensures !ReceiveBody(r, p, chk).outcome.Thrown?
  {
  }

  /**
   * The header promises two errors. The third one comes exactly of a buffer that is resynchronised to a line whose
   * first period is at 59 or beyond.
   */
  lemma ChecksumProblemExact(c: seq<byte>)
    ensures Receive(c).outcome == Thrown(ChecksumProblem) <==>
      var r := Clean(c, START, END);
      END in r && PERIOD in r[..FindFirst(r, END)] && 59 <= FindFirst(r, PERIOD)
  {
    OutcomeTable(c);
    var r := Clean(c, START, END);
    var e, p := FindFirst(r, END), FindFirst(r, PERIOD);
    assert InvalidFramePeriod != ChecksumProblem;
    hide *;
    PeriodBefore(r, e, p);
    if END in r && PERIOD in r[..e] && 4 <= p < 59 {
      BodyOutcomes(r, p, Checksum(r[..p + 1]));
    }
  }

  lemma ChecksumProblemExample()
    ensures var c := [START] + seq(58, _ => 0x41) + [PERIOD, END];
      Receive(c) == Receipt(Thrown(ChecksumProblem), c)
  {
    var c: seq<byte> := [START] + seq(58, _ => 0x41) + [PERIOD, END];
    assert c[60] in c && c[..60][59] in c[..60];
    FindFirstUnique(c, PERIOD, 59);
    FindFirstUnique(c, END, 60);
    assert AtFrame(c, START, END) by { hide FindFirst; }
    hide *;
    CleanFixed(c, START, END);
    OutcomeTable(c);
  }

  // ---- Acceptance ----

  /** Only frames of sendable messages are delivered: what was consumed is the encoding of what is delivered. */
  lemma DeliveredIsFrame(c: seq<byte>, m: Message)
    ensures Receive(c).outcome == Delivered(m) ==> Sendable(m) && Clean(c, START, END) == Frame(m) + Receive(c).rest
  {
    OutcomeTable(c);
    var r := Clean(c, START, END);
    var e, p := FindFirst(r, END), FindFirst(r, PERIOD);
    CleanShape(c, START, END);
    assert NCHARCHECKSUM == 4;
    hide *;
    if Receive(c).outcome == Delivered(m) {
      assert 4 <= p < 59 && p < e;
      StartsAtStart(r);
      PlainBeforePeriod(r);
      BodyTable(r, p, Checksum(r[..p + 1]));
      PlainHead(r, p);
      FrameValue(m);
    }
  }

  lemma FrameValue(m: Message)
    ensures Frame(m) == FrameWith(m, Checksum(Head(m)))
  {
  }

  lemma PlainHead(r: seq<byte>, p: nat)
    requires 4 <= p < 59 && p < |r| && forall i :: 0 < i < p ==> Plain(r[i])
    ensures Sendable(Message(r[1], r[2], r[3], r[4..p]))
  {
    hide Plain;
  }

  lemma PlainBeforePeriod(r: seq<byte>)
    requires AtFrame(r, START, END) && FindFirst(r, PERIOD) < FindFirst(r, END)
    ensures forall i :: 0 < i < FindFirst(r, PERIOD) ==> Plain(r[i])
  {
    var iEnd, iPeriod := FindFirst(r, END), FindFirst(r, PERIOD);
    forall i | 0 < i < iPeriod ensures Plain(r[i]) {
      assert r[..iPeriod][i] == r[i] && r[..iEnd][i] == r[i];
    }
  }

  lemma Acceptance(c: seq<byte>, m: Message, rest: seq<byte>)
    ensures Receive(c) == Receipt(Delivered(m), rest)
      <==> Sendable(m) && Clean(c, START, END) == Frame(m) + rest
  {
    hide *;
    if Receive(c).outcome == Delivered(m) {
      DeliveredIsFrame(c, m);
      FrameCancel(m, rest, Receive(c).rest);
    }
    if Sendable(m) && Clean(c, START, END) == Frame(m) + rest {
      RoundTrip(m, rest);
      ReceiveResynchronised(c);
    }
  }

  /** The wire format in bytes: '>', versions, command, data, '.', four upper-case digits of the checksum, line end. */
  lemma WireFormat(m: Message)
    ensures var head := [0x3E, m.ascVersion, m.appVersion, m.command] + m.data + [0x2E];
      Frame(m) == head + HexOf16(Crc16(head), true) + [0x0A]
  {
    hide HexOf16, Crc16;
  }

  /** The messages a frame can carry, in bytes. */
  lemma SendableBytes(m: Message)
    ensures Sendable(m) <==>
      && |m.data| <= 54
      && forall b :: b in [m.ascVersion, m.appVersion, m.command] + m.data ==> b != 0x3E && b != 0x2E && b != 0x0A
  {
    var s := [m.ascVersion, m.appVersion, m.command] + m.data;
    assert s[0] == m.ascVersion && s[1] == m.appVersion && s[2] == m.command;
    assert forall i :: 0 <= i < |m.data| ==> s[i + 3] == m.data[i];
    assert forall i :: 0 <= i < |s| ==> s[i] in s;
  }

  /**
   * get_message delivers m and leaves rest exactly when the resynchronised buffer is the frame of m and then rest, m
   * having at most 54 data bytes and no '>', '.' or line end anywhere.
   */
  lemma AcceptanceExact(c: seq<byte>, m: Message, rest: seq<byte>)
    ensures var head := [0x3E, m.ascVersion, m.appVersion, m.command] + m.data + [0x2E];
      Receive(c) == Receipt(Delivered(m), rest) <==>
        && |m.data| <= 54
        && (forall b :: b in [m.ascVersion, m.appVersion, m.command] + m.data ==> b != 0x3E && b != 0x2E && b != 0x0A)
        && Clean(c, 0x3E, 0x0A) == head + HexOf16(Crc16(head), true) + [0x0A] + rest
  {
    assert START == 0x3E && END == 0x0A;
    hide *;
    Acceptance(c, m, rest);
    WireFormat(m);
    SendableBytes(m);
  }

  lemma FrameCancel(m: Message, x: seq<byte>, y: seq<byte>)
    ensures Frame(m) + x == Frame(m) + y ==> x == y
  {
    hide Frame;
    var f := Frame(m);
    assert x == (f + x)[|f|..] && y == (f + y)[|f|..];
  }

  /** Resynchronising first changes nothing. */
  lemma ReceiveResynchronised(c: seq<byte>)
    ensures Receive(Clean(c, START, END)) == Receive(c)
  {
    hide Clean, ReceiveClean, AtFrame;
    CleanShape(c, START, END);
    CleanIdempotent(c, START, END);
    if Clean(c, START, END) == [] {
      EmptyReceipt();
    }
  }

  lemma EmptyReceipt()
    ensures AtFrame([], START, END) && ReceiveClean([]) == Receipt(NoMessage, [])
  {
  }

  /** No call leaves more than it found. */
  lemma RestShrinks(c: seq<byte>)
    ensures |Receive(c).rest| <= |c|
  {
    var r := Clean(c, START, END);
    OutcomeTable(c);
    hide Clean;
    if c != [] {
      CleanShape(c, START, END);
    }
  }
}
