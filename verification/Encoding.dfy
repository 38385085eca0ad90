// Encoding into the output buffer, error replies, and what the checksum keeps out.

module Encoding {
  import opened AscException
  import opened Sequences
  import opened Resync
  import opened Crc
  import opened CrcDetection
  import opened Hex
  import opened Frames

  /** put_message on the contents `out` of the output buffer: how it ends and what it leaves. */
  function Put(out: seq<byte>, m: Message): (Status, seq<byte>)
    requires |out| <= MAXMESSAGELEN
  {
    if |m.data| > MAXDATALEN then (Threw(DataTooLong), out)
    else
      var withHead := PushedAll(out, Head(m), MAXMESSAGELEN);
      match ComputeChecksum(withHead, true)
      case Throw(e) => (Threw(e), withHead)
      case Ok(chk) => (Done, PushedAll(withHead, chk + [END], MAXMESSAGELEN))
  }

  predicate Fits(out: seq<byte>, m: Message) {
    |out| + |m.data| + 10 <= MAXMESSAGELEN
  }

  /** Where the checksummed part of the frame starts: at the last start marker among its own bytes. */
  function LastStart(m: Message): (k: nat)
    ensures k < |m.data| + 4
  {
    var h := Head(m);
    var k := FindLast(h, START);
    assert h[0] in h;
    assert h[|h| - 1] == PERIOD;
    k
  }

  lemma HeadFits(out: seq<byte>, m: Message)
    requires |out| + |Head(m)| <= 64
    ensures var c := out + Head(m);
      && FindLast(c, START) == |out| + LastStart(m) && FindLast(c, PERIOD) == |c| - 1
      && c[|out| + LastStart(m)..] == Head(m)[LastStart(m)..]
  {
    var h, k := Head(m), LastStart(m);
    var c := out + h;
    assert c[|out| + k + 1..] == h[k + 1..];
    FindLastUnique(c, START, |out| + k);
    FindLastUnique(c, PERIOD, |c| - 1);
  }

  lemma HeadOverflows(out: seq<byte>, m: Message)
    requires |out| <= 64 < |out| + |Head(m)| && |m.data| <= MAXDATALEN
    ensures ComputeChecksum(PushedAll(out, Head(m), 64), true) == Throw(ChecksumProblem)
  {
    hide Checksum;
    var h := Head(m);
    var c := PushedAll(out, h, 64);
    assert c[64 - |h|] == START && c[63] == PERIOD;
    FindLastUnique(c, PERIOD, 63);
    assert START in c;
    hide FindLast;
  }

  /**
   * Every way an encoding can end. A message of at most MAXDATALEN bytes that does not fit throws, after its head has
   * pushed out the front; one that fits is appended as a frame, unless a start marker is among the last three bytes.
   */
  lemma PutExact(out: seq<byte>, m: Message)
    requires |out| <= MAXMESSAGELEN
    ensures |m.data| > MAXDATALEN ==> Put(out, m) == (Threw(DataTooLong), out)
    ensures |m.data| <= MAXDATALEN && !Fits(out, m) ==>
      Put(out, m) == (Threw(ChecksumProblem), PushedAll(out, Head(m), MAXMESSAGELEN))
    ensures |m.data| <= MAXDATALEN && Fits(out, m) && LastStart(m) > |m.data| ==>
      Put(out, m) == (Threw(InvalidFramePeriod), out + Head(m))
    ensures |m.data| <= MAXDATALEN && Fits(out, m) && LastStart(m) <= |m.data| ==>
      Put(out, m) == (Done, out + FrameWith(m, Checksum(Head(m)[LastStart(m)..])))
  {
    assert |Head(m)| == |m.data| + 5;
    PutUnfold(out, m);
    hide *;
    if |m.data| <= MAXDATALEN {
      if |out| + |Head(m)| > 64 {
        HeadOverflows(out, m);
        OverflowFits(out, m);
      } else {
        HeadFits(out, m);
        HeadStatus(out, m);
        FrameBehind(out, m, Head(m)[LastStart(m)..]);
      }
    }
  }

  lemma PutUnfold(out: seq<byte>, m: Message)
    requires |out| <= MAXMESSAGELEN
    ensures var withHead := PushedAll(out, Head(m), MAXMESSAGELEN);
      var chk := ComputeChecksum(withHead, true);
      && MAXMESSAGELEN == 64 && MAXDATALEN == 54
      && (|m.data| > MAXDATALEN ==> Put(out, m) == (Threw(DataTooLong), out))
      && (|m.data| <= MAXDATALEN && chk.Throw? ==> Put(out, m) == (Threw(chk.error), withHead))
      && (|m.data| <= MAXDATALEN && chk.Ok? ==>
            Put(out, m) == (Done, PushedAll(withHead, chk.value + [END], MAXMESSAGELEN)))
  {
    hide ComputeChecksum, PushedAll, Head;
  }

  lemma OverflowFits(out: seq<byte>, m: Message)
    ensures Fits(out, m) <==> |out| + |m.data| + 10 <= 64
  {
  }

  /** The head is in the buffer without loss: its checksum is computed exactly if the frame fits and starts soon enough. */
  lemma HeadStatus(out: seq<byte>, m: Message)
    requires |out| + |Head(m)| <= 64
    requires FindLast(out + Head(m), START) == |out| + LastStart(m) && FindLast(out + Head(m), PERIOD) == |out + Head(m)| - 1
    requires (out + Head(m))[|out| + LastStart(m)..] == Head(m)[LastStart(m)..]
    ensures PushedAll(out, Head(m), MAXMESSAGELEN) == out + Head(m)
    ensures var r := ComputeChecksum(out + Head(m), true);
      && (!Fits(out, m) ==> r == Throw(ChecksumProblem))
      && (Fits(out, m) && LastStart(m) > |m.data| ==> r == Throw(InvalidFramePeriod))
      && (Fits(out, m) && LastStart(m) <= |m.data| ==> r == Ok(Checksum(Head(m)[LastStart(m)..])))
  {
    hide Checksum, FindLast, LastStart, Head;
    SliceToEnd(out + Head(m), |out| + LastStart(m));
  }

  lemma FrameBehind(out: seq<byte>, m: Message, head: seq<byte>)
    ensures Fits(out, m) ==>
      PushedAll(out + Head(m), Checksum(head) + [END], 64) == out + FrameWith(m, Checksum(head))
  {
    hide Checksum, Head;
    var x := Checksum(head);
    Associates(out, Head(m), x + [END]);
    Associates(Head(m), x, [END]);
  }

  lemma SendableStart(m: Message)
    requires Sendable(m)
    ensures LastStart(m) == 0
  {
    var h := Head(m);
    assert h[1..] == [m.ascVersion, m.appVersion, m.command] + m.data + [PERIOD];
    FindLastUnique(h, START, 0);
  }

  /** A sendable message that fits is appended as its frame. */
  lemma PutAppendsFrame(out: seq<byte>, m: Message)
    requires Sendable(m) && Fits(out, m)
    ensures Put(out, m) == (Done, out + Frame(m))
  {
    PutExact(out, m);
    SendableStart(m);
    assert Head(m)[0..] == Head(m);
    hide LastStart, Head, Put;
  }

  /** Encoding into a drained output buffer and decoding from an input buffer is the identity. */
  lemma EncodeDecode(m: Message)
    requires Sendable(m)
    ensures Put([], m).0 == Done && Receive(Put([], m).1) == Receipt(Delivered(m), [])
  {
    hide Put, Receive, Frame;
    PutAppendsFrame([], m);
    RoundTrip(m, []);
    assert Frame(m) + [] == Frame(m) && [] + Frame(m) == Frame(m);
  }

  /** Encoding a delivered message reproduces the bytes that were consumed. */
  lemma DecodeEncode(c: seq<byte>, m: Message)
    requires Receive(c).outcome == Delivered(m)
    ensures Put([], m).0 == Done && Clean(c, START, END) == Put([], m).1 + Receive(c).rest
  {
    hide Put, Receive, Frame, Clean;
    DeliveredIsFrame(c, m);
    PutAppendsFrame([], m);
    assert [] + Frame(m) == Frame(m);
  }

  // ---- Where the output buffer's front is ----

  /** The front of the output buffer after put_message. */
  function FrontAfterPut(front: nat, size: nat, m: Message): nat {
    if |m.data| > MAXDATALEN then front else FrontAfter(front, size, |m.data| + 5, MAXMESSAGELEN)
  }

  /**
   * Does the checksummed part of m's frame start within reach of get_blocks, if the message fits and its checksum is
   * computed?
   */
  predicate WithinReach(front: nat, size: nat, m: Message) {
    |m.data| <= MAXDATALEN && size + |m.data| + 10 <= MAXMESSAGELEN && LastStart(m) <= |m.data| ==>
      front + size + LastStart(m) <= MAXMESSAGELEN
  }

  /** A sendable message is out of reach exactly when it fits while the buffer reaches beyond the end of its array. */
  lemma SendableWithin(front: nat, size: nat, m: Message)
    requires Sendable(m)
    ensures WithinReach(front, size, m)
      <==> (size + |m.data| + 10 <= MAXMESSAGELEN ==> front + size <= MAXMESSAGELEN)
  {
    SendableStart(m);
    hide LastStart;
  }

  // ---- Error replies ----

  const ERROR_COMMAND: byte := 0x65  // 'e'
  const COMMA: byte := 0x2C          // ','
  const ERROR_COPY_LEN: nat := 9

  function Truncated(data: seq<byte>): seq<byte> {
    if |data| <= ERROR_COPY_LEN then data else data[..ERROR_COPY_LEN]
  }

  /** The reply that put_error encodes. */
  function ErrorReply(m: Message, error: Error): Message {
    Message(m.ascVersion, m.appVersion, ERROR_COMMAND,
            HexOf8(error.Code(), true) + [COMMA, m.command, COMMA] + Truncated(m.data))
  }

  /** The reply to any message that can be delivered is itself a sendable message, with at most 14 data bytes. */
  lemma ErrorReplySendable(m: Message, error: Error)
    requires Sendable(m)
    ensures Sendable(ErrorReply(m, error)) && |ErrorReply(m, error).data| <= 14
  {
    var x := HexOf8(error.Code(), true);
    HexOf8AllHex(error.Code(), true);
    HexIsPlain(x);
    assert Plain(ERROR_COMMAND) && Plain(COMMA);
    hide HexOf8, Plain;
    var d := ErrorReply(m, error).data;
    forall i | 0 <= i < |d| ensures Plain(d[i]) {
      if i < 2 { assert d[i] == x[i]; }
      else if i < 5 { assert d[i] == [COMMA, m.command, COMMA][i - 2]; }
      else { assert d[i] == m.data[i - 5]; }
    }
  }

  lemma ErrorReplyFields(m: Message, error: Error)
    ensures var d := ErrorReply(m, error).data;
      && |d| == 5 + |Truncated(m.data)| && d[..2] == HexOf8(error.Code(), true)
      && d[2] == d[4] == COMMA && d[3] == m.command && d[5..] == Truncated(m.data)
    ensures ErrorReply(m, error).ascVersion == m.ascVersion && ErrorReply(m, error).appVersion == m.appVersion
  {
    hide HexOf8, Truncated;
  }

  /** Every error reply in bytes: 'e', the code's two digits, the offending command and its first nine data bytes. */
  lemma ErrorReplyBytes(m: Message, error: Error)
    ensures var copied := if |m.data| <= 9 then m.data else m.data[..9];
      var digits: seq<byte> :=
        match error
        case DataTooLong => [0x31, 0x30]
        case ChecksumProblem => [0x31, 0x31]
        case InvalidFrame => [0x31, 0x32]
        case InvalidFramePeriod => [0x31, 0x33]
        case NotHexChar => [0x31, 0x34]
        case CommandNotImplemented => [0x31, 0x35]
        case UnexpectedCommand => [0x31, 0x36]
        case DataTooShort => [0x31, 0x37]
        case RegBlockNull => [0x32, 0x30]
        case RegnumOob => [0x32, 0x31]
        case RegvalLen => [0x32, 0x32]
        case CbOob => [0x33, 0x30]
        case CbPopEmpty => [0x33, 0x31]
        case CbBadCapacity => [0x33, 0x32];
      ErrorReply(m, error)
        == Message(m.ascVersion, m.appVersion, 0x65, digits + [0x2C, m.command, 0x2C] + copied)
  {
  }

  /** What the host reads in an error reply: the code, the offending command and the start of its data. */
  lemma ErrorReplyReadBack(m: Message, error: Error)
    requires Sendable(m)
    ensures var out := Put([], ErrorReply(m, error));
      && out.0 == Done
      && Receive(out.1).outcome.Delivered?
      && var reply := Receive(out.1).outcome.m;
         && reply.ascVersion == m.ascVersion && reply.appVersion == m.appVersion
         && reply.command == 0x65 && |reply.data| == 5 + (if |m.data| <= 9 then |m.data| else 9)
         && Parse8(reply.data[..2]) == Ok(error.Code())
         && reply.data[2] == reply.data[4] == 0x2C && reply.data[3] == m.command
         && reply.data[5..] == if |m.data| <= 9 then m.data else m.data[..9]
  {
    assert ErrorReply(m, error).command == ERROR_COMMAND == 0x65 && COMMA == 0x2C;
    assert Truncated(m.data) == if |m.data| <= 9 then m.data else m.data[..9];
    hide *;
    ErrorReplyFields(m, error);
    ErrorReplySendable(m, error);
    EncodeDecode(ErrorReply(m, error));
    HexOf8Parses(error.Code(), true);
  }

  // ---- Streaming messages ----

  const STREAM_COMMAND: byte := 0x73  // 's'
  const MAXSPAYLOADLEN: nat := MAXDATALEN - 3

  /** The message that put_s_message encodes: the data behind a frame counter. */
  function StreamMessage(ascVersion: byte, appVersion: byte, counter: byte, data: seq<byte>): Message {
    Message(ascVersion, appVersion, STREAM_COMMAND, HexOf8(counter, true) + [COMMA] + data)
  }

  /** What the host reads in a streaming frame: the counter and the data. */
  lemma StreamReadBack(ascVersion: byte, appVersion: byte, counter: byte, data: seq<byte>)
    requires |data| <= 51 && Plain(ascVersion) && Plain(appVersion) && AllPlain(data)
    ensures var m := StreamMessage(ascVersion, appVersion, counter, data);
      && Sendable(m) && Put([], m).0 == Done && Receive(Put([], m).1) == Receipt(Delivered(m), [])
      && m.ascVersion == ascVersion && m.appVersion == appVersion && m.command == 0x73
      && |m.data| == 3 + |data| && Parse8(m.data[..2]) == Ok(counter) && m.data[2] == 0x2C && m.data[3..] == data
  {
    var m := StreamMessage(ascVersion, appVersion, counter, data);
    assert MAXSPAYLOADLEN == 51 && STREAM_COMMAND == 0x73 && COMMA == 0x2C;
    StreamFields(ascVersion, appVersion, counter, data);
    StreamSendable(ascVersion, appVersion, counter, data);
    hide *;
    HexOf8Parses(counter, true);
    EncodeDecode(m);
  }

  lemma StreamFields(ascVersion: byte, appVersion: byte, counter: byte, data: seq<byte>)
    ensures var d := StreamMessage(ascVersion, appVersion, counter, data).data;
      |d| == 3 + |data| && d[..2] == HexOf8(counter, true) && d[2] == COMMA && d[3..] == data
    ensures var m := StreamMessage(ascVersion, appVersion, counter, data);
      m.ascVersion == ascVersion && m.appVersion == appVersion && m.command == STREAM_COMMAND
  {
    hide HexOf8;
  }

  lemma StreamSendable(ascVersion: byte, appVersion: byte, counter: byte, data: seq<byte>)
    requires |data| <= MAXSPAYLOADLEN && Plain(ascVersion) && Plain(appVersion) && AllPlain(data)
    ensures Sendable(StreamMessage(ascVersion, appVersion, counter, data))
  {
    var x := HexOf8(counter, true);
    HexOf8AllHex(counter, true);
    HexIsPlain(x);
    assert Plain(COMMA) && Plain(STREAM_COMMAND);
    hide HexOf8, Plain;
    var d := StreamMessage(ascVersion, appVersion, counter, data).data;
    forall i | 0 <= i < |d| ensures Plain(d[i]) {
      if i < 2 { assert d[i] == x[i]; }
      else if i > 2 { assert d[i] == data[i - 3]; }
    }
  }

  // ---- Corruption ----

  lemma ChecksumInjective(x: seq<byte>, y: seq<byte>)
    requires Checksum(x) == Checksum(y)
    ensures Crc16(x) == Crc16(y)
  {
    hide HexOf16, Crc16;
    HexOf16Parses(Crc16(x), true);
    HexOf16Parses(Crc16(y), true);
  }

  /**
   * A frame whose bytes between start and period were changed within sixteen consecutive bits, with no marker
   * created, is never delivered: it is consumed and rejected.
   */
  lemma BurstRejected(m: Message, corrupted: Message, k: nat, tail: seq<byte>)
    requires Sendable(m) && Sendable(corrupted) && corrupted != m && BurstAt(Head(m), Head(corrupted), k)
    ensures Receive(FrameWith(corrupted, Checksum(Head(m))) + tail) == Receipt(Mismatch(corrupted), tail)
  {
    hide Checksum, Receive, BurstAt, Sendable;
    if Head(m) == Head(corrupted) {
      HeadInjective(m, corrupted);
    }
    BurstChangesChecksum(Head(m), Head(corrupted), k);
    if Checksum(Head(m)) == Checksum(Head(corrupted)) {
      ChecksumInjective(Head(m), Head(corrupted));
    }
    ChecksumPlain(Head(m));
    ReceiveFrame(corrupted, Checksum(Head(m)), tail);
  }

  lemma HeadInjective(m: Message, n: Message)
    requires Head(m) == Head(n)
    ensures m == n
  {
    var h := Head(m);
    assert h[1] == m.ascVersion == n.ascVersion && h[2] == m.appVersion == n.appVersion;
    assert h[3] == m.command == n.command;
    assert h[4..|h| - 1] == m.data && Head(n)[4..|h| - 1] == n.data;
  }
}
