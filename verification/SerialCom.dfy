// The interface object (ascii_serial_com.c): two rings in one array, a checksum, an encoder and a decoder.

module SerialCom {
  import opened AscException
  import opened Mask
  import opened Sequences
  import opened Resync
  import opened CircularBuffers
  import opened Crc
  import opened CrcImplementations
  import opened Hex
  import opened Frames
  import opened Encoding

  // ---- The variables that receive a message ----

  datatype SlotValue = SlotValue(ascVersion: byte, appVersion: byte, command: byte, data: seq<byte>, dataLen: nat)

  /** The message in the variables, as a handler is given it. */
  function SlotMessage(s: SlotValue): Message
    requires s.dataLen <= |s.data|
  {
    Message(s.ascVersion, s.appVersion, s.command, s.data[..s.dataLen])
  }

  function Overwrite(d: seq<byte>, x: seq<byte>): (r: seq<byte>)
    requires |x| <= |d|
    ensures |r| == |d|
  {
    x + d[|x|..]
  }

  /** What a call that ends with o stores. */
  function Store(s: SlotValue, o: Outcome): SlotValue
    requires MAXDATALEN <= |s.data|
    requires DataBounded(o)
  {
    match o
    case NoMessage => s.(command := 0, dataLen := 0)
    case Mismatch(m) => SlotValue(m.ascVersion, m.appVersion, 0, Overwrite(s.data, m.data), 0)
    case Delivered(m) => SlotValue(m.ascVersion, m.appVersion, m.command, Overwrite(s.data, m.data), |m.data|)
    case Thrown(_) => s
    case ThrownAfter(_, m) => SlotValue(m.ascVersion, m.appVersion, m.command, Overwrite(s.data, m.data), |m.data|)
  }

  function StatusOf(o: Outcome): Status {
    if o.Thrown? || o.ThrownAfter? then Threw(o.error) else Done
  }

  class MessageSlot {
    var ascVersion: byte
    var appVersion: byte
    var command: byte
    const data: array<byte>
    var dataLen: nat

    constructor ()
      ensures data.Length == MAXDATALEN && fresh(data) && command == 0 && dataLen == 0
    {
      ascVersion, appVersion, command, dataLen := 0, 0, 0, 0;
      data := new byte[MAXDATALEN];
    }

    ghost function Value(): SlotValue
      reads this, data
    {
      SlotValue(ascVersion, appVersion, command, data[..], dataLen)
    }
  }

  class AsciiSerialCom {
    const inBuf: CircularBuffer
    const outBuf: CircularBuffer
    const rawBuffer: array<byte>
    var sendStreamFrameCounter: byte
    var ignoreCrcMismatch: bool

    ghost predicate Valid()
      reads this, inBuf, outBuf
    {
      && inBuf != outBuf
      && rawBuffer.Length == 2 * MAXMESSAGELEN
      && inBuf.buffer == rawBuffer && inBuf.base == 0 && inBuf.capacity == MAXMESSAGELEN && inBuf.Valid()
      && outBuf.buffer == rawBuffer && outBuf.base == MAXMESSAGELEN && outBuf.capacity == MAXMESSAGELEN && outBuf.Valid()
    }

    constructor ()
      ensures Valid() && fresh(inBuf) && fresh(outBuf) && fresh(rawBuffer)
      ensures inBuf.Contents() == [] && outBuf.Contents() == [] && outBuf.iStart == 0
      ensures sendStreamFrameCounter == 0 && !ignoreCrcMismatch
    {
      SixtyFour();
      var raw := new byte[2 * MAXMESSAGELEN];
      var input := CircularBuffer.Init(MAXMESSAGELEN, raw, 0);
      var output := CircularBuffer.Init(MAXMESSAGELEN, raw, MAXMESSAGELEN);
      rawBuffer := raw;
      inBuf := input.value;
      outBuf := output.value;
      sendStreamFrameCounter := 0;
      ignoreCrcMismatch := false;
    }

    /** The ring that holds a buffer's bytes lets get_blocks reach them when its checksummed frame starts in reach. */
    ghost predicate BlocksReach(outputBuffer: bool)
      requires Valid()
      reads this, inBuf, outBuf, rawBuffer
    {
      var ring := if outputBuffer then outBuf else inBuf;
      ComputeChecksum(ring.Contents(), outputBuffer).Ok? ==>
        ring.iStart + (if outputBuffer then FindLast(ring.Contents(), START) else FindFirst(ring.Contents(), START))
          <= MAXMESSAGELEN
    }

    method WriteChecksum(checksumOut: array<byte>, outputBuffer: bool) returns (status: Status)
      requires Valid() && checksumOut.Length == NCHARCHECKSUM && checksumOut != rawBuffer
      requires BlocksReach(outputBuffer)
      modifies checksumOut
      ensures var r := ComputeChecksum(old((if outputBuffer then outBuf else inBuf).Contents()), outputBuffer);
        && (r.Throw? ==> status == Threw(r.error))
        && (r.Ok? ==> status == Done && checksumOut[..] == r.value)
    {
      hide FindFirst, FindLast, ComputeChecksum, MarkerStatus, CircularBuffer.Contents;
      var circBuf := inBuf;
      if outputBuffer {
        circBuf := outBuf;
      }
      ghost var c := circBuf.Contents();
      var iStart, iStop := FindMarkers(circBuf, outputBuffer);
      ChecksumCases(c, outputBuffer, iStart, iStop);
      status := ChecksumBetween(circBuf, iStart, iStop, checksumOut, c, ComputeChecksum(c, outputBuffer));
    }

    method FindMarkers(circBuf: CircularBuffer, outputBuffer: bool) returns (iStart: nat, iStop: nat)
      requires circBuf.Valid()
      ensures var c := circBuf.Contents();
        && iStart == (if outputBuffer then FindLast(c, START) else FindFirst(c, START))
        && iStop == (if outputBuffer then FindLast(c, PERIOD) else FindFirst(c, PERIOD))
    {
      hide *;
      iStart := circBuf.FindLastElement(START);
      iStop := circBuf.FindLastElement(PERIOD);
      if !outputBuffer {
        iStart := circBuf.FindFirstElement(START);
        iStop := circBuf.FindFirstElement(PERIOD);
      }
    }

    method ChecksumBetween(circBuf: CircularBuffer, iStart: nat, iStop: nat, checksumOut: array<byte>,
                           ghost c: seq<byte>, ghost spec: Result<seq<byte>>)
        returns (status: Status)
      requires Valid() && (circBuf == inBuf || circBuf == outBuf) && c == circBuf.Contents()
      requires checksumOut.Length == NCHARCHECKSUM
      requires MarkerStatus(|c|, iStart, iStop).Threw? ==> spec == Throw(MarkerStatus(|c|, iStart, iStop).error)
      requires MarkerStatus(|c|, iStart, iStop).Done? ==> iStart < iStop < |c|
      requires MarkerStatus(|c|, iStart, iStop).Done? ==> spec == Ok(HexOf16(Crc16(c[iStart..iStop + 1]), true))
      requires spec.Ok? ==> circBuf.iStart + iStart <= MAXMESSAGELEN
      modifies checksumOut
      ensures spec.Throw? ==> status == Threw(spec.error)
      ensures spec.Ok? ==> status == Done && checksumOut[..] == spec.value
    {
      assert NCHARCHECKSUM == 4;
      hide *;
      status := CheckMarkers(circBuf.size, iStart, iStop);
      if status.Done? {
        var crc := CrcOfSlice(circBuf, iStart, iStop - iStart + 1);
        assert iStart + (iStop - iStart + 1) == iStop + 1;
        WriteHex(crc, checksumOut);
      }
    }

    method CheckMarkers(size: nat, iStart: nat, iStop: nat) returns (status: Status)
      ensures status == MarkerStatus(size, iStart, iStop)
      ensures status.Done? ==> iStart < iStop < size
    {
      if iStart >= size {
        return Threw(InvalidFrame);
      }
      if iStop >= size {
        return Threw(InvalidFramePeriod);
      }
      if iStop >= MAXMESSAGELEN - NCHARCHECKSUM - 1 {
        return Threw(ChecksumProblem);
      }
      if iStop <= iStart || iStop - iStart < 4 {
        return Threw(InvalidFramePeriod);
      }
      return Done;
    }

    method WriteHex(crc: word, checksumOut: array<byte>)
      requires checksumOut.Length == 4
      modifies checksumOut
      ensures checksumOut[..] == HexOf16(crc, true)
    {
      hide HexOf16;
      ConvertUint16ToHex(crc, checksumOut, 0, true);
      assert checksumOut[..] == checksumOut[0..4];
    }

    /** The blocks of a slice of a ring, one after the other, through the table-driven CRC. */
    method CrcOfSlice(ring: CircularBuffer, first: nat, nElem: nat) returns (crc: word)
      requires Valid() && (ring == inBuf || ring == outBuf)
      requires first + nElem <= ring.size && ring.iStart + first <= MAXMESSAGELEN
      ensures crc == Crc16(ring.Contents()[first..first + nElem])
    {
      SixtyFour();
      hide Crc16;
      var blocks := ring.GetBlocks(first, nElem);
      crc := CrcOfBlocks(blocks.value);
    }

    method CrcOfBlocks(b: Blocks) returns (crc: word)
      requires 1 <= b.count <= 2 && (b.count == 1 ==> b.size1 == 0)
      requires b.offset0 + b.size0 <= rawBuffer.Length && b.offset1 + b.size1 <= rawBuffer.Length
      ensures crc == Crc16(rawBuffer[b.offset0..b.offset0 + b.size0] + rawBuffer[b.offset1..b.offset1 + b.size1])
    {
      hide *;
      crc := 0;
      ghost var x, y := rawBuffer[b.offset0..b.offset0 + b.size0], rawBuffer[b.offset1..b.offset1 + b.size1];
      for iBlock := 0 to b.count
        invariant iBlock == 0 ==> crc == 0
        invariant iBlock == 1 ==> crc == Run(ReflectedBit, 0, x)
        invariant iBlock == 2 ==> crc == Run(ReflectedBit, 0, x + y)
      {
        if iBlock == 0 {
          crc := Tbl4bitUpdate(crc, rawBuffer, b.offset0, b.size0);
        } else {
          RunAppend(ReflectedBit, 0, x, y);
          crc := Tbl4bitUpdate(crc, rawBuffer, b.offset1, b.size1);
        }
      }
      assert b.count == 1 ==> x + y == x;
      CrcValue(x + y);
      crc := Xor(crc, 0xffff);
    }

    // ---- Encoding ----

    /** May m be encoded without get_blocks going astray? */
    ghost predicate Reaches(m: Message)
      requires Valid()
      reads this, inBuf, outBuf
    {
      WithinReach(outBuf.iStart, outBuf.size, m)
    }

    /** put_message_in_output_buffer. */
    method PutMessage(ascVersion: byte, appVersion: byte, command: byte, data: array<byte>, dataLen: nat)
        returns (status: Status)
      requires Valid() && dataLen <= data.Length && data != rawBuffer
      requires Reaches(Message(ascVersion, appVersion, command, data[..dataLen]))
      modifies outBuf, rawBuffer
      ensures Valid() && rawBuffer[..MAXMESSAGELEN] == old(rawBuffer[..MAXMESSAGELEN])
      ensures inBuf.Contents() == old(inBuf.Contents())
      ensures (status, outBuf.Contents())
        == Put(old(outBuf.Contents()), Message(ascVersion, appVersion, command, old(data[..dataLen])))
      ensures outBuf.iStart == FrontAfterPut(old(outBuf.iStart), old(outBuf.size),
                Message(ascVersion, appVersion, command, old(data[..dataLen])))
    {
      ghost var m := Message(ascVersion, appVersion, command, data[..dataLen]);
      ghost var out, raw, front := outBuf.Contents(), rawBuffer[..], outBuf.iStart;
      if dataLen > MAXDATALEN {
        return Threw(DataTooLong);
      }
      assert WithinReach(front, |out|, m);
      hide CircularBuffer.Contents, ComputeChecksum, Put, PushedAll, Head, LastStart, FindLast, FindFirst, IsPow2;
      hide FrontAfter, WithinReach;
      PushHead(outBuf, ascVersion, appVersion, command, data, dataLen);
      HeadReaches(front, out, m);
      PutCases(out, m, outBuf.Contents());
      var checksum := new byte[NCHARCHECKSUM];
      status := WriteChecksum(checksum, true);
      if status.Done? {
        PushTail(outBuf, checksum);
      }
      InputSame(raw, rawBuffer[..]);
    }

    /** put_error_in_output_buffer. */
    method PutError(ascVersion: byte, appVersion: byte, command: byte, data: array<byte>, dataLen: nat, error: Error)
        returns (status: Status)
      requires Valid() && dataLen <= data.Length && data != rawBuffer
      requires Reaches(ErrorReply(Message(ascVersion, appVersion, command, data[..dataLen]), error))
      modifies outBuf, rawBuffer
      ensures Valid() && rawBuffer[..MAXMESSAGELEN] == old(rawBuffer[..MAXMESSAGELEN])
      ensures inBuf.Contents() == old(inBuf.Contents())
      ensures (status, outBuf.Contents()) == Put(old(outBuf.Contents()),
                ErrorReply(Message(ascVersion, appVersion, command, old(data[..dataLen])), error))
      ensures outBuf.iStart == FrontAfterPut(old(outBuf.iStart), old(outBuf.size),
                ErrorReply(Message(ascVersion, appVersion, command, old(data[..dataLen])), error))
    {
      hide *;
      var outData, outDataLen := ErrorText(command, data, dataLen, error);
      ErrorReplyIs(Message(ascVersion, appVersion, command, data[..dataLen]), error);
      status := PutMessage(ascVersion, appVersion, ERROR_COMMAND, outData, outDataLen);
    }

    /** put_s_message_in_output_buffer: the data behind a counter that wraps at 256. */
    method PutSMessage(ascVersion: byte, appVersion: byte, data: array<byte>, dataLen: nat) returns (status: Status)
      requires Valid() && dataLen <= data.Length && data != rawBuffer
      requires Reaches(StreamMessage(ascVersion, appVersion, sendStreamFrameCounter, data[..dataLen]))
      modifies this`sendStreamFrameCounter, outBuf, rawBuffer
      ensures Valid() && rawBuffer[..MAXMESSAGELEN] == old(rawBuffer[..MAXMESSAGELEN])
      ensures inBuf.Contents() == old(inBuf.Contents())
      ensures dataLen > 51 ==>
        && status == Threw(DataTooLong) && outBuf.Contents() == old(outBuf.Contents())
        && sendStreamFrameCounter == old(sendStreamFrameCounter)
      ensures dataLen <= 51 ==>
        && sendStreamFrameCounter == old(sendStreamFrameCounter) + 1
        && (status, outBuf.Contents()) == Put(old(outBuf.Contents()),
             StreamMessage(ascVersion, appVersion, old(sendStreamFrameCounter), old(data[..dataLen])))
        && outBuf.iStart == FrontAfterPut(old(outBuf.iStart), old(outBuf.size),
             StreamMessage(ascVersion, appVersion, old(sendStreamFrameCounter), old(data[..dataLen])))
      ensures dataLen > 51 ==> outBuf.iStart == old(outBuf.iStart)
    {
      assert MAXSPAYLOADLEN == 51;
      if dataLen > MAXSPAYLOADLEN {
        return Threw(DataTooLong);
      }
      hide *;
      var outData := StreamText(sendStreamFrameCounter, data, dataLen);
      StreamMessageIs(ascVersion, appVersion, sendStreamFrameCounter, data[..dataLen]);
      sendStreamFrameCounter := sendStreamFrameCounter + 1;
      status := PutMessage(ascVersion, appVersion, STREAM_COMMAND, outData, dataLen + 3);
    }

    // ---- Decoding ----

    /**
     * get_message_from_input_buffer, with the checksum honoured. The slot, the input buffer and the result are those
     * of Receive; the array, and so the output buffer, is not touched.
     */
    method GetMessage(slot: MessageSlot) returns (status: Status)
      requires Valid() && !ignoreCrcMismatch
      requires MAXDATALEN <= slot.data.Length && slot.data != rawBuffer
      modifies inBuf, slot, slot.data
      ensures Valid()
      ensures var r := Receive(old(inBuf.Contents()));
        && inBuf.Contents() == r.rest
        && status == StatusOf(r.outcome)
        && slot.Value() == Store(old(slot.Value()), BoundedOutcome(old(inBuf.Contents())))
      ensures match Receive(old(inBuf.Contents())).outcome
        case Delivered(m) =>
          && status == Done && slot.ascVersion == m.ascVersion && slot.appVersion == m.appVersion
          && slot.command == m.command && slot.dataLen == |m.data| <= slot.data.Length
          && slot.data[..slot.dataLen] == m.data && slot.data[slot.dataLen..] == old(slot.data[..])[slot.dataLen..]
        case NoMessage => status == Done && slot.command == 0 && slot.dataLen == 0 && slot.data[..] == old(slot.data[..])
        case Mismatch(_) => status == Done && slot.command == 0 && slot.dataLen == 0
        case Thrown(e) => status == Threw(e) && slot.Value() == old(slot.Value())
        case ThrownAfter(e, m) =>
          && status == Threw(e) && slot.command == m.command && slot.dataLen == |m.data| <= slot.data.Length
          && slot.data[..slot.dataLen] == m.data
      ensures outBuf.Contents() == old(outBuf.Contents())
    {
      ghost var c, s := inBuf.Contents(), slot.Value();
      StoredFields(s, c);
      if inBuf.size == 0 {
        ClearSlot(slot);
        NothingBuffered(c);
        return Done;
      }
      var _ := inBuf.RemoveFrontUnfinishedFrames(START, END);
      CleanShape(c, START, END);
      status := GetResynchronised(slot);
      assert Receive(c) == ReceiveClean(Clean(c, START, END));
    }

    /** get_message once the buffer starts with a frame, or is empty. */
    method GetResynchronised(slot: MessageSlot) returns (status: Status)
      requires Valid() && !ignoreCrcMismatch && AtFrame(inBuf.Contents(), START, END)
      requires MAXDATALEN <= slot.data.Length && slot.data != rawBuffer
      modifies inBuf, slot, slot.data
      ensures inBuf.Valid()
      ensures GotFrom(old(inBuf.Contents()), old(slot.Value()), inBuf.Contents(), slot.Value(), status)
    {
      assert inBuf.Valid();
      assert MAXDATALEN <= |slot.Value().data|;
      ghost var r, s := inBuf.Contents(), slot.Value();
      hide *;
      var iEnd := inBuf.FindFirstElement(END);
      if iEnd >= inBuf.size {
        GotNothing(r, s);
        ClearSlot(slot);
        return Done;
      }
      var iPeriod := inBuf.FindFirstElement(PERIOD);
      if iPeriod > iEnd {
        GotNoPeriod(r, s);
        inBuf.PopMany(iEnd + 1);
        return Threw(InvalidFramePeriod);
      }
      status := GetFrame(slot, iPeriod);
    }

    /** The checksum of the first frame, and its removal. */
    method GetFrame(slot: MessageSlot, iPeriod: nat) returns (status: Status)
      requires Valid() && !ignoreCrcMismatch && AtFrame(inBuf.Contents(), START, END)
      requires iPeriod == FindFirst(inBuf.Contents(), PERIOD) <= FindFirst(inBuf.Contents(), END) < inBuf.size
      requires MAXDATALEN <= slot.data.Length && slot.data != rawBuffer
      modifies inBuf, slot, slot.data
      ensures inBuf.Valid()
      ensures GotFrom(old(inBuf.Contents()), old(slot.Value()), inBuf.Contents(), slot.Value(), status)
    {
      ghost var r, s := inBuf.Contents(), slot.Value();
      ReceiveCases(r);
      GotThrow(r, s);
      assert BlocksReach(false) by { hide CircularBuffer.Contents, ComputeChecksum, FindFirst; }
      assert inBuf.Valid();
      hide *;
      var computeChecksum := new byte[NCHARCHECKSUM];
      status := Done;
      if !ignoreCrcMismatch {
        status := WriteChecksum(computeChecksum, false);
      }
      if status.Done? {
        status := PopFrame(inBuf, slot, iPeriod, computeChecksum);
        GotBody(r, s, inBuf.Contents(), slot.Value(), status);
      }
    }
  }

  /** A ring before bytes are pushed onto it: its contents, its front and the rest of its array. */
  datatype Origin = Origin(contents: seq<byte>, front: nat, around: (seq<byte>, seq<byte>))

  ghost function OriginOf(ring: CircularBuffer): Origin
    requires ring.Valid()
    reads ring, ring.buffer
  {
    Origin(ring.Contents(), ring.iStart, ring.Outside())
  }

  /** The ring was as `o` says before the first n bytes of h were pushed. */
  ghost predicate Pushed(ring: CircularBuffer, o: Origin, h: seq<byte>, n: nat)
    reads ring, ring.buffer
  {
    && ring.Valid() && |o.contents| <= ring.capacity && o.front < ring.capacity && n <= |h|
    && ring.Contents() == PushedAll(o.contents, h[..n], ring.capacity)
    && ring.iStart == FrontAfter(o.front, |o.contents|, n, ring.capacity)
    && ring.Outside() == o.around
  }

  lemma NonePushed(ring: CircularBuffer, h: seq<byte>)
    requires ring.Valid()
    ensures Pushed(ring, OriginOf(ring), h, 0)
  {
    hide PushedAll, CircularBuffer.Contents;
    PushedAllNone(ring.Contents(), h, ring.capacity);
  }

  lemma AllPushed(ring: CircularBuffer, o: Origin, h: seq<byte>)
    requires Pushed(ring, o, h, |h|)
    ensures 0 < ring.capacity && |o.contents| <= ring.capacity && ring.Valid() && ring.Outside() == o.around
    ensures ring.Contents() == PushedAll(o.contents, h, ring.capacity)
    ensures ring.iStart == FrontAfter(o.front, |o.contents|, |h|, ring.capacity)
  {
    assert h[..|h|] == h;
  }

  /** Pushes byte i of h. */
  method PushNext(ring: CircularBuffer, b: byte, ghost o: Origin, ghost h: seq<byte>, ghost i: nat)
    requires Pushed(ring, o, h, i) && i < |h| && b == h[i]
    modifies ring, ring.buffer
    ensures Pushed(ring, o, h, i + 1)
  {
    hide PushedAll, FrontAfter, CircularBuffer.Contents, CircularBuffer.Outside, IsPow2;
    PushedAllNext(o.contents, h, i, ring.capacity);
    PushedAllSize(o.contents, h[..i], ring.capacity);
    FrontNext(o.front, |o.contents|, i, ring.capacity);
    ring.PushBack(b);
  }

  /** Pushes the head of a message. */
  method PushHead(outBuf: CircularBuffer, ascVersion: byte, appVersion: byte, command: byte,
                  data: array<byte>, dataLen: nat)
    requires outBuf.Valid() && dataLen <= data.Length && data != outBuf.buffer
    modifies outBuf, outBuf.buffer
    ensures outBuf.Valid() && outBuf.Outside() == old(outBuf.Outside())
    ensures outBuf.Contents() == PushedAll(old(outBuf.Contents()),
              Head(Message(ascVersion, appVersion, command, old(data[..dataLen]))), outBuf.capacity)
    ensures outBuf.iStart == FrontAfter(old(outBuf.iStart), old(outBuf.size), dataLen + 5, outBuf.capacity)
  {
    ghost var m := Message(ascVersion, appVersion, command, data[..dataLen]);
    ghost var h, o := Head(m), OriginOf(outBuf);
    HeadBytes(m);
    NonePushed(outBuf, h);
    assert o == Origin(outBuf.Contents(), outBuf.iStart, outBuf.Outside());
    hide *;
    PushHeader(outBuf, ascVersion, appVersion, command, o, h);
    PushData(outBuf, data, dataLen, o, h);
    PushNext(outBuf, PERIOD, o, h, dataLen + 4);
    AllPushed(outBuf, o, h);
  }

  /** Pushes the start marker, the versions and the command: the first four bytes of the head h. */
  method PushHeader(ring: CircularBuffer, ascVersion: byte, appVersion: byte, command: byte,
                    ghost o: Origin, ghost h: seq<byte>)
    requires Pushed(ring, o, h, 0) && 4 < |h|
    requires h[0] == START && h[1] == ascVersion && h[2] == appVersion && h[3] == command
    modifies ring, ring.buffer
    ensures Pushed(ring, o, h, 4)
  {
    hide *;
    PushNext(ring, START, o, h, 0);
    PushNext(ring, ascVersion, o, h, 1);
    PushNext(ring, appVersion, o, h, 2);
    PushNext(ring, command, o, h, 3);
  }

  /** The loop that pushes the data, the first four bytes of the head h having been pushed. */
  method PushData(ring: CircularBuffer, data: array<byte>, dataLen: nat, ghost o: Origin, ghost h: seq<byte>)
    requires dataLen <= data.Length && data != ring.buffer && 4 + dataLen < |h|
    requires h[4..4 + dataLen] == data[..dataLen] && Pushed(ring, o, h, 4)
    modifies ring, ring.buffer
    ensures Pushed(ring, o, h, 4 + dataLen)
  {
    ghost var x := data[..dataLen];
    hide *;
    for i := 0 to dataLen
      invariant Pushed(ring, o, h, 4 + i) && data[..dataLen] == x
    {
      assert h[4..4 + dataLen][i] == data[..dataLen][i];
      PushNext(ring, data[i], o, h, 4 + i);
    }
  }

  lemma HeadBytes(m: Message)
    ensures var h := Head(m);
      && |h| == |m.data| + 5 && h[0] == START && h[1] == m.ascVersion && h[2] == m.appVersion && h[3] == m.command
      && h[4..4 + |m.data|] == m.data && h[|m.data| + 4] == PERIOD
  {
  }

  /** Pushes the checksum field and the line end. */
  method PushTail(outBuf: CircularBuffer, checksum: array<byte>)
    requires outBuf.Valid() && checksum.Length == NCHARCHECKSUM && checksum != outBuf.buffer
    modifies outBuf, outBuf.buffer
    ensures outBuf.Valid() && outBuf.Outside() == old(outBuf.Outside())
    ensures outBuf.Contents() == PushedAll(old(outBuf.Contents()), old(checksum[..]) + [END], outBuf.capacity)
    ensures outBuf.iStart == FrontAfter(old(outBuf.iStart), old(outBuf.size), 5, outBuf.capacity)
  {
    ghost var o, x, chk := OriginOf(outBuf), checksum[..] + [END], checksum[..];
    assert |x| == 5 && NCHARCHECKSUM == 4;
    NonePushed(outBuf, x);
    assert o == Origin(outBuf.Contents(), outBuf.iStart, outBuf.Outside());
    hide *;
    for i := 0 to NCHARCHECKSUM
      invariant Pushed(outBuf, o, x, i) && checksum[..] == chk
    {
      PushNext(outBuf, checksum[i], o, x, i);
    }
    PushNext(outBuf, END, o, x, NCHARCHECKSUM);
    AllPushed(outBuf, o, x);
  }

  /** The text of an error reply: the code, the offending command and the start of its data. */
  method ErrorText(command: byte, data: array<byte>, dataLen: nat, error: Error)
      returns (outData: array<byte>, outDataLen: nat)
    requires dataLen <= data.Length
    ensures fresh(outData) && outDataLen <= outData.Length
    ensures outData[..outDataLen]
      == HexOf8(error.Code(), true) + [COMMA, command, COMMA] + Truncated(data[..dataLen])
  {
    hide HexOf8;
    outData := new byte[ERROR_COPY_LEN + 5];
    ConvertUint8ToHex(error.Code(), outData, 0, true);
    ghost var x := HexOf8(error.Code(), true);
    outData[2] := COMMA;
    outData[3] := command;
    outData[4] := COMMA;
    outDataLen := 5;
    assert outData[..5] == x + [COMMA, command, COMMA] by { assert outData[0..2] == x; }
    ghost var head := outData[..5];
    var i := 0;
    while i < dataLen && i < ERROR_COPY_LEN
      invariant i <= dataLen && i <= ERROR_COPY_LEN && outDataLen == 5 + i
      invariant outData[..5] == head && outData[5..5 + i] == data[..i]
    {
      outData[i + 5] := data[i];
      outDataLen := outDataLen + 1;
      i := i + 1;
    }
    assert data[..i] == Truncated(data[..dataLen]);
    assert outData[..outDataLen] == outData[..5] + outData[5..5 + i];
  }

  lemma ErrorReplyIs(m: Message, error: Error)
    ensures ErrorReply(m, error) == Message(m.ascVersion, m.appVersion, ERROR_COMMAND,
              HexOf8(error.Code(), true) + [COMMA, m.command, COMMA] + Truncated(m.data))
  {
    hide HexOf8, Truncated;
  }

  /** The text of a streaming message: the counter and the data. */
  method StreamText(counter: byte, data: array<byte>, dataLen: nat) returns (outData: array<byte>)
    requires dataLen <= data.Length && dataLen <= MAXSPAYLOADLEN
    ensures fresh(outData) && outData.Length == MAXDATALEN
    ensures outData[..dataLen + 3] == HexOf8(counter, true) + [COMMA] + data[..dataLen]
  {
    hide HexOf8;
    outData := new byte[MAXDATALEN];
    ConvertUint8ToHex(counter, outData, 0, true);
    ghost var x := HexOf8(counter, true);
    outData[2] := COMMA;
    assert outData[..3] == x + [COMMA] by { assert outData[0..2] == x; }
    ghost var head := outData[..3];
    var i := 0;
    while i < dataLen && i < MAXDATALEN - 3
      invariant i <= dataLen
      invariant outData[..3] == head && outData[3..3 + i] == data[..i]
    {
      outData[i + 3] := data[i];
      i := i + 1;
    }
    assert outData[..dataLen + 3] == outData[..3] + outData[3..3 + i];
  }

  lemma StreamMessageIs(ascVersion: byte, appVersion: byte, counter: byte, data: seq<byte>)
    ensures StreamMessage(ascVersion, appVersion, counter, data)
      == Message(ascVersion, appVersion, STREAM_COMMAND, HexOf8(counter, true) + [COMMA] + data)
  {
    hide HexOf8;
  }

  lemma PutCases(out: seq<byte>, m: Message, withHead: seq<byte>)
    requires |out| <= MAXMESSAGELEN && |m.data| <= MAXDATALEN && withHead == PushedAll(out, Head(m), MAXMESSAGELEN)
    ensures var r := ComputeChecksum(withHead, true);
      && (r.Throw? ==> Put(out, m) == (Threw(r.error), withHead))
      && (r.Ok? ==> Put(out, m) == (Done, PushedAll(withHead, r.value + [END], MAXMESSAGELEN)))
  {
    hide ComputeChecksum, PushedAll, Head;
  }

  lemma InputSame(a: seq<byte>, b: seq<byte>)
    requires |a| == |b| == 128 && a[..64] == b[..64]
    ensures a[0..64] == b[0..64]
  {
  }

  /**
   * If the checksum of a pushed head can be computed, the message fits, its own last start marker is found, and the
   * front of the buffer has not moved and will not move.
   */
  lemma HeadReaches(front: nat, out: seq<byte>, m: Message)
    requires |out| <= MAXMESSAGELEN && |m.data| <= MAXDATALEN && front < MAXMESSAGELEN && WithinReach(front, |out|, m)
    ensures var c := PushedAll(out, Head(m), MAXMESSAGELEN);
      var after := FrontAfter(front, |out|, |m.data| + 5, MAXMESSAGELEN);
      ComputeChecksum(c, true).Ok? ==>
        after + FindLast(c, START) <= MAXMESSAGELEN && FrontAfter(after, |c|, 5, MAXMESSAGELEN) == after
  {
    hide Checksum, FindLast, LastStart, Head;
    if |out| + |Head(m)| > 64 {
      HeadOverflows(out, m);
    } else {
      HeadFits(out, m);
    }
  }

  /** get_message on the resynchronised contents r and the slot s leaves the contents rest and the slot t. */
  ghost predicate GotFrom(r: seq<byte>, s: SlotValue, rest: seq<byte>, t: SlotValue, status: Status)
    requires AtFrame(r, START, END) && MAXDATALEN <= |s.data|
  {
    var o := ReceiveClean(r).outcome;
    rest == ReceiveClean(r).rest && status == StatusOf(o) && DataBounded(o) && t == Store(s, o)
  }

  lemma GotNothing(r: seq<byte>, s: SlotValue)
    requires AtFrame(r, START, END) && MAXDATALEN <= |s.data| && FindFirst(r, END) == |r|
    ensures GotFrom(r, s, r, s.(command := 0, dataLen := 0), Done)
  {
  }

  lemma GotNoPeriod(r: seq<byte>, s: SlotValue)
    requires AtFrame(r, START, END) && MAXDATALEN <= |s.data| && FindFirst(r, END) < |r|
    requires FindFirst(r, PERIOD) > FindFirst(r, END)
    ensures GotFrom(r, s, r[FindFirst(r, END) + 1..], s, Threw(InvalidFramePeriod))
  {
    hide FindFirst, AtFrame;
  }

  lemma GotThrow(r: seq<byte>, s: SlotValue)
    requires AtFrame(r, START, END) && MAXDATALEN <= |s.data|
    ensures var chk := ComputeChecksum(r, false);
      FindFirst(r, END) < |r| && FindFirst(r, PERIOD) <= FindFirst(r, END) && chk.Throw? ==>
        GotFrom(r, s, r, s, Threw(chk.error))
  {
    hide ComputeChecksum, FindFirst, AtFrame;
  }

  lemma GotBody(r: seq<byte>, s: SlotValue, rest: seq<byte>, t: SlotValue, status: Status)
    requires AtFrame(r, START, END) && MAXDATALEN <= |s.data|
    requires var e := ReceiveClean(r);
      rest == e.rest && status == StatusOf(e.outcome) && DataBounded(e.outcome) && t == Store(s, e.outcome)
    ensures GotFrom(r, s, rest, t, status)
  {
    hide ReceiveClean;
  }

  /** No message: command 0 and length 0. */
  method ClearSlot(slot: MessageSlot)
    modifies slot`command, slot`dataLen
    ensures slot.Value() == old(slot.Value()).(command := 0, dataLen := 0)
  {
    slot.command := 0;
    slot.dataLen := 0;
  }

  /** Pops a frame whose first period is at iPeriod, and compares its checksum field with the computed one. */
  method PopFrame(inBuf: CircularBuffer, slot: MessageSlot, iPeriod: nat, computeChecksum: array<byte>)
      returns (status: Status)
    requires inBuf.Valid() && 4 <= iPeriod < inBuf.size && PERIOD !in inBuf.Contents()[..iPeriod]
    requires iPeriod - 4 <= MAXDATALEN <= slot.data.Length && slot.data != inBuf.buffer
    requires computeChecksum.Length == NCHARCHECKSUM && computeChecksum != slot.data
    modifies inBuf, slot, slot.data
    ensures inBuf.Valid()
    ensures var r := ReceiveBody(old(inBuf.Contents()), iPeriod, old(computeChecksum[..]));
      && inBuf.Contents() == r.rest
      && status == StatusOf(r.outcome)
      && DataBounded(r.outcome)
      && slot.Value() == Store(old(slot.Value()), r.outcome)
  {
    ghost var r, s, chk := inBuf.Contents(), slot.Value(), computeChecksum[..];
    SlotFields(slot);
    hide *;
    NonePopped(inBuf);
    PopHeader(inBuf, slot, r);
    PopData(inBuf, slot, iPeriod - 4, r);
    var _ := PopNext(inBuf, r, iPeriod);
    RestPopped(inBuf, r, iPeriod + 1);
    status := PopChecksum(inBuf, slot, computeChecksum);
    SlotFields(slot);
    BodyOutcome(r, iPeriod, chk, s, inBuf.Contents(), slot.Value(), status);
  }

  /** The ring held r before n elements were popped off its front. */
  ghost predicate Popped(ring: CircularBuffer, r: seq<byte>, n: nat)
    reads ring, ring.buffer
  {
    ring.Valid() && n <= |r| && ring.Contents() == r[n..]
  }

  lemma NonePopped(ring: CircularBuffer)
    requires ring.Valid()
    ensures Popped(ring, ring.Contents(), 0)
  {
    hide CircularBuffer.Contents;
  }

  lemma RestPopped(ring: CircularBuffer, r: seq<byte>, n: nat)
    requires Popped(ring, r, n)
    ensures ring.Valid() && n <= |r| && ring.Contents() == r[n..]
  {
  }

  /** Pops byte n of r. */
  method PopNext(ring: CircularBuffer, ghost r: seq<byte>, ghost n: nat) returns (b: byte)
    requires Popped(ring, r, n) && n < |r|
    modifies ring
    ensures Popped(ring, r, n + 1) && b == r[n]
  {
    hide CircularBuffer.Contents, IsPow2;
    var e := ring.PopFront();
    assert r[n..][1..] == r[n + 1..];
    b := e.value;
  }

  lemma SlotFields(slot: MessageSlot)
    ensures slot.Value()
      == SlotValue(slot.ascVersion, slot.appVersion, slot.command, slot.data[..], slot.dataLen)
  {
  }

  /** What popping the parts of a frame adds up to. */
  lemma BodyOutcome(r: seq<byte>, iPeriod: nat, chk: seq<byte>, s: SlotValue,
                    rest: seq<byte>, t: SlotValue, status: Status)
    requires 4 <= iPeriod < |r| && iPeriod - 4 <= MAXDATALEN <= |s.data|
    requires t.ascVersion == r[1] && t.appVersion == r[2] && t.data == Overwrite(s.data, r[4..iPeriod])
    requires var after := r[iPeriod + 1..];
      if |after| < 5 || after[4] != END then
        status == Threw(InvalidFrame) && rest == after && t.command == r[3] && t.dataLen == iPeriod - 4
      else
        status == Done && rest == after[5..]
        && t.command == (if after[..4] == chk then r[3] else 0)
        && t.dataLen == (if after[..4] == chk then iPeriod - 4 else 0)
    ensures var e := ReceiveBody(r, iPeriod, chk);
      rest == e.rest && status == StatusOf(e.outcome) && DataBounded(e.outcome) && t == Store(s, e.outcome)
  {
    BodyCases(r, iPeriod, chk);
    hide ReceiveBody, Overwrite;
  }

  lemma BodyCases(r: seq<byte>, iPeriod: nat, chk: seq<byte>)
    requires 4 <= iPeriod < |r|
    ensures var m, rest := Message(r[1], r[2], r[3], r[4..iPeriod]), r[iPeriod + 1..];
      && (|rest| < 5 || rest[4] != END ==> ReceiveBody(r, iPeriod, chk) == Receipt(ThrownAfter(InvalidFrame, m), rest))
      && (|rest| >= 5 && rest[4] == END ==>
            && (rest[..4] != chk ==> ReceiveBody(r, iPeriod, chk) == Receipt(Mismatch(m), rest[5..]))
            && (rest[..4] == chk ==> ReceiveBody(r, iPeriod, chk) == Receipt(Delivered(m), rest[5..])))
  {
  }

  /** Pops the start marker, the versions and the command. */
  method PopHeader(inBuf: CircularBuffer, slot: MessageSlot, ghost r: seq<byte>)
    requires Popped(inBuf, r, 0) && 4 <= |r|
    modifies inBuf, slot
    ensures Popped(inBuf, r, 4)
    ensures slot.ascVersion == r[1] && slot.appVersion == r[2] && slot.command == r[3] && slot.dataLen == 0
  {
    hide *;
    var b := PopNext(inBuf, r, 0);
    b := PopNext(inBuf, r, 1);
    slot.ascVersion := b;
    b := PopNext(inBuf, r, 2);
    slot.appVersion := b;
    b := PopNext(inBuf, r, 3);
    slot.command := b;
    slot.dataLen := 0;
  }

  /** The data loop: n bytes, none of them a period. */
  method PopData(inBuf: CircularBuffer, slot: MessageSlot, n: nat, ghost r: seq<byte>)
    requires Popped(inBuf, r, 4) && 4 + n <= |r| && n <= slot.data.Length && slot.data != inBuf.buffer
    requires PERIOD !in r[..4 + n] && slot.dataLen == 0
    modifies inBuf, slot`dataLen, slot.data
    ensures Popped(inBuf, r, 4 + n)
    ensures slot.data[..] == Overwrite(old(slot.data[..]), r[4..4 + n]) && slot.dataLen == n
  {
    ghost var d := slot.data[..];
    assert forall i :: 0 <= i < 4 + n ==> r[i] == r[..4 + n][i];
    OverwriteNone(d, r);
    hide *;
    for iData := 0 to n
      invariant Popped(inBuf, r, 4 + iData) && slot.dataLen == iData
      invariant slot.data[..] == Overwrite(d, r[4..4 + iData])
    {
      var dataByte := PopNext(inBuf, r, 4 + iData);
      if dataByte == PERIOD {
        assert false;  // the source breaks out of the loop here; the first period is not among these bytes
      }
      OverwriteNext(d, r, iData);
      slot.data[iData] := dataByte;
      slot.dataLen := slot.dataLen + 1;
    }
  }

  lemma OverwriteNone(d: seq<byte>, r: seq<byte>)
    requires 4 <= |r|
    ensures Overwrite(d, r[4..4]) == d
  {
  }

  lemma OverwriteNext(d: seq<byte>, r: seq<byte>, i: nat)
    requires i < |d| && 4 + i < |r|
    ensures Overwrite(d, r[4..4 + i])[i := r[4 + i]] == Overwrite(d, r[4..4 + (i + 1)])
  {
  }

  /** What follows the period: the checksum field, compared with the computed checksum, and the line end. */
  method PopChecksum(inBuf: CircularBuffer, slot: MessageSlot, computeChecksum: array<byte>) returns (status: Status)
    requires inBuf.Valid() && computeChecksum.Length == NCHARCHECKSUM
    modifies inBuf, slot`command, slot`dataLen
    ensures inBuf.Valid()
    ensures var rest := old(inBuf.Contents());
      if |rest| < 5 || rest[4] != END then
        status == Threw(InvalidFrame) && inBuf.Contents() == rest
        && slot.command == old(slot.command) && slot.dataLen == old(slot.dataLen)
      else
        status == Done && inBuf.Contents() == rest[5..]
        && slot.command == (if rest[..4] == old(computeChecksum[..]) then old(slot.command) else 0)
        && slot.dataLen == (if rest[..4] == old(computeChecksum[..]) then old(slot.dataLen) else 0)
  {
    ghost var rest := inBuf.Contents();
    assert NCHARCHECKSUM == 4;
    hide *;
    if inBuf.size < NCHARCHECKSUM + 1 {
      return Threw(InvalidFrame);
    }
    var last := inBuf.GetElement(NCHARCHECKSUM);
    if last.value != END {
      return Threw(InvalidFrame);
    }
    var receiveChecksum := new byte[NCHARCHECKSUM];
    PopInto(inBuf, receiveChecksum);
    var same := SameBytes(receiveChecksum, computeChecksum);
    var _ := inBuf.PopFront();
    assert inBuf.Contents() == rest[5..];
    if !same {
      slot.command := 0;
      slot.dataLen := 0;
    }
    return Done;
  }

  /** The loop that pops the checksum field. */
  method PopInto(inBuf: CircularBuffer, a: array<byte>)
    requires inBuf.Valid() && a.Length <= inBuf.size && a != inBuf.buffer
    modifies inBuf, a
    ensures inBuf.Valid()
    ensures inBuf.Contents() == old(inBuf.Contents())[a.Length..] && a[..] == old(inBuf.Contents())[..a.Length]
  {
    ghost var rest := inBuf.Contents();
    hide *;
    for iChk := 0 to a.Length
      invariant inBuf.Valid() && inBuf.Contents() == rest[iChk..] && a[..iChk] == rest[..iChk]
    {
      var b := inBuf.PopFront();
      a[iChk] := b.value;
    }
    assert a[..] == a[..a.Length];
  }

  /** The comparison loop: do two arrays of the same length hold the same bytes? */
  method SameBytes(a: array<byte>, b: array<byte>) returns (same: bool)
    requires a.Length == b.Length
    ensures same <==> a[..] == b[..]
  {
    for i := 0 to a.Length
      invariant a[..i] == b[..i]
    {
      if a[i] != b[i] {
        assert a[..][i] != b[..][i];
        return false;
      }
    }
    assert a[..] == a[..a.Length] && b[..] == b[..b.Length];
    return true;
  }

  /** get_message on a resynchronised buffer, case by case. */
  lemma ReceiveCases(r: seq<byte>)
    requires AtFrame(r, START, END)
    ensures var iEnd, iPeriod, chk := FindFirst(r, END), FindFirst(r, PERIOD), ComputeChecksum(r, false);
      && (iEnd == |r| ==> ReceiveClean(r) == Receipt(NoMessage, r))
      && (iEnd < |r| && iPeriod > iEnd ==> ReceiveClean(r) == Receipt(Thrown(InvalidFramePeriod), r[iEnd + 1..]))
      && (iEnd < |r| && iPeriod <= iEnd ==>
            && FindFirst(r, START) == 0
            && (chk.Throw? ==> ReceiveClean(r) == Receipt(Thrown(chk.error), r))
            && (chk.Ok? ==> 4 <= iPeriod < 59 && iPeriod < |r| && PERIOD !in r[..iPeriod]
                            && ReceiveClean(r) == ReceiveBody(r, iPeriod, chk.value)))
  {
    hide Checksum;
    if FindFirst(r, END) < |r| {
      FindFirstUnique(r, START, 0);
    }
  }

  predicate DataBounded(o: Outcome) {
    o.Mismatch? || o.Delivered? || o.ThrownAfter? ==> |o.m.data| <= MAXDATALEN
  }

  /** The outcome of a call, known to store no more than the caller's buffer holds. */
  function BoundedOutcome(c: seq<byte>): (o: Outcome)
    ensures o == Receive(c).outcome && DataBounded(o)
  {
    DecoderBounds(c);
    Receive(c).outcome
  }

  /** What a call stores, field by field. */
  lemma StoredFields(s: SlotValue, c: seq<byte>)
    requires MAXDATALEN <= |s.data|
    ensures var t := Store(s, BoundedOutcome(c));
      && |t.data| == |s.data|
      && match Receive(c).outcome
         case Delivered(m) =>
           && t.ascVersion == m.ascVersion && t.appVersion == m.appVersion && t.command == m.command
           && t.dataLen == |m.data| <= |t.data| && t.data[..t.dataLen] == m.data && t.data[t.dataLen..] == s.data[t.dataLen..]
         case NoMessage => t.command == 0 && t.dataLen == 0 && t.data == s.data
         case Mismatch(_) => t.command == 0 && t.dataLen == 0
         case Thrown(e) => t == s
         case ThrownAfter(e, m) =>
           t.command == m.command && t.dataLen == |m.data| <= |t.data| && t.data[..t.dataLen] == m.data
  {
    hide Receive;
  }

  lemma NothingBuffered(c: seq<byte>)
    requires c == []
    ensures Receive(c) == Receipt(NoMessage, [])
  {
  }

  /** compute_checksum, given where the markers are. */
  lemma ChecksumCases(c: seq<byte>, outputBuffer: bool, iStart: nat, iStop: nat)
    requires iStart == if outputBuffer then FindLast(c, START) else FindFirst(c, START)
    requires iStop == if outputBuffer then FindLast(c, PERIOD) else FindFirst(c, PERIOD)
    ensures var status := MarkerStatus(|c|, iStart, iStop);
      && (status.Threw? ==> ComputeChecksum(c, outputBuffer) == Throw(status.error))
      && (status.Done? ==> iStart < iStop < |c|)
      && (status.Done? ==> ComputeChecksum(c, outputBuffer) == Ok(HexOf16(Crc16(c[iStart..iStop + 1]), true)))
  {
    hide *;
    if MarkerStatus(|c|, iStart, iStop).Done? {
      MarkerOrder(|c|, iStart, iStop);
      ChecksumFound(c, outputBuffer, iStart, iStop);
    } else {
      ChecksumRefused(c, outputBuffer, iStart, iStop);
    }
  }

  lemma MarkerOrder(size: nat, iStart: nat, iStop: nat)
    requires MarkerStatus(size, iStart, iStop).Done?
    ensures iStart < iStop < size
  {
  }

  lemma ChecksumFound(c: seq<byte>, outputBuffer: bool, iStart: nat, iStop: nat)
    requires iStart == if outputBuffer then FindLast(c, START) else FindFirst(c, START)
    requires iStop == if outputBuffer then FindLast(c, PERIOD) else FindFirst(c, PERIOD)
    requires MarkerStatus(|c|, iStart, iStop).Done? && iStart < iStop < |c|
    ensures ComputeChecksum(c, outputBuffer) == Ok(HexOf16(Crc16(c[iStart..iStop + 1]), true))
  {
    hide Crc16, HexOf16, FindFirst, FindLast, MarkerStatus;
  }

  lemma ChecksumRefused(c: seq<byte>, outputBuffer: bool, iStart: nat, iStop: nat)
    requires iStart == if outputBuffer then FindLast(c, START) else FindFirst(c, START)
    requires iStop == if outputBuffer then FindLast(c, PERIOD) else FindFirst(c, PERIOD)
    requires MarkerStatus(|c|, iStart, iStop).Threw?
    ensures ComputeChecksum(c, outputBuffer) == Throw(MarkerStatus(|c|, iStart, iStop).error)
  {
    hide Checksum, FindFirst, FindLast, MarkerStatus;
  }

  lemma SixtyFour()
    ensures IsPow2(MAXMESSAGELEN) && MAXMESSAGELEN < Pow2(SIZE_BITS)
  {
    assert IsPow2(1) && IsPow2(2) && IsPow2(4) && IsPow2(8) && IsPow2(16) && IsPow2(32) && IsPow2(64);
    PowerGrows(7, 64);
    assert Pow2(7) == 128 by { assert Pow2(2) == 4; assert Pow2(4) == 16; assert Pow2(6) == 64; }
  }

  lemma {:induction false} PowerGrows(m: nat, n: nat)
    requires m <= n
    ensures Pow2(m) <= Pow2(n)
    decreases n
  {
    if m < n {
      PowerGrows(m, n - 1);
    }
  }

  lemma CrcValue(s: seq<byte>)
    ensures Crc16(s) == Xor(Run(ReflectedBit, 0, s), 0xffff)
  {
    hide Xor, Run;
  }
}
