// Whole runs of the interface object and of a ring.

module Runs {
  import opened AscException
  import opened Mask
  import opened Sequences
  import opened Resync
  import opened CircularBuffers
  import opened Frames
  import opened Encoding
  import opened Streams
  import opened SerialCom

  // ---- Bytes that arrive one at a time ----

  /** What a caller of get_message makes of its status and the slot. */
  function SeenIn(status: Status, s: SlotValue): Seen
    requires s.dataLen <= |s.data|
  {
    if status.Threw? then Caught(status.error)
    else if s.command == 0 then Nothing
    else Got(SlotMessage(s))
  }

  lemma SeenIsView(s: SlotValue, c: seq<byte>)
    requires MAXDATALEN <= |s.data| && s.dataLen <= |s.data|
    ensures var t := Store(s, BoundedOutcome(c));
      t.dataLen <= |t.data| && SeenIn(StatusOf(Receive(c).outcome), t) == View(Receive(c).outcome)
  {
    var o := BoundedOutcome(c);
    var t := Store(s, o);
    hide Receive;
    if o.Delivered? {
      assert t.data[..t.dataLen] == o.m.data;
    }
  }

  /** One byte arrives and get_message is called. */
  method PollByte(asc: AsciiSerialCom, slot: MessageSlot, b: byte) returns (seen: Seen)
    requires asc.Valid() && !asc.ignoreCrcMismatch
    requires MAXDATALEN <= slot.data.Length && slot.data != asc.rawBuffer && slot.dataLen <= slot.data.Length
    modifies asc.inBuf, asc.rawBuffer, slot, slot.data
    ensures asc.Valid() && slot.dataLen <= slot.data.Length
    ensures asc.outBuf.Contents() == old(asc.outBuf.Contents())
    ensures seen == View(Poll(old(asc.inBuf.Contents()), b).outcome)
    ensures asc.inBuf.Contents() == Poll(old(asc.inBuf.Contents()), b).rest
  {
    ghost var c := asc.inBuf.Contents();
    PushInput(asc, b);
    SeenIsView(slot.Value(), PushedBack(c, b, MAXMESSAGELEN));
    hide *;
    var status := asc.GetMessage(slot);
    seen := if status.Threw? then Caught(status.error)
            else if slot.command == 0 then Nothing
            else Got(Message(slot.ascVersion, slot.appVersion, slot.command, slot.data[..slot.dataLen]));
  }

  lemma OutputIs(asc: AsciiSerialCom)
    requires asc.Valid()
    ensures asc.outBuf.Contents() == Unroll(asc.rawBuffer[MAXMESSAGELEN..], asc.outBuf.iStart, asc.outBuf.size)
  {
    hide Unroll;
    assert asc.outBuf.Window() == asc.rawBuffer[MAXMESSAGELEN..];
  }

  /** Pushing onto the input buffer leaves the output buffer alone, though they share an array. */
  method PushInput(asc: AsciiSerialCom, b: byte)
    requires asc.Valid()
    modifies asc.inBuf, asc.rawBuffer
    ensures asc.Valid() && asc.outBuf.Contents() == old(asc.outBuf.Contents())
    ensures asc.inBuf.Contents() == PushedBack(old(asc.inBuf.Contents()), b, MAXMESSAGELEN)
  {
    hide PushedBack, Unroll;
    OutputIs(asc);
    asc.inBuf.PushBack(b);
    assert asc.rawBuffer[MAXMESSAGELEN..] == old(asc.rawBuffer[MAXMESSAGELEN..]);
    OutputIs(asc);
  }

  /** The results of a whole run are those of Feed, and it never touches the output buffer. */
  method FeedBytes(asc: AsciiSerialCom, slot: MessageSlot, bs: seq<byte>) returns (seen: seq<Seen>)
    requires asc.Valid() && !asc.ignoreCrcMismatch
    requires MAXDATALEN <= slot.data.Length && slot.data != asc.rawBuffer && slot.dataLen <= slot.data.Length
    modifies asc.inBuf, asc.rawBuffer, slot, slot.data
    ensures asc.Valid()
    ensures asc.outBuf.Contents() == old(asc.outBuf.Contents())
    ensures seen == Feed(old(asc.inBuf.Contents()), bs)
    ensures asc.inBuf.Contents() == Left(old(asc.inBuf.Contents()), bs)
  {
    ghost var c := asc.inBuf.Contents();
    seen := [];
    FeedNothing(c);
    hide *;
    for i := 0 to |bs|
      invariant asc.Valid() && slot.dataLen <= slot.data.Length
      invariant asc.outBuf.Contents() == old(asc.outBuf.Contents())
      invariant seen == Feed(c, bs[..i]) && asc.inBuf.Contents() == Left(c, bs[..i])
    {
      var s := PollByte(asc, slot, bs[i]);
      FeedNext(c, bs, i);
      seen := seen + [s];
    }
    assert bs[..|bs|] == bs;
  }

  lemma FeedNext(c: seq<byte>, bs: seq<byte>, i: nat)
    requires |c| <= MAXMESSAGELEN && i < |bs|
    ensures var d := Left(c, bs[..i]);
      && Feed(c, bs[..i + 1]) == Feed(c, bs[..i]) + [View(Poll(d, bs[i]).outcome)]
      && Left(c, bs[..i + 1]) == Poll(d, bs[i]).rest
  {
    hide *;
    PrefixStep(bs, i);
    FeedLast(c, bs[..i], bs[i]);
  }

  lemma FeedLast(c: seq<byte>, bs: seq<byte>, b: byte)
    requires |c| <= MAXMESSAGELEN
    ensures var d := Left(c, bs);
      && Feed(c, bs + [b]) == Feed(c, bs) + [View(Poll(d, b).outcome)]
      && Left(c, bs + [b]) == Poll(d, b).rest
  {
    hide *;
    FeedAppend(c, bs, [b]);
    FeedOne(Left(c, bs), b);
  }

  // ---- Messages from one interface to another ----

  /** Empties the output buffer, one byte at a time. */
  method Drain(ring: CircularBuffer) returns (sent: seq<byte>)
    requires ring.Valid()
    modifies ring
    ensures ring.Valid() && ring.Contents() == [] && sent == old(ring.Contents())
  {
    ghost var c := ring.Contents();
    sent := [];
    NonePopped(ring);
    ghost var i := 0;
    assert c[..0] == [];
    hide *;
    while ring.size > 0
      invariant ring.Valid() && i <= |c| && ring.Contents() == c[i..]
      invariant Popped(ring, c, i) && sent == c[..i]
      decreases ring.size
    {
      assert |c[i..]| == |c| - i;
      var b := PopNext(ring, c, i);
      PrefixStep(c, i);
      i := i + 1;
      RestPopped(ring, c, i);
      sent := sent + [b];
    }
    assert |c[i..]| == |c| - i && c[..|c|] == c;
  }

  /** The frames of messages, one behind the other. */
  function Queue(ms: seq<Message>): seq<byte> {
    if ms == [] then [] else Queue(ms[..|ms| - 1]) + Frame(ms[|ms| - 1])
  }

  lemma QueueStep(ms: seq<Message>, m: Message)
    ensures Queue(ms + [m]) == Queue(ms) + Frame(m)
  {
    hide Frame;
    assert (ms + [m])[..|ms|] == ms;
  }

  lemma {:induction false} QueueAppend(xs: seq<Message>, ys: seq<Message>)
    ensures Queue(xs + ys) == Queue(xs) + Queue(ys)
    decreases |ys|
  {
    if ys == [] {
      assert xs + ys == xs && Queue(ys) == [];
      hide *;
      assert Queue(xs) + [] == Queue(xs);
    } else {
      var n := |ys| - 1;
      assert xs + ys == (xs + ys[..n]) + [ys[n]];
      assert Queue(ys) == Queue(ys[..n]) + Frame(ys[n]) by { hide Frame; }
      hide *;
      QueueAppend(xs, ys[..n]);
      QueueStep(xs + ys[..n], ys[n]);
      Associates(Queue(xs), Queue(ys[..n]), Frame(ys[n]));
    }
  }

  /** Frames that are decoded one after the other give their messages, first in first out. */
  lemma FirstOut(m: Message, rest: seq<Message>)
    requires Sendable(m)
    ensures Receive(Queue([m] + rest)) == Receipt(Delivered(m), Queue(rest))
  {
    assert [] + [m] == [m];
    assert Queue([]) == [];
    hide *;
    QueueAppend([m], rest);
    QueueStep([], m);
    RoundTrip(m, Queue(rest));
    assert [] + Frame(m) == Frame(m);
  }

  predicate AllSendable(ms: seq<Message>) {
    forall i :: 0 <= i < |ms| ==> Sendable(ms[i])
  }

  lemma SendableAt(ms: seq<Message>, i: nat)
    requires AllSendable(ms) && i < |ms|
    ensures Sendable(ms[i])
  {
  }

  lemma BothSendable(xs: seq<Message>, ys: seq<Message>)
    requires AllSendable(xs) && AllSendable(ys)
    ensures AllSendable(xs + ys)
  {
    hide Sendable;
  }

  /** Do messages fit behind the queued ones, and does each one's frame start before the end of the buffer's array? */
  predicate RoomFor(front: nat, queued: seq<Message>, ms: seq<Message>) {
    && |Queue(queued + ms)| <= MAXMESSAGELEN
    && forall i :: 0 <= i < |ms| ==> front + |Queue(queued + ms[..i])| <= MAXMESSAGELEN
  }

  /** Encodes messages behind the queued ones. */
  method SendAll(asc: AsciiSerialCom, ms: seq<Message>, ghost queued: seq<Message>)
    requires asc.Valid() && asc.outBuf.Contents() == Queue(queued) && AllSendable(ms)
    requires RoomFor(asc.outBuf.iStart, queued, ms)
    modifies asc.outBuf, asc.rawBuffer
    ensures asc.Valid() && asc.inBuf.Contents() == old(asc.inBuf.Contents())
    ensures asc.outBuf.Contents() == Queue(queued + ms) && asc.outBuf.iStart == old(asc.outBuf.iStart)
  {
    ghost var front := asc.outBuf.iStart;
    assert queued + ms[..0] == queued;
    hide *;
    for i := 0 to |ms|
      invariant asc.Valid() && asc.inBuf.Contents() == old(asc.inBuf.Contents())
      invariant asc.outBuf.Contents() == Queue(queued + ms[..i]) && asc.outBuf.iStart == front
    {
      RoomForNext(front, queued, ms, i);
      PutSendable(asc, ms[i]);
    }
    assert queued + ms[..|ms|] == queued + ms;
  }

  lemma RoomForNext(front: nat, queued: seq<Message>, ms: seq<Message>, i: nat)
    requires i < |ms| && AllSendable(ms) && RoomFor(front, queued, ms)
    ensures var q := Queue(queued + ms[..i]);
      && Sendable(ms[i]) && |q| + |ms[i].data| + 10 <= MAXMESSAGELEN && front + |q| <= MAXMESSAGELEN
      && Queue(queued + ms[..i + 1]) == q + Frame(ms[i])
  {
    assert front + |Queue(queued + ms[..i])| <= MAXMESSAGELEN;
    assert |Queue(queued + ms)| <= MAXMESSAGELEN;
    hide *;
    SendableAt(ms, i);
    QueueFits(queued, ms, i);
    QueueStep(queued + ms[..i], ms[i]);
    assert queued + ms[..i + 1] == (queued + ms[..i]) + [ms[i]];
  }

  lemma QueueFits(queued: seq<Message>, ms: seq<Message>, i: nat)
    requires i < |ms|
    ensures |Queue(queued + ms[..i])| + |ms[i].data| + 10 <= |Queue(queued + ms)|
  {
    hide Frame;
    var front := queued + ms[..i];
    assert queued + ms == (front + [ms[i]]) + ms[i + 1..];
    QueueAppend(front + [ms[i]], ms[i + 1..]);
    QueueStep(front, ms[i]);
  }

  method PutSendable(asc: AsciiSerialCom, m: Message)
    requires asc.Valid() && Sendable(m) && asc.outBuf.size + |m.data| + 10 <= MAXMESSAGELEN
    requires asc.outBuf.iStart + asc.outBuf.size <= MAXMESSAGELEN
    modifies asc.outBuf, asc.rawBuffer
    ensures asc.Valid() && asc.inBuf.Contents() == old(asc.inBuf.Contents())
    ensures asc.outBuf.Contents() == old(asc.outBuf.Contents()) + Frame(m) && asc.outBuf.iStart == old(asc.outBuf.iStart)
  {
    ghost var out, front := asc.outBuf.Contents(), asc.outBuf.iStart;
    SendableWithin(front, |out|, m);
    PutFits(front, out, m);
    hide *;
    PutValue(asc, m);
  }

  lemma PutFits(front: nat, out: seq<byte>, m: Message)
    requires Sendable(m) && |out| + |m.data| + 10 <= MAXMESSAGELEN
    ensures Put(out, m) == (Done, out + Frame(m)) && FrontAfterPut(front, |out|, m) == front
  {
    hide Put, Frame;
    PutAppendsFrame(out, m);
  }

  /** Decodes as many messages as there are frames. */
  method ReceiveAll(asc: AsciiSerialCom, slot: MessageSlot, count: nat, ghost ms: seq<Message>)
      returns (got: seq<Message>)
    requires asc.Valid() && !asc.ignoreCrcMismatch && asc.inBuf.Contents() == Queue(ms) && count == |ms|
    requires MAXDATALEN <= slot.data.Length && slot.data != asc.rawBuffer && AllSendable(ms)
    modifies asc.inBuf, slot, slot.data
    ensures asc.Valid() && asc.inBuf.Contents() == [] && got == ms
  {
    got := [];
    TakenNone(ms);
    assert asc.inBuf.Valid();
    hide *;
    for i := 0 to count
      invariant asc.Valid() && asc.inBuf.Valid() && Taken(asc.inBuf.Contents(), got, ms, i)
    {
      got := ReceiveOne(asc, slot, got, ms, i);
    }
    TakenAll(asc.inBuf.Contents(), got, ms);
  }

  /** The first i of ms have been taken, the frames of the others are in the buffer. */
  predicate Taken(c: seq<byte>, got: seq<Message>, ms: seq<Message>, i: nat) {
    i <= |ms| && c == Queue(ms[i..]) && got == ms[..i]
  }

  lemma TakenNone(ms: seq<Message>)
    ensures Taken(Queue(ms), [], ms, 0)
  {
    hide Queue;
    assert ms[0..] == ms;
  }

  lemma TakenAll(c: seq<byte>, got: seq<Message>, ms: seq<Message>)
    requires Taken(c, got, ms, |ms|)
    ensures c == [] && got == ms
  {
    assert ms[|ms|..] == [];
  }

  lemma TakenNext(c: seq<byte>, got: seq<Message>, ms: seq<Message>, i: nat)
    requires Taken(c, got, ms, i) && i < |ms| && AllSendable(ms)
    ensures Receive(c) == Receipt(Delivered(ms[i]), Queue(ms[i + 1..]))
    ensures Taken(Queue(ms[i + 1..]), got + [ms[i]], ms, i + 1)
  {
    hide Queue, Receive, AllSendable;
    NextOut(ms, i);
  }

  lemma NextOut(ms: seq<Message>, i: nat)
    requires i < |ms| && AllSendable(ms)
    ensures Receive(Queue(ms[i..])) == Receipt(Delivered(ms[i]), Queue(ms[i + 1..]))
  {
    hide *;
    SendableAt(ms, i);
    FirstOut(ms[i], ms[i + 1..]);
    assert [ms[i]] + ms[i + 1..] == ms[i..];
  }

  method ReceiveOne(asc: AsciiSerialCom, slot: MessageSlot, got0: seq<Message>, ghost ms: seq<Message>, ghost i: nat)
      returns (got: seq<Message>)
    requires asc.Valid() && !asc.ignoreCrcMismatch
    requires Taken(asc.inBuf.Contents(), got0, ms, i) && i < |ms| && AllSendable(ms)
    requires MAXDATALEN <= slot.data.Length && slot.data != asc.rawBuffer
    modifies asc.inBuf, slot, slot.data
    ensures asc.Valid() && asc.inBuf.Valid() && Taken(asc.inBuf.Contents(), got, ms, i + 1)
  {
    assert MAXDATALEN <= |slot.Value().data|;
    TakenNext(asc.inBuf.Contents(), got0, ms, i);
    TransferredSlot(slot.Value(), asc.inBuf.Contents(), ms[i]);
    hide *;
    var _ := asc.GetMessage(slot);
    SlotFields(slot);
    var m := Message(slot.ascVersion, slot.appVersion, slot.command, slot.data[..slot.dataLen]);
    got := got0 + [m];
  }

  lemma TransferredSlot(s: SlotValue, c: seq<byte>, m: Message)
    requires MAXDATALEN <= |s.data| && Receive(c).outcome == Delivered(m)
    ensures var t := Store(s, BoundedOutcome(c));
      && t.ascVersion == m.ascVersion && t.appVersion == m.appVersion && t.command == m.command
      && t.dataLen == |m.data| <= |t.data| && t.data[..t.dataLen] == m.data
  {
    hide Receive;
  }

  /** Pushing a block onto an empty input buffer. */
  method Deliver(asc: AsciiSerialCom, bs: seq<byte>)
    requires asc.Valid() && asc.inBuf.Contents() == [] && |bs| <= MAXMESSAGELEN
    modifies asc.inBuf, asc.rawBuffer
    ensures asc.Valid() && asc.inBuf.Contents() == bs
  {
    hide CircularBuffer.Contents;
    asc.inBuf.PushBackBlock(bs);
    assert [] + bs == bs;
  }

  /**
   * First in, first out: messages encoded behind those already queued, moved and decoded come out all and in order,
   * wherever in its array each of the two rings starts.
   */
  method Transfer(sender: AsciiSerialCom, receiver: AsciiSerialCom, slot: MessageSlot,
                  ghost queued: seq<Message>, nQueued: nat, ms: seq<Message>) returns (got: seq<Message>)
    requires sender.Valid() && receiver.Valid() && !receiver.ignoreCrcMismatch
    requires {sender.inBuf, sender.outBuf} !! {receiver.inBuf, receiver.outBuf}
    requires sender.rawBuffer != receiver.rawBuffer
    requires MAXDATALEN <= slot.data.Length && slot.data != receiver.rawBuffer && slot.data != sender.rawBuffer
    requires sender.outBuf.Contents() == Queue(queued) && nQueued == |queued| && receiver.inBuf.Contents() == []
    requires forall i :: 0 <= i < |queued| ==> Sendable(queued[i])
    requires forall i :: 0 <= i < |ms| ==> Sendable(ms[i])
    requires |Queue(queued + ms)| <= 64
    requires forall i :: 0 <= i < |ms| ==> sender.outBuf.iStart + |Queue(queued + ms[..i])| <= 64
    modifies sender.outBuf, sender.rawBuffer, receiver.inBuf, receiver.rawBuffer, slot, slot.data
    ensures sender.Valid() && receiver.Valid()
    ensures sender.outBuf.Contents() == [] && receiver.inBuf.Contents() == []
    ensures got == queued + ms
  {
    assert AllSendable(queued) && AllSendable(ms) && RoomFor(sender.outBuf.iStart, queued, ms) && MAXMESSAGELEN == 64 by {
      hide Queue, Sendable;
    }
    BothSendable(queued, ms);
    hide *;
    SendAll(sender, ms, queued);
    var bs := Drain(sender.outBuf);
    Deliver(receiver, bs);
    got := ReceiveAll(receiver, slot, nQueued + |ms|, queued + ms);
  }

  // ---- Operations on both rings, in any order ----

  datatype Op = PushIn(b: byte) | PopIn | Decode | PushOut(b: byte) | PopOut | Encode(m: Message)

  function WithoutFront(c: seq<byte>): seq<byte> {
    if c == [] then [] else c[1..]
  }

  /** What an operation does to the input buffer. */
  function InStep(op: Op, c: seq<byte>): (r: seq<byte>)
    requires |c| <= MAXMESSAGELEN
    ensures |r| <= MAXMESSAGELEN
  {
    match op
    case PushIn(b) => PushedBack(c, b, MAXMESSAGELEN)
    case PopIn => WithoutFront(c)
    case Decode => RestShrinks(c); Receive(c).rest
    case _ => c
  }

  /** An output buffer: its contents, and where in its array it starts. */
  datatype Output = Output(contents: seq<byte>, front: nat)

  predicate IsOutput(o: Output) {
    |o.contents| <= MAXMESSAGELEN && o.front < MAXMESSAGELEN
  }

  /** Is the operation performed? Only an encoding out of reach of get_blocks is not. */
  predicate CanPerform(op: Op, o: Output) {
    op.Encode? ==> WithinReach(o.front, |o.contents|, op.m)
  }

  /** What an operation does to the output buffer. */
  function OutStep(op: Op, o: Output): (r: Output)
    requires IsOutput(o)
    ensures IsOutput(r)
  {
    match op
    case PushOut(b) =>
      FrontNext(o.front, |o.contents|, 0, MAXMESSAGELEN);
      Output(PushedBack(o.contents, b, MAXMESSAGELEN), FrontAfter(o.front, |o.contents|, 1, MAXMESSAGELEN))
    case PopOut => if o.contents == [] then o else Output(o.contents[1..], Wrap(o.front + 1, MAXMESSAGELEN))
    case Encode(m) => if CanPerform(op, o) then EncodedWithin(o, m) else o
    case _ => o
  }

  function EncodedWithin(o: Output, m: Message): (r: Output)
    requires IsOutput(o)
    ensures r == Output(Put(o.contents, m).1, FrontAfterPut(o.front, |o.contents|, m)) && IsOutput(r)
  {
    hide ComputeChecksum, Head;
    FrontNext(o.front, |o.contents|, |m.data| + 5, MAXMESSAGELEN);
    Output(Put(o.contents, m).1, FrontAfterPut(o.front, |o.contents|, m))
  }

  function InAfter(ops: seq<Op>, c: seq<byte>): (r: seq<byte>)
    requires |c| <= MAXMESSAGELEN
    ensures |r| <= MAXMESSAGELEN
    decreases |ops|
  {
    if ops == [] then c else InAfter(ops[1..], InStep(ops[0], c))
  }

  function OutAfter(ops: seq<Op>, o: Output): (r: Output)
    requires IsOutput(o)
    ensures IsOutput(r)
    decreases |ops|
  {
    if ops == [] then o else OutAfter(ops[1..], OutStep(ops[0], o))
  }

  /** Which operations of a run are performed. */
  function Performed(ops: seq<Op>, o: Output): (r: seq<bool>)
    requires IsOutput(o)
    ensures |r| == |ops|
    decreases |ops|
  {
    if ops == [] then [] else [CanPerform(ops[0], o)] + Performed(ops[1..], OutStep(ops[0], o))
  }

  ghost function OutputOf(asc: AsciiSerialCom): (o: Output)
    requires asc.Valid()
    reads asc, asc.inBuf, asc.outBuf, asc.rawBuffer
    ensures IsOutput(o)
  {
    Output(asc.outBuf.Contents(), asc.outBuf.iStart)
  }

  method Perform(asc: AsciiSerialCom, slot: MessageSlot, op: Op) returns (performed: bool)
    requires asc.Valid() && !asc.ignoreCrcMismatch
    requires MAXDATALEN <= slot.data.Length && slot.data != asc.rawBuffer
    modifies asc.inBuf, asc.outBuf, asc.rawBuffer, slot, slot.data
    ensures asc.Valid()
    ensures performed <==> (op.Encode? ==> WithinReach(old(asc.outBuf.iStart), old(asc.outBuf.size), op.m))
    ensures match op
      case PushIn(b) => asc.inBuf.Contents() == PushedBack(old(asc.inBuf.Contents()), b, 64)
      case PopIn => old(asc.inBuf.size) > 0 ==> asc.inBuf.Contents() == old(asc.inBuf.Contents())[1..]
      case Decode => asc.inBuf.Contents() == Receive(old(asc.inBuf.Contents())).rest
      case PushOut(b) => asc.outBuf.Contents() == PushedBack(old(asc.outBuf.Contents()), b, 64)
      case PopOut => old(asc.outBuf.size) > 0 ==> asc.outBuf.Contents() == old(asc.outBuf.Contents())[1..]
      case Encode(m) => performed ==> asc.outBuf.Contents() == Put(old(asc.outBuf.Contents()), m).1
    ensures op.PushIn? || op.PopIn? || op.Decode? || asc.inBuf.Contents() == old(asc.inBuf.Contents())
    ensures op.PushOut? || op.PopOut? || (op.Encode? && performed)
      || asc.outBuf.Contents() == old(asc.outBuf.Contents())
    ensures performed <==> CanPerform(op, old(OutputOf(asc)))
    ensures asc.inBuf.Contents() == InStep(op, old(asc.inBuf.Contents()))
    ensures OutputOf(asc) == OutStep(op, old(OutputOf(asc)))
  {
    performed := true;
    assert MAXMESSAGELEN == 64;
    hide Receive, Put, FrontAfterPut, FrontAfter, PushedBack, WithinReach, CircularBuffer.Contents;
    match op {
      case PushIn(b) => PushInput(asc, b);
      case PopIn => var _ := asc.inBuf.PopFront();
      case Decode => var _ := asc.GetMessage(slot);
      case PushOut(b) => PushOutput(asc, b);
      case PopOut => var _ := asc.outBuf.PopFront();
      case Encode(m) =>
        performed := WithinReach(asc.outBuf.iStart, asc.outBuf.size, m);
        if performed {
          PutValue(asc, m);
        }
    }
  }

  method PutValue(asc: AsciiSerialCom, m: Message)
    requires asc.Valid() && WithinReach(asc.outBuf.iStart, asc.outBuf.size, m)
    modifies asc.outBuf, asc.rawBuffer
    ensures asc.Valid() && asc.inBuf.Contents() == old(asc.inBuf.Contents())
    ensures asc.outBuf.Contents() == Put(old(asc.outBuf.Contents()), m).1
    ensures asc.outBuf.iStart == FrontAfterPut(old(asc.outBuf.iStart), old(asc.outBuf.size), m)
  {
    var data := new byte[|m.data|](i requires 0 <= i < |m.data| => m.data[i]);
    assert data[..|m.data|] == m.data;
    assert asc.Reaches(m);
    assert Message(m.ascVersion, m.appVersion, m.command, m.data) == m;
    hide *;
    var _ := asc.PutMessage(m.ascVersion, m.appVersion, m.command, data, |m.data|);
  }

  /** Pushing onto the output buffer leaves the input buffer alone. */
  method PushOutput(asc: AsciiSerialCom, b: byte)
    requires asc.Valid()
    modifies asc.outBuf, asc.rawBuffer
    ensures asc.Valid() && asc.inBuf.Contents() == old(asc.inBuf.Contents())
    ensures asc.outBuf.Contents() == PushedBack(old(asc.outBuf.Contents()), b, MAXMESSAGELEN)
    ensures asc.outBuf.iStart == FrontAfter(old(asc.outBuf.iStart), old(asc.outBuf.size), 1, MAXMESSAGELEN)
  {
    hide PushedBack, Unroll, FrontAfter;
    InputIs(asc);
    FrontNext(asc.outBuf.iStart, asc.outBuf.size, 0, MAXMESSAGELEN);
    FrontNone(asc.outBuf.iStart, asc.outBuf.size, MAXMESSAGELEN);
    asc.outBuf.PushBack(b);
    assert asc.rawBuffer[..MAXMESSAGELEN] == old(asc.rawBuffer[..MAXMESSAGELEN]);
    InputIs(asc);
  }

  lemma InputIs(asc: AsciiSerialCom)
    requires asc.Valid()
    ensures asc.inBuf.Contents() == Unroll(asc.rawBuffer[..MAXMESSAGELEN], asc.inBuf.iStart, asc.inBuf.size)
  {
    hide Unroll;
    assert asc.inBuf.Window() == asc.rawBuffer[..MAXMESSAGELEN];
  }

  /**
   * The two rings share one array, but over any run each one's contents come from its own operations alone, whether
   * or not the calls throw. The run of the output ring also says which encodings are within reach and performed.
   */
  method PerformAll(asc: AsciiSerialCom, slot: MessageSlot, ops: seq<Op>) returns (performed: seq<bool>)
    requires asc.Valid() && !asc.ignoreCrcMismatch
    requires MAXDATALEN <= slot.data.Length && slot.data != asc.rawBuffer
    modifies asc.inBuf, asc.outBuf, asc.rawBuffer, slot, slot.data
    ensures asc.Valid()
    ensures asc.inBuf.Contents() == InAfter(ops, old(asc.inBuf.Contents()))
    ensures OutputOf(asc) == OutAfter(ops, old(OutputOf(asc)))
    ensures performed == Performed(ops, old(OutputOf(asc)))
  {
    ghost var c, o := asc.inBuf.Contents(), OutputOf(asc);
    performed := [];
    assert ops[..0] == [];
    RunNone(c, o);
    hide *;
    for i := 0 to |ops|
      invariant asc.Valid()
      invariant asc.inBuf.Contents() == InAfter(ops[..i], c)
      invariant OutputOf(asc) == OutAfter(ops[..i], o) && performed == Performed(ops[..i], o)
    {
      InAfterNext(ops, i, c);
      OutAfterNext(ops, i, o);
      var p := Perform(asc, slot, ops[i]);
      performed := performed + [p];
    }
    assert ops[..|ops|] == ops;
  }

  lemma RunNone(c: seq<byte>, o: Output)
    requires |c| <= MAXMESSAGELEN && IsOutput(o)
    ensures InAfter([], c) == c && OutAfter([], o) == o && Performed([], o) == []
  {
  }

  lemma {:induction false} InAfterNext(ops: seq<Op>, i: nat, c: seq<byte>)
    requires i < |ops| && |c| <= MAXMESSAGELEN
    ensures InAfter(ops[..i + 1], c) == InStep(ops[i], InAfter(ops[..i], c))
    decreases i
  {
    hide InStep;
    assert ops[..i + 1][1..] == ops[1..][..i];
    if i > 0 {
      assert ops[..i][1..] == ops[1..][..i - 1];
      InAfterNext(ops[1..], i - 1, InStep(ops[0], c));
    }
  }

  lemma {:induction false} OutAfterNext(ops: seq<Op>, i: nat, o: Output)
    requires i < |ops| && IsOutput(o)
    ensures OutAfter(ops[..i + 1], o) == OutStep(ops[i], OutAfter(ops[..i], o))
    ensures Performed(ops[..i + 1], o) == Performed(ops[..i], o) + [CanPerform(ops[i], OutAfter(ops[..i], o))]
    decreases i
  {
    hide OutStep, CanPerform, IsOutput;
    assert ops[..i + 1][1..] == ops[1..][..i];
    if i > 0 {
      assert ops[..i][1..] == ops[1..][..i - 1];
      OutAfterNext(ops[1..], i - 1, OutStep(ops[0], o));
    }
  }

  // ---- Out of reach ----

  /**
   * What put_message and compute_checksum ask get_blocks for: the blocks of the head just pushed, from its last start
   * marker. They spell it out if and only if the message was within reach.
   */
  method HeadBlocks(asc: AsciiSerialCom, ascVersion: byte, appVersion: byte, command: byte,
                    data: array<byte>, dataLen: nat, first: nat, nElem: nat, ghost m: Message) returns (r: Result<Blocks>)
    requires asc.Valid() && dataLen <= data.Length && data != asc.rawBuffer
    requires m == Message(ascVersion, appVersion, command, data[..dataLen])
    requires Fits(asc.outBuf.Contents(), m) && LastStart(m) <= |m.data| <= MAXDATALEN
    requires first == asc.outBuf.size + LastStart(m) && nElem == |m.data| + 5 - LastStart(m)
    modifies asc.outBuf, asc.rawBuffer
    ensures asc.Valid() && asc.outBuf.Contents() == old(asc.outBuf.Contents()) + Head(m) && r.Ok?
    ensures first + nElem == asc.outBuf.size && FindLast(asc.outBuf.Contents(), START) == first
    ensures asc.outBuf.Contents()[first..first + nElem] == Head(m)[LastStart(m)..]
    ensures asc.outBuf.BlocksSpell(r.value, first, nElem) <==> old(asc.Reaches(m))
  {
    ghost var out, front := asc.outBuf.Contents(), asc.outBuf.iStart;
    HeadFits(out, m);
    PushedHead(out, m);
    ReachesIs(front, out, m);
    assert asc.Reaches(m) <==> WithinReach(front, |out|, m);
    FrontFits(front, out, m);
    hide FindLast, Head, LastStart, PushedAll, FrontAfter, WithinReach, Fits;
    hide CircularBuffer.Contents, CircularBuffer.BlocksSpell, IsPow2;
    r := BlocksAfterHead(asc.outBuf, ascVersion, appVersion, command, data, dataLen, first, nElem, out + Head(m));
  }

  method BlocksAfterHead(ring: CircularBuffer, ascVersion: byte, appVersion: byte, command: byte, data: array<byte>,
                         dataLen: nat, first: nat, nElem: nat, ghost c: seq<byte>) returns (r: Result<Blocks>)
    requires ring.Valid() && ring.capacity == MAXMESSAGELEN && dataLen <= data.Length && data != ring.buffer
    requires PushedAll(ring.Contents(), Head(Message(ascVersion, appVersion, command, data[..dataLen])), MAXMESSAGELEN) == c
    requires FrontAfter(ring.iStart, ring.size, dataLen + 5, MAXMESSAGELEN) == ring.iStart && |c| == first + nElem
    modifies ring, ring.buffer
    ensures ring.Valid() && ring.Outside() == old(ring.Outside())
    ensures ring.Contents() == c && r.Ok?
    ensures ring.BlocksSpell(r.value, first, nElem) <==> old(ring.iStart) + first <= MAXMESSAGELEN
  {
    SixtyFour();
    hide *;
    PushHead(ring, ascVersion, appVersion, command, data, dataLen);
    r := ring.GetBlocks(first, nElem);
  }

  lemma ReachesIs(front: nat, out: seq<byte>, m: Message)
    requires Fits(out, m) && LastStart(m) <= |m.data| <= MAXDATALEN
    ensures WithinReach(front, |out|, m) <==> front + (|out| + LastStart(m)) <= MAXMESSAGELEN
  {
    hide LastStart;
  }

  lemma FrontFits(front: nat, out: seq<byte>, m: Message)
    requires Fits(out, m)
    ensures FrontAfter(front, |out|, |m.data| + 5, MAXMESSAGELEN) == front
    ensures LastStart(m) <= |m.data| ==> |out| + LastStart(m) < |out| + |m.data| + 5 <= MAXMESSAGELEN
  {
    hide LastStart;
  }

  lemma PushedHead(out: seq<byte>, m: Message)
    requires Fits(out, m)
    ensures PushedAll(out, Head(m), MAXMESSAGELEN) == out + Head(m) && |Head(m)| == |m.data| + 5
    ensures var first := |out| + LastStart(m);
      (out + Head(m))[first..|out| + |m.data| + 5] == Head(m)[LastStart(m)..]
  {
    hide Head, LastStart;
    var k := LastStart(m);
    assert |Head(m)| == |m.data| + 5;
    assert (out + Head(m))[|out| + k..|out| + |m.data| + 5] == Head(m)[k..];
  }

  /**
   * A reachable witness: after 42 bytes have passed through a new output buffer and 27 more are in it, no message
   * that a frame can carry and that fits is within reach, though there is room for one of 27 data bytes.
   */
  method OutOfReach() returns (asc: AsciiSerialCom)
    ensures fresh(asc) && asc.Valid() && asc.outBuf.iStart == 42 && asc.outBuf.size == 27
    ensures forall m :: Sendable(m) && |m.data| <= 27 ==> Fits(asc.outBuf.Contents(), m) && !asc.Reaches(m)
  {
    asc := new AsciiSerialCom();
    PassThrough(asc, 42);
    PushMany(asc, 27);
    forall m | Sendable(m) && |m.data| <= 27 ensures Fits(asc.outBuf.Contents(), m) && !asc.Reaches(m) {
      SendableWithin(asc.outBuf.iStart, asc.outBuf.size, m);
    }
  }

  method PassThrough(asc: AsciiSerialCom, n: nat)
    requires asc.Valid() && asc.outBuf.size == 0 && asc.outBuf.iStart == 0 && n < MAXMESSAGELEN
    modifies asc.outBuf, asc.rawBuffer
    ensures asc.Valid() && asc.outBuf.size == 0 && asc.outBuf.iStart == n
  {
    hide PushedBack, CircularBuffer.Contents;
    for i := 0 to n
      invariant asc.Valid() && asc.outBuf.size == 0 && asc.outBuf.iStart == i
    {
      PushOutput(asc, 0x40);
      assert asc.outBuf.size == 1 by { PushedSize(old(asc.outBuf.Contents()), 0x40); assert |asc.outBuf.Contents()| == 1; }
      var _ := asc.outBuf.PopFront();
    }
  }

  lemma PushedSize(c: seq<byte>, b: byte)
    requires |c| < MAXMESSAGELEN
    ensures |PushedBack(c, b, MAXMESSAGELEN)| == |c| + 1
  {
  }

  method PushMany(asc: AsciiSerialCom, n: nat)
    requires asc.Valid() && asc.outBuf.size + n <= MAXMESSAGELEN
    modifies asc.outBuf, asc.rawBuffer
    ensures asc.Valid() && asc.outBuf.size == old(asc.outBuf.size) + n && asc.outBuf.iStart == old(asc.outBuf.iStart)
  {
    for i := 0 to n
      invariant asc.Valid() && asc.outBuf.size == old(asc.outBuf.size) + i && asc.outBuf.iStart == old(asc.outBuf.iStart)
    {
      PushOne(asc);
    }
  }

  method PushOne(asc: AsciiSerialCom)
    requires asc.Valid() && asc.outBuf.size < MAXMESSAGELEN
    modifies asc.outBuf, asc.rawBuffer
    ensures asc.Valid() && asc.outBuf.size == old(asc.outBuf.size) + 1 && asc.outBuf.iStart == old(asc.outBuf.iStart)
  {
    ghost var c := asc.outBuf.Contents();
    PushedSize(c, 0x40);
    hide PushedBack, CircularBuffer.Contents;
    PushOutput(asc, 0x40);
    assert asc.outBuf.size == |asc.outBuf.Contents()|;
  }

  // ---- Operations on one ring, in any order ----

  datatype RingOp =
    | PushFront(x: byte) | PushBack(x: byte) | PopFront | PopBack | Get(i: nat) | Clear
    | First(x: byte) | Last(x: byte) | HowMany(x: byte) | DropTo(x: byte, inclusive: bool)
    | DropBackTo(x: byte, inclusive: bool) | PushBlock(bs: seq<byte>) | PopBlock(most: nat) | DropBlock
    | Resynchronise(start: byte, end: byte)

  datatype RingResult = Nil | Element(r: Result<byte>) | Number(n: nat) | Bytes(bs: seq<byte>)

  /** What an operation on contents c of at most cap bytes gives and leaves, on sequences. */
  predicate RingStep(op: RingOp, c: seq<byte>, r: RingResult, d: seq<byte>, cap: nat)
    requires |c| <= cap && 0 < cap
  {
    match op
    case PushFront(x) => r == Nil && d == PushedFront(c, x, cap)
    case PushBack(x) => r == Nil && d == PushedBack(c, x, cap)
    case PopFront => if c == [] then r == Element(Throw(CbPopEmpty)) && d == c
                     else r == Element(Ok(c[0])) && d == c[1..]
    case PopBack => if c == [] then r == Element(Throw(CbPopEmpty)) && d == c
                    else r == Element(Ok(c[|c| - 1])) && d == c[..|c| - 1]
    case Get(i) => r == Element(if i < |c| then Ok(c[i]) else Throw(CbOob)) && d == c
    case Clear => r == Nil && d == []
    case First(x) => r == Number(FindFirst(c, x)) && d == c
    case Last(x) => r == Number(FindLast(c, x)) && d == c
    case HowMany(x) => r == Number(Count(c, x)) && d == c
    case DropTo(x, inclusive) =>
      var i := FindFirst(c, x);
      r == Nil && d == if inclusive && i < |c| then c[i + 1..] else c[i..]
    case DropBackTo(x, inclusive) =>
      var i := FindLast(c, x);
      r == Nil && d == if i == |c| then [] else if inclusive then c[..i] else c[..i + 1]
    case PushBlock(bs) => r == Nil && d == PushedAll(c, bs, cap)
    case PopBlock(most) => r.Bytes? && |r.bs| <= most && (c != [] && 0 < most ==> 0 < |r.bs|)
                           && |r.bs| <= |c| && r.bs == c[..|r.bs|] && d == c[|r.bs|..]
    case DropBlock => r.Number? && r.n <= |c| && (c != [] ==> 0 < r.n) && d == c[r.n..]
    case Resynchronise(start, end) => r == Number(Reported(c, start, end)) && d == Clean(c, start, end)
  }

  method Apply(ring: CircularBuffer, op: RingOp) returns (r: RingResult)
    requires ring.Valid()
    modifies ring, ring.buffer
    ensures ring.Valid() && ring.Outside() == old(ring.Outside()) && 0 < ring.capacity
    ensures RingStep(op, old(ring.Contents()), r, ring.Contents(), ring.capacity)
  {
    r := Nil;
    hide FindFirst, FindLast, Count, PushedAll, PushedBack, PushedFront, CircularBuffer.Contents;
    match op {
      case PushFront(x) => ring.PushFront(x);
      case PushBack(x) => ring.PushBack(x);
      case PopFront =>
        var e := ring.PopFront();
        r := Element(e);
      case PopBack =>
        var e := ring.PopBack();
        r := Element(e);
      case Get(i) =>
        var e := ring.GetElement(i);
        r := Element(e);
      case Clear => ring.Clear();
      case First(x) =>
        var n := ring.FindFirstElement(x);
        r := Number(n);
      case Last(x) =>
        var n := ring.FindLastElement(x);
        r := Number(n);
      case HowMany(x) =>
        var n := ring.CountElement(x);
        r := Number(n);
      case DropTo(x, inclusive) => ring.RemoveFrontTo(x, inclusive);
      case DropBackTo(x, inclusive) => ring.RemoveBackTo(x, inclusive);
      case _ => r := ApplyBlock(ring, op);
    }
  }

  method PopBlockBytes(ring: CircularBuffer, most: nat) returns (bs: seq<byte>)
    requires ring.Valid()
    modifies ring
    ensures ring.Valid() && |bs| <= most && |bs| <= old(ring.size)
    ensures old(ring.size) > 0 && most > 0 ==> 0 < |bs|
    ensures bs == old(ring.Contents())[..|bs|] && ring.Contents() == old(ring.Contents())[|bs|..]
  {
    ghost var limit := ring.FirstBlockSize();
    assert limit <= ring.size && (0 < ring.size ==> 0 < limit);
    hide *;
    var a := new byte[most];
    var n := ring.PopFrontBlock(a);
    bs := a[..n];
  }

  method ApplyBlock(ring: CircularBuffer, op: RingOp) returns (r: RingResult)
    requires ring.Valid() && (op.PushBlock? || op.PopBlock? || op.DropBlock? || op.Resynchronise?)
    modifies ring, ring.buffer
    ensures ring.Valid() && ring.Outside() == old(ring.Outside()) && 0 < ring.capacity
    ensures RingStep(op, old(ring.Contents()), r, ring.Contents(), ring.capacity)
  {
    r := Nil;
    hide FindFirst, FindLast, Count, PushedAll, PushedBack, PushedFront, Clean, Reported, CircularBuffer.Contents;
    match op {
      case PushBlock(bs) => ring.PushBackBlock(bs);
      case PopBlock(most) =>
        var bs := PopBlockBytes(ring, most);
        r := Bytes(bs);
      case DropBlock =>
        var n := ring.DeleteFirstBlock();
        r := Number(n);
      case Resynchronise(start, end) =>
        var n := ring.RemoveFrontUnfinishedFrames(start, end);
        r := Number(n);
    }
  }

  /** A run of the operations on sequences, through the contents cs. */
  predicate RingRun(ops: seq<RingOp>, rs: seq<RingResult>, cs: seq<seq<byte>>, cap: nat) {
    && |rs| == |ops| && |cs| == |ops| + 1 && 0 < cap
    && (forall i :: 0 <= i < |cs| ==> |cs[i]| <= cap)
    && forall i :: 0 <= i < |ops| ==> RingStep(ops[i], cs[i], rs[i], cs[i + 1], cap)
  }

  lemma RunStarts(c: seq<byte>, cap: nat)
    requires |c| <= cap && 0 < cap
    ensures RingRun([], [], [c], cap)
  {
  }

  lemma RunExtends(ops: seq<RingOp>, i: nat, rs: seq<RingResult>, cs: seq<seq<byte>>, r: RingResult, d: seq<byte>,
                   cap: nat)
    requires i < |ops| && RingRun(ops[..i], rs, cs, cap) && |cs| == i + 1 && |cs[i]| <= cap && |d| <= cap && 0 < cap
    requires RingStep(ops[i], cs[i], r, d, cap)
    ensures RingRun(ops[..i + 1], rs + [r], cs + [d], cap)
  {
    hide RingStep;
  }

  /**
   * Every sequence of operations on a ring of any power-of-two capacity gives what the same operations give on a
   * sequence of at most that length, and leaves the rest of the array alone.
   */
  method ApplyAll(ring: CircularBuffer, ops: seq<RingOp>) returns (rs: seq<RingResult>, ghost cs: seq<seq<byte>>)
    requires ring.Valid()
    modifies ring, ring.buffer
    ensures ring.Valid() && ring.Outside() == old(ring.Outside())
    ensures ring.iStop == (ring.iStart + ring.size) % ring.capacity && ring.size <= ring.capacity
    ensures RingRun(ops, rs, cs, ring.capacity)
    ensures cs[0] == old(ring.Contents()) && cs[|ops|] == ring.Contents()
  {
    rs, cs := [], [ring.Contents()];
    ring.StopIsModulus();
    RunStarts(ring.Contents(), ring.capacity);
    assert ring.base + ring.capacity <= ring.buffer.Length && 0 < ring.capacity && ops[..0] == [];
    hide *;
    for i := 0 to |ops|
      invariant ring.Valid() && ring.Outside() == old(ring.Outside())
      invariant RingRun(ops[..i], rs, cs, ring.capacity)
      invariant cs[0] == old(ring.Contents()) && cs[i] == ring.Contents()
    {
      var r := Apply(ring, ops[i]);
      RunExtends(ops, i, rs, cs, r, ring.Contents(), ring.capacity);
      rs, cs := rs + [r], cs + [ring.Contents()];
    }
    assert ops[..|ops|] == ops;
    ring.StopIsModulus();
  }
}
