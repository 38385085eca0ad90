// The device (ascii_serial_com_device.c): one message is decoded and handed to a handler, or answered with an error.

module Device {
  import opened AscException
  import opened Mask
  import opened Sequences
  import opened CircularBuffers
  import opened Frames
  import opened Encoding
  import opened SerialCom
  import opened Registers

  const STREAMING_ON: byte := 0x6E   // 'n'
  const STREAMING_OFF: byte := 0x66  // 'f'
  const NOOP: byte := 0x7A           // 'z'

  /** Which handlers are set; the handler of 's' messages is null, as in the device macros. */
  datatype Config = Config(handlesRw: bool, regs: Option<RegisterMap>, handlesNf: bool)

  /** The two rings, where in its array the output ring starts, the stored message, the registers and the flag. */
  datatype DeviceState = DeviceState(
    input: seq<byte>, output: seq<byte>, front: nat, slot: SlotValue, mem: seq<word32>, streaming: bool)

  predicate Fitting(cfg: Config, s: DeviceState) {
    && |s.input| <= MAXMESSAGELEN && |s.output| <= MAXMESSAGELEN && s.front < MAXMESSAGELEN && IsRequest(s.slot)
    && (cfg.regs.Some? ==> MapFits(cfg.regs.value, |s.mem|))
  }

  /** What a stored message leads to: nothing, a message to encode or a throw; and what the handler changes. */
  datatype Dispatched = Dispatched(answer: Option<Result<Message>>, data: seq<byte>, mem: seq<word32>, streaming: bool)

  function NotImplemented(s: SlotValue): Message
    requires IsRequest(s)
  {
    ErrorReply(SlotMessage(s), CommandNotImplemented)
  }

  function Dispatch(cfg: Config, mem: seq<word32>, streaming: bool, s: SlotValue): (d: Dispatched)
    requires IsRequest(s) && (cfg.regs.Some? ==> MapFits(cfg.regs.value, |mem|))
    ensures |d.data| == |s.data| && |d.mem| == |mem|
  {
    if s.command == 0 || s.command == NOOP then Dispatched(None, s.data, mem, streaming)
    else if (s.command == READ || s.command == WRITE) && cfg.handlesRw then
      var h := Handle(cfg.regs, mem, s);
      Dispatched(Some(h.answer), h.data, h.mem, streaming)
    else if (s.command == STREAMING_ON || s.command == STREAMING_OFF) && cfg.handlesNf then
      Dispatched(None, s.data, mem, s.command == STREAMING_ON)
    else Dispatched(Some(Ok(NotImplemented(s))), s.data, mem, streaming)
  }

  /** The output buffer's contents and front after the answer. */
  function Conclude(answer: Option<Result<Message>>, s: DeviceState): Stepped
    requires |s.output| <= MAXMESSAGELEN
  {
    match answer
    case None => Stepped(Done, s)
    case Some(a) =>
      var (status, out) := Encoded(a, s.output);
      Stepped(status, s.(output := out, front := FrontAfterAnswer(a, s.front, |s.output|)))
  }

  datatype Stepped = Stepped(status: Status, state: DeviceState)

  /** The part of device_receive that follows a decoding without a throw. */
  function Dispatching(cfg: Config, s: DeviceState): Stepped
    requires Fitting(cfg, s)
  {
    var d := Dispatch(cfg, s.mem, s.streaming, s.slot);
    Conclude(d.answer, s.(slot := s.slot.(data := d.data), mem := d.mem, streaming := d.streaming))
  }

  /** device_receive: decode, and unless that threw, dispatch. */
  function DeviceStep(cfg: Config, s: DeviceState): Stepped
    requires Fitting(cfg, s)
  {
    RestShrinks(s.input);
    var status := StatusOf(Receive(s.input).outcome);
    var t := s.(input := Receive(s.input).rest, slot := Store(s.slot, BoundedOutcome(s.input)));
    if status.Threw? then Stepped(status, t) else Dispatching(cfg, t)
  }

  /** What device_receive answers, if it answers. */
  function Answer(cfg: Config, s: DeviceState): Option<Result<Message>>
    requires Fitting(cfg, s)
  {
    var t := Store(s.slot, BoundedOutcome(s.input));
    if StatusOf(Receive(s.input).outcome).Threw? then None else Dispatch(cfg, s.mem, s.streaming, t).answer
  }

  predicate AnswerInReach(answer: Option<Result<Message>>, s: DeviceState) {
    answer.Some? && answer.value.Ok? ==> WithinReach(s.front, |s.output|, answer.value.value)
  }

  /** Does get_blocks reach the answer's frame, if it fits? */
  predicate InReach(cfg: Config, s: DeviceState)
    requires Fitting(cfg, s)
  {
    AnswerInReach(Answer(cfg, s), s)
  }

  // ---- Answers can be sent ----

  /** What the decoder stores is no message, or one that a frame can carry. */
  lemma StoredSendable(s: SlotValue, c: seq<byte>)
    requires MAXDATALEN <= |s.data| && StatusOf(Receive(c).outcome).Done?
    ensures var t := Store(s, BoundedOutcome(c));
      IsRequest(t) && (t.command == 0 || (Receive(c).outcome == Delivered(SlotMessage(t)) && Sendable(SlotMessage(t))))
  {
    var o := BoundedOutcome(c);
    var t := Store(s, o);
    hide Receive, Sendable;
    if o.Delivered? {
      assert t.data[..t.dataLen] == o.m.data;
      assert SlotMessage(t) == o.m;
      DeliveredIsFrame(c, o.m);
    }
  }

  /** Whatever the decoder delivers, the answer is a message that a frame can carry. */
  lemma DispatchSendable(cfg: Config, mem: seq<word32>, streaming: bool, s: SlotValue)
    requires IsRequest(s) && (cfg.regs.Some? ==> MapFits(cfg.regs.value, |mem|))
    requires s.command == 0 || Sendable(SlotMessage(s))
    ensures var answer := Dispatch(cfg, mem, streaming, s).answer;
      answer.Some? && answer.value.Ok? ==> Sendable(answer.value.value)
  {
    hide Handle, Sendable, ErrorReply, SlotMessage;
    if s.command != 0 {
      HandleSendable(cfg.regs, mem, s);
      ErrorReplySendable(SlotMessage(s), CommandNotImplemented);
    }
  }

  lemma StepCases(cfg: Config, s: DeviceState)
    requires Fitting(cfg, s)
    ensures var status := StatusOf(Receive(s.input).outcome);
      var t := s.(input := Receive(s.input).rest, slot := Store(s.slot, BoundedOutcome(s.input)));
      && (status.Threw? ==> DeviceStep(cfg, s) == Stepped(status, t) && Answer(cfg, s) == None)
      && t.slot.dataLen <= |t.slot.data|
      && (status.Done? ==>
            && Fitting(cfg, t) && DeviceStep(cfg, s) == Dispatching(cfg, t)
            && Answer(cfg, s) == Dispatch(cfg, t.mem, t.streaming, t.slot).answer
            && (t.slot.command == 0 || Sendable(SlotMessage(t.slot))))
  {
    hide Receive, Dispatching, Dispatch, Sendable;
    RestShrinks(s.input);
    if StatusOf(Receive(s.input).outcome).Done? {
      StoredSendable(s.slot, s.input);
    }
  }

  /** The error reply to a command without a handler, encoded. */
  function Refusing(s: DeviceState): Stepped
    requires IsRequest(s.slot) && |s.output| <= MAXMESSAGELEN
  {
    var m := NotImplemented(s.slot);
    Stepped(Put(s.output, m).0, s.(output := Put(s.output, m).1, front := FrontAfterPut(s.front, |s.output|, m)))
  }

  lemma NothingCase(cfg: Config, s: DeviceState)
    requires Fitting(cfg, s) && (s.slot.command == 0 || s.slot.command == NOOP)
    ensures Dispatching(cfg, s) == Stepped(Done, s) && Dispatch(cfg, s.mem, s.streaming, s.slot).answer == None
  {
    hide MapFits;
  }

  lemma RwCase(cfg: Config, s: DeviceState)
    requires Fitting(cfg, s) && (s.slot.command == READ || s.slot.command == WRITE) && cfg.handlesRw
    ensures var h := Handle(cfg.regs, s.mem, s.slot);
      && Dispatch(cfg, s.mem, s.streaming, s.slot).answer == Some(h.answer)
      && Dispatching(cfg, s) == Conclude(Some(h.answer), s.(slot := s.slot.(data := h.data), mem := h.mem))
      && (AnswerInReach(Dispatch(cfg, s.mem, s.streaming, s.slot).answer, s) ==> AnswerInReach(Some(h.answer), s))
  {
    assert READ != 0 && READ != NOOP && WRITE != 0 && WRITE != NOOP;
    hide Handle, Conclude, AnswerInReach, MapFits;
  }

  lemma StreamingCase(cfg: Config, s: DeviceState)
    requires Fitting(cfg, s) && cfg.handlesNf && (s.slot.command == STREAMING_ON || s.slot.command == STREAMING_OFF)
    ensures Dispatching(cfg, s) == Stepped(Done, s.(streaming := s.slot.command == STREAMING_ON))
    ensures Dispatch(cfg, s.mem, s.streaming, s.slot).answer == None
  {
    assert STREAMING_ON != 0 && STREAMING_OFF != 0;
    hide MapFits;
  }

  lemma RefusedCase(cfg: Config, s: DeviceState)
    requires Fitting(cfg, s) && s.slot.command != 0 && !HasHandler(cfg, s.slot.command)
    ensures Dispatching(cfg, s) == Refusing(s)
    ensures Dispatch(cfg, s.mem, s.streaming, s.slot).answer == Some(Ok(NotImplemented(s.slot)))
    ensures AnswerInReach(Dispatch(cfg, s.mem, s.streaming, s.slot).answer, s)
      ==> WithinReach(s.front, |s.output|, NotImplemented(s.slot))
  {
    hide Put, NotImplemented, FrontAfterPut, WithinReach, MapFits;
  }

  /** Is there a case for the command, with its handler set? */
  predicate HasHandler(cfg: Config, command: byte) {
    || command == NOOP
    || ((command == READ || command == WRITE) && cfg.handlesRw)
    || ((command == STREAMING_ON || command == STREAMING_OFF) && cfg.handlesNf)
  }

  lemma RefuseIs(s: SlotValue)
    requires IsRequest(s)
    ensures NotImplemented(s)
      == ErrorReply(Message(s.ascVersion, s.appVersion, s.command, s.data[..s.dataLen]), CommandNotImplemented)
  {
    hide ErrorReply;
  }

  /** What decoding adds up to: a throw, or a state to dispatch on with an answer that is within reach. */
  lemma Decoded(cfg: Config, s: DeviceState, status: Status, t: DeviceState)
    requires Fitting(cfg, s) && InReach(cfg, s) && s.slot.dataLen <= MAXDATALEN
    requires status == StatusOf(Receive(s.input).outcome)
    requires t == s.(input := Receive(s.input).rest, slot := Store(s.slot, BoundedOutcome(s.input)))
    ensures t.slot.dataLen <= MAXDATALEN
    ensures status.Threw? ==> Stepped(status, t) == DeviceStep(cfg, s)
    ensures status.Done? ==> Fitting(cfg, t) && DeviceStep(cfg, s) == Dispatching(cfg, t)
    ensures status.Done? ==> AnswerInReach(Dispatch(cfg, t.mem, t.streaming, t.slot).answer, t)
  {
    StepCases(cfg, s);
    hide Receive, Answer, Dispatch, Dispatching, DeviceStep, WithinReach, MapFits;
  }

  lemma RwResult(s: DeviceState, h: Handled, status: Status, t: DeviceState)
    requires |s.output| <= MAXMESSAGELEN && (status, t.output) == Encoded(h.answer, s.output)
    requires t.front == FrontAfterAnswer(h.answer, s.front, |s.output|)
    requires t.input == s.input && t.slot == s.slot.(data := h.data) && t.mem == h.mem && t.streaming == s.streaming
    ensures Stepped(status, t) == Conclude(Some(h.answer), s.(slot := s.slot.(data := h.data), mem := h.mem))
  {
    hide Encoded, FrontAfterAnswer;
  }

  lemma RefusedResult(s: DeviceState, status: Status, t: DeviceState)
    requires IsRequest(s.slot) && |s.output| <= MAXMESSAGELEN
    requires (status, t.output) == Put(s.output, NotImplemented(s.slot))
    requires t.front == FrontAfterPut(s.front, |s.output|, NotImplemented(s.slot))
    requires t.input == s.input && t.slot == s.slot && t.mem == s.mem && t.streaming == s.streaming
    ensures Stepped(status, t) == Refusing(s)
  {
    hide Put, NotImplemented, FrontAfterPut;
  }

  /** The register handler without a state. */
  lemma NullState(s: DeviceState)
    requires IsRequest(s.slot) && |s.output| <= MAXMESSAGELEN
    ensures var m := ErrorReply(Message(s.slot.ascVersion, s.slot.appVersion, s.slot.command,
                                        s.slot.data[..s.slot.dataLen]), RegBlockNull);
      var h := Handle(None, [], s.slot);
      && h == Handled(Ok(m), s.slot.data, []) && Encoded(h.answer, s.output) == Put(s.output, m)
      && FrontAfterAnswer(h.answer, s.front, |s.output|) == FrontAfterPut(s.front, |s.output|, m)
  {
    HandleCases(None, [], s.slot);
    hide Handle, Put, FrontAfterPut, ErrorReply;
  }

  // ---- The device object ----

  /** The flag that the handler of 'n' and 'f' messages sets and clears. */
  class StreamingFlag {
    var on: bool

    constructor ()
      ensures !on
    {
      on := false;
    }
  }

  datatype DeviceConfig =
    DeviceConfig(funcRw: bool, stateRw: RegisterPointers?, funcNf: bool, stateNf: StreamingFlag)

  function ConfigOf(config: DeviceConfig): Config {
    Config(config.funcRw, MapOf(config.stateRw), config.funcNf)
  }

  class AsciiSerialComDevice {
    const asc: AsciiSerialCom
    const slot: MessageSlot
    const config: DeviceConfig

    ghost predicate Valid()
      reads this, asc, asc.inBuf, asc.outBuf
    {
      asc.Valid() && slot.data != asc.rawBuffer && slot.data.Length == MAXDATALEN && StateFits(config.stateRw)
    }

    ghost function Value(): DeviceState
      requires Valid()
      reads this, asc, asc.inBuf, asc.outBuf, asc.rawBuffer, slot, slot.data, Cells(config.stateRw), config.stateNf
    {
      DeviceState(asc.inBuf.Contents(), asc.outBuf.Contents(), asc.outBuf.iStart, slot.Value(),
                  MemoryOf(config.stateRw), config.stateNf.on)
    }

    constructor (config: DeviceConfig)
      requires StateFits(config.stateRw)
      ensures Valid() && fresh(asc) && fresh(asc.inBuf) && fresh(asc.outBuf) && fresh(asc.rawBuffer)
      ensures fresh(slot) && fresh(slot.data) && this.config == config && !asc.ignoreCrcMismatch
      ensures asc.inBuf.Contents() == [] && asc.outBuf.Contents() == [] && asc.outBuf.iStart == 0
      ensures slot.command == 0 && slot.dataLen == 0
    {
      asc := new AsciiSerialCom();
      slot := new MessageSlot();
      this.config := config;
    }

    /** device_receive, unless get_blocks would go astray on the answer's frame. */
    method DeviceReceive() returns (status: Status)
      requires Valid() && !asc.ignoreCrcMismatch && slot.dataLen <= MAXDATALEN
      requires InReach(ConfigOf(config), Value())
      modifies asc.inBuf, asc.outBuf, asc.rawBuffer, slot, slot.data, Cells(config.stateRw), config.stateNf
      ensures Valid() && slot.dataLen <= MAXDATALEN
      ensures Stepped(status, Value()) == DeviceStep(ConfigOf(config), old(Value()))
    {
      ghost var s := Value();
      assert Fitting(ConfigOf(config), s);
      SlotIs();
      assert asc.Valid() && MAXDATALEN <= slot.data.Length && slot.data != asc.rawBuffer;
      hide *;
      status := asc.GetMessage(slot);
      SlotIs();
      Decoded(ConfigOf(config), s, status, Value());
      if status.Threw? {
        return;
      }
      status := HandleStored();
    }

    /** The dispatch on the stored command. */
    method HandleStored() returns (status: Status)
      requires Valid() && slot.dataLen <= MAXDATALEN
      requires AnswerInReach(Dispatch(ConfigOf(config), Value().mem, Value().streaming, Value().slot).answer, Value())
      modifies asc.outBuf, asc.rawBuffer, slot.data, Cells(config.stateRw), config.stateNf
      ensures Valid()
      ensures Stepped(status, Value()) == Dispatching(ConfigOf(config), old(Value()))
    {
      ghost var cfg, s := ConfigOf(config), Value();
      assert Fitting(cfg, s) && s.slot.command == slot.command;
      assert cfg.handlesRw == config.funcRw && cfg.handlesNf == config.funcNf;
      hide *;
      status := Done;
      if slot.command == 0 { // no message in the input buffer
        NothingCase(cfg, s);
      } else if slot.command == READ || slot.command == WRITE {
        if config.funcRw {
          RwCase(cfg, s);
          status := HandleRw();
        } else {
          RefusedCase(cfg, s);
          status := Refuse();
        }
      } else if slot.command == STREAM_COMMAND {
        RefusedCase(cfg, s);
        status := Refuse(); // its handler is null
      } else if slot.command == STREAMING_ON || slot.command == STREAMING_OFF {
        if config.funcNf {
          StreamingCase(cfg, s);
          HandleStreaming(slot.command);
          SlotIs();
        } else {
          RefusedCase(cfg, s);
          status := Refuse();
        }
      } else if slot.command == NOOP {
        NothingCase(cfg, s);
      } else {
        RefusedCase(cfg, s);
        status := Refuse();
      }
    }

    lemma SlotIs()
      requires Valid()
      ensures slot.Value() == SlotValue(slot.ascVersion, slot.appVersion, slot.command, slot.data[..], slot.dataLen)
      ensures Value() == DeviceState(asc.inBuf.Contents(), asc.outBuf.Contents(), asc.outBuf.iStart, slot.Value(),
                                     MemoryOf(config.stateRw), config.stateNf.on)
      ensures asc.outBuf.size == |asc.outBuf.Contents()|
    {
      hide CircularBuffer.Contents, WithinReach;
    }

    /** The register handler, called on what the decoder stored. */
    method HandleRw() returns (status: Status)
      requires Valid() && slot.dataLen <= MAXDATALEN
      requires AnswerInReach(Some(Handle(MapOf(config.stateRw), Value().mem, Value().slot).answer), Value())
      modifies asc.outBuf, asc.rawBuffer, slot.data, Cells(config.stateRw)
      ensures Valid()
      ensures var s := old(Value());
        var h := Handle(MapOf(config.stateRw), s.mem, s.slot);
        Stepped(status, Value()) == Conclude(Some(h.answer), s.(slot := s.slot.(data := h.data), mem := h.mem))
    {
      ghost var s := Value();
      ghost var h := Handle(MapOf(config.stateRw), s.mem, s.slot);
      HandlerReaches();
      SlotIs();
      NullState(s);
      RwState();
      assert s.slot.data[..slot.dataLen] == slot.data[..slot.dataLen];
      hide *;
      status := HandleMessage(asc, slot.ascVersion, slot.appVersion, slot.command, slot.data, slot.dataLen,
                              config.stateRw);
      SlotIs();
      RwResult(s, h, status, Value());
    }

    lemma RwState()
      ensures config.stateRw == null ==> MapOf(config.stateRw) == None && MemoryOf(config.stateRw) == []
      ensures config.stateRw != null ==>
        MapOf(config.stateRw) == Some(config.stateRw.regs) && MemoryOf(config.stateRw) == config.stateRw.memory[..]
    {
    }

    lemma HandlerReaches()
      requires Valid() && slot.dataLen <= MAXDATALEN
      requires AnswerInReach(Some(Handle(MapOf(config.stateRw), Value().mem, Value().slot).answer), Value())
      ensures MAXDATALEN <= slot.data.Length && slot.data != asc.rawBuffer && asc.Valid()
      ensures var h := Handle(MapOf(config.stateRw), MemoryOf(config.stateRw),
                              SlotValue(slot.ascVersion, slot.appVersion, slot.command, slot.data[..], slot.dataLen));
        h.answer.Ok? ==> asc.Reaches(h.answer.value)
    {
      hide WithinReach, Handle, CircularBuffer.Contents;
      SlotIs();
    }

    /** The reply to a command that has no handler. */
    method Refuse() returns (status: Status)
      requires Valid() && slot.dataLen <= MAXDATALEN
      requires WithinReach(Value().front, |Value().output|, NotImplemented(Value().slot))
      modifies asc.outBuf, asc.rawBuffer
      ensures Valid()
      ensures Stepped(status, Value()) == Refusing(old(Value()))
    {
      ghost var s := Value();
      RefusalReaches();
      SlotIs();
      hide *;
      status := asc.PutError(slot.ascVersion, slot.appVersion, slot.command, slot.data, slot.dataLen,
                             CommandNotImplemented);
      SlotIs();
      RefusedResult(s, status, Value());
    }

    lemma RefusalReaches()
      requires Valid() && slot.dataLen <= MAXDATALEN
      requires WithinReach(Value().front, |Value().output|, NotImplemented(Value().slot))
      ensures slot.data != asc.rawBuffer && asc.Valid() && slot.dataLen <= slot.data.Length
      ensures IsRequest(slot.Value())
      ensures var m := ErrorReply(Message(slot.ascVersion, slot.appVersion, slot.command, slot.data[..slot.dataLen]),
                                  CommandNotImplemented);
        NotImplemented(slot.Value()) == m && asc.Reaches(m)
    {
      hide WithinReach, ErrorReply, CircularBuffer.Contents;
      SlotIs();
      RefuseIs(slot.Value());
      assert slot.Value().data[..slot.dataLen] == slot.data[..slot.dataLen];
    }

    /** The handler of 'n' and 'f' messages. */
    method HandleStreaming(command: byte)
      modifies config.stateNf
      ensures config.stateNf.on
        == if command == STREAMING_ON then true else if command == STREAMING_OFF then false else old(config.stateNf.on)
    {
      if command == STREAMING_ON {
        config.stateNf.on := true;
      } else if command == STREAMING_OFF {
        config.stateNf.on := false;
      }
    }
  }
}
