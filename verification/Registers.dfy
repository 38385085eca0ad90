// Masked access to registers behind a table of pointers (ascii_serial_com_register_pointers.c).

module Registers {
  import opened AscException
  import opened Sequences
  import opened Hex
  import opened Frames
  import opened Encoding
  import opened SerialCom

  const REGWIDTHBYTES: nat := 4
  const READ: byte := 0x72   // 'r'
  const WRITE: byte := 0x77  // 'w'

  type word32 = bv32

  /** Register n is the memory cell pointers[n], or null. */
  datatype RegisterMap = RegisterMap(pointers: seq<Option<nat>>, writeMasks: seq<word32>, nRegs: nat)

  predicate MapFits(regs: RegisterMap, size: nat) {
    && regs.nRegs <= 0xFFFF && regs.nRegs <= |regs.pointers| && regs.nRegs <= |regs.writeMasks|
    && forall n :: 0 <= n < regs.nRegs && regs.pointers[n].Some? ==> regs.pointers[n].value < size
  }

  /** No two registers share a cell. */
  predicate NoAlias(regs: RegisterMap)
    requires regs.nRegs <= |regs.pointers|
  {
    forall i, j :: 0 <= i < j < regs.nRegs && regs.pointers[i].Some? ==> regs.pointers[i] != regs.pointers[j]
  }

  /** A word after a masked write. */
  function Masked(was: word32, value: word32, mask: word32): word32 {
    (value & mask) | (was & !mask)
  }

  /** Any bits that lie in the mask come from the value, any bits that lie outside it from the old word. */
  lemma MaskedBits(was: word32, value: word32, mask: word32, bits: word32)
    ensures bits & mask == bits ==> Masked(was, value, mask) & bits == value & bits
    ensures bits & mask == 0 ==> Masked(was, value, mask) & bits == was & bits
  {
  }

  lemma MaskedTwice(was: word32, v: word32, w: word32, mask: word32)
    ensures Masked(Masked(was, v, mask), w, mask) == Masked(was, w, mask)
  {
    var once := Masked(was, v, mask);
    hide *;
    MaskedValue(was, v, mask);
    MaskedValue(once, w, mask);
    MaskedValue(was, w, mask);
    TwiceRaw(was, v, w, mask, once, Masked(once, w, mask));
  }

  lemma TwiceRaw(was: word32, v: word32, w: word32, mask: word32, once: word32, twice: word32)
    requires once == (v & mask) | (was & !mask) && twice == (w & mask) | (once & !mask)
    ensures twice == (w & mask) | (was & !mask)
  {
  }

  lemma MaskedValue(was: word32, value: word32, mask: word32)
    ensures Masked(was, value, mask) == (value & mask) | (was & !mask)
    ensures Masked(was, value, mask) & !mask == was & !mask
  {
  }

  /** A masked write, with its operators written out. */
  lemma MaskedWrite(mem: seq<word32>, cell: nat, value: word32, mask: word32)
    requires cell < |mem|
    ensures mem[cell := Masked(mem[cell], value, mask)] == mem[cell := (value & mask) | (mem[cell] & !mask)]
  {
    var was := mem[cell];
    hide *;
    MaskedValue(was, value, mask);
  }

  // ---- What a request asks for ----

  datatype Decision =
    | Refused(error: Error)                       // an error reply
    | Failed(error: Error)                        // a throw, without a reply
    | Reads(n: nat)
    | Writes(n: nat, value: Option<word32>)       // no value for a null pointer: it is not parsed

  /** The arguments of a handler: what get_message stored, in a buffer of at least MAXDATALEN bytes. */
  predicate IsRequest(s: SlotValue) {
    MAXDATALEN <= |s.data| && s.dataLen <= |s.data|
  }

  function RegNum(num: bv16): (n: nat)
    ensures n <= 0xFFFF
  {
    num as nat
  }

  lemma RegNumValue(num: bv16)
    ensures RegNum(num) == num as nat
  {
  }

  /** What a request asks of register n. */
  function DecideAccess(regs: RegisterMap, s: SlotValue, n: nat): (d: Decision)
    requires IsRequest(s) && n < regs.nRegs <= |regs.pointers|
    ensures d.Reads? || d.Writes? ==> d.n == n
  {
    if s.command == READ then Reads(n)
    else if s.dataLen < 5 + REGWIDTHBYTES then Refused(RegvalLen)
    else if regs.pointers[n].None? then Writes(n, None)
    else
      match Parse32(s.data[5..13])
      case Throw(e) => Failed(e)
      case Ok(v) => Writes(n, Some(v))
  }

  function Decide(regs: Option<RegisterMap>, s: SlotValue, size: nat): (d: Decision)
    requires IsRequest(s) && (regs.Some? ==> MapFits(regs.value, size))
    ensures d.Reads? || d.Writes? ==> regs.Some? && d.n < regs.value.nRegs
  {
    assert REGWIDTHBYTES == 4 && 13 <= |s.data|;
    assert regs.Some? ==> regs.value.nRegs <= |regs.value.pointers|;
    hide *;
    if regs.None? then Refused(RegBlockNull)
    else if s.command != READ && s.command != WRITE then Refused(UnexpectedCommand)
    else if s.dataLen < 4 then Refused(DataTooShort)
    else
      match Parse16(s.data[0..4])
      case Throw(e) => Failed(e)
      case Ok(num) =>
        if RegNum(num) >= regs.value.nRegs then Refused(RegnumOob) else DecideAccess(regs.value, s, RegNum(num))
  }

  function ReadValue(regs: RegisterMap, mem: seq<word32>, n: nat): word32
    requires MapFits(regs, |mem|) && n < regs.nRegs
  {
    match regs.pointers[n]
    case None => 0
    case Some(cell) => mem[cell]
  }

  function WriteValue(regs: RegisterMap, mem: seq<word32>, n: nat, value: Option<word32>): (r: seq<word32>)
    requires MapFits(regs, |mem|) && n < regs.nRegs
    ensures |r| == |mem|
  {
    match (regs.pointers[n], value)
    case (Some(cell), Some(v)) => mem[cell := Masked(mem[cell], v, regs.writeMasks[n])]
    case _ => mem
  }

  /** The register number as it came, and the value. */
  function ReadText(data: seq<byte>, value: word32): (t: seq<byte>)
    requires MAXDATALEN <= |data|
    ensures |t| == 13
  {
    data[..4] + [COMMA] + HexOf32(value, true)
  }

  /** A handled request: the message to encode or the error thrown, the data buffer and the memory. */
  datatype Handled = Handled(answer: Result<Message>, data: seq<byte>, mem: seq<word32>)

  function Do(regs: Option<RegisterMap>, mem: seq<word32>, s: SlotValue, d: Decision): (h: Handled)
    requires IsRequest(s) && (regs.Some? ==> MapFits(regs.value, |mem|))
    requires d.Reads? || d.Writes? ==> regs.Some? && d.n < regs.value.nRegs
    ensures |h.data| == |s.data| && |h.mem| == |mem|
  {
    match d
    case Refused(e) =>
      Handled(Ok(ErrorReply(SlotMessage(s), e)), s.data, mem)
    case Failed(e) => Handled(Throw(e), s.data, mem)
    case Reads(n) =>
      var text := ReadText(s.data, ReadValue(regs.value, mem, n));
      Handled(Ok(Message(s.ascVersion, s.appVersion, s.command, text)), Overwrite(s.data, text), mem)
    case Writes(n, value) =>
      Handled(Ok(Message(s.ascVersion, s.appVersion, s.command, s.data[..4])), s.data,
              WriteValue(regs.value, mem, n, value))
  }

  function Handle(regs: Option<RegisterMap>, mem: seq<word32>, s: SlotValue): (h: Handled)
    requires IsRequest(s) && (regs.Some? ==> MapFits(regs.value, |mem|))
    ensures |h.data| == |s.data| && |h.mem| == |mem|
  {
    Do(regs, mem, s, Decide(regs, s, |mem|))
  }

  function Access(regs: RegisterMap, mem: seq<word32>, s: SlotValue, n: nat): (h: Handled)
    requires IsRequest(s) && MapFits(regs, |mem|) && n < regs.nRegs
  {
    Do(Some(regs), mem, s, DecideAccess(regs, s, n))
  }

  /** The front of the output buffer after an answer was encoded, or its error thrown. */
  function FrontAfterAnswer(answer: Result<Message>, front: nat, size: nat): nat {
    match answer
    case Ok(m) => FrontAfterPut(front, size, m)
    case Throw(_) => front
  }

  function Encoded(answer: Result<Message>, out: seq<byte>): (Status, seq<byte>)
    requires |out| <= MAXMESSAGELEN
  {
    match answer
    case Ok(m) => Put(out, m)
    case Throw(e) => (Threw(e), out)
  }

  /** The state of the handler: the table, and the memory its pointers point into. */
  class RegisterPointers {
    const regs: RegisterMap
    const memory: array<word32>

    constructor (regs: RegisterMap, memory: array<word32>)
      requires MapFits(regs, memory.Length)
      ensures this.regs == regs && this.memory == memory
    {
      this.regs := regs;
      this.memory := memory;
    }
  }

  predicate StateFits(state: RegisterPointers?) {
    state != null ==> MapFits(state.regs, state.memory.Length)
  }

  function MapOf(state: RegisterPointers?): Option<RegisterMap> {
    if state == null then None else Some(state.regs)
  }

  ghost function Cells(state: RegisterPointers?): set<object> {
    if state == null then {} else {state.memory}
  }

  ghost function MemoryOf(state: RegisterPointers?): seq<word32>
    reads Cells(state)
  {
    if state == null then [] else state.memory[..]
  }

  function Refusal(mem: seq<word32>, s: SlotValue, e: Error): Handled
    requires IsRequest(s)
  {
    Handled(Ok(ErrorReply(SlotMessage(s), e)), s.data, mem)
  }

  lemma RefusalIs(mem: seq<word32>, s: SlotValue, e: Error)
    requires IsRequest(s)
    ensures Refusal(mem, s, e) == Handled(
              Ok(ErrorReply(Message(s.ascVersion, s.appVersion, s.command, s.data[..s.dataLen]), e)), s.data, mem)
  {
    hide ErrorReply;
  }

  lemma HandleCases(regs: Option<RegisterMap>, mem: seq<word32>, s: SlotValue)
    requires IsRequest(s) && (regs.Some? ==> MapFits(regs.value, |mem|))
    ensures var h, num := Handle(regs, mem, s), Parse16(s.data[0..4]);
      if regs.None? then h == Refusal(mem, s, RegBlockNull)
      else if s.command != READ && s.command != WRITE then h == Refusal(mem, s, UnexpectedCommand)
      else if s.dataLen < 4 then h == Refusal(mem, s, DataTooShort)
      else if num.Throw? then h == Handled(Throw(num.error), s.data, mem)
      else if RegNum(num.value) >= regs.value.nRegs then h == Refusal(mem, s, RegnumOob)
      else h == Access(regs.value, mem, s, RegNum(num.value))
  {
    hide Parse16, RegNum, ErrorReply, DecideAccess, ReadText, WriteValue, MapFits;
  }

  lemma EncodedCases(answer: Result<Message>, front: nat, out: seq<byte>)
    requires |out| <= MAXMESSAGELEN
    ensures answer.Ok? ==> Encoded(answer, out) == Put(out, answer.value)
    ensures answer.Ok? ==> FrontAfterAnswer(answer, front, |out|) == FrontAfterPut(front, |out|, answer.value)
    ensures answer.Throw? ==> Encoded(answer, out) == (Threw(answer.error), out)
    ensures answer.Throw? ==> FrontAfterAnswer(answer, front, |out|) == front
  {
    hide Put, FrontAfterPut;
  }

  /** handle_message: the answer of Handle is encoded, or its error thrown. */
  method HandleMessage(asc: AsciiSerialCom, ascVersion: byte, appVersion: byte, command: byte,
                       data: array<byte>, dataLen: nat, state: RegisterPointers?) returns (status: Status)
    requires asc.Valid() && data != asc.rawBuffer && MAXDATALEN <= data.Length && dataLen <= data.Length
    requires StateFits(state)
    requires state == null ==>
      asc.Reaches(ErrorReply(Message(ascVersion, appVersion, command, data[..dataLen]), RegBlockNull))
    requires state != null ==>
      var h := Handle(Some(state.regs), state.memory[..], SlotValue(ascVersion, appVersion, command, data[..], dataLen));
      h.answer.Ok? ==> asc.Reaches(h.answer.value)
    modifies asc.outBuf, asc.rawBuffer, data, Cells(state)
    ensures asc.Valid() && asc.inBuf.Contents() == old(asc.inBuf.Contents())
    ensures state == null ==>
      var reply := ErrorReply(Message(ascVersion, appVersion, command, old(data[..dataLen])), RegBlockNull);
      && data[..] == old(data[..])
      && (status, asc.outBuf.Contents()) == Put(old(asc.outBuf.Contents()), reply)
      && asc.outBuf.iStart == FrontAfterPut(old(asc.outBuf.iStart), old(asc.outBuf.size), reply)
    ensures state != null ==>
      var h := Handle(Some(state.regs), old(state.memory[..]),
                      SlotValue(ascVersion, appVersion, command, old(data[..]), dataLen));
      && data[..] == h.data && state.memory[..] == h.mem
      && (status, asc.outBuf.Contents()) == Encoded(h.answer, old(asc.outBuf.Contents()))
      && asc.outBuf.iStart == FrontAfterAnswer(h.answer, old(asc.outBuf.iStart), old(asc.outBuf.size))
  {
    ghost var s := SlotValue(ascVersion, appVersion, command, data[..], dataLen);
    ghost var m := Message(ascVersion, appVersion, command, data[..dataLen]);
    ghost var out := asc.outBuf.Contents();
    assert s.data[..dataLen] == data[..dataLen] && s.data[0..4] == data[0..4];
    hide *;
    if state == null {
      status := asc.PutError(ascVersion, appVersion, command, data, dataLen, RegBlockNull);
      return;
    }
    ghost var mem := state.memory[..];
    HandleCases(Some(state.regs), mem, s);
    RefusalIs(mem, s, UnexpectedCommand);
    RefusalIs(mem, s, DataTooShort);
    RefusalIs(mem, s, RegnumOob);
    EncodedCases(Handle(Some(state.regs), mem, s).answer, asc.outBuf.iStart, out);
    if command != READ && command != WRITE {
      status := asc.PutError(ascVersion, appVersion, command, data, dataLen, UnexpectedCommand);
      return;
    }
    if dataLen < 4 {
      status := asc.PutError(ascVersion, appVersion, command, data, dataLen, DataTooShort);
      return;
    }
    var num :- ConvertHexToUint16(data, 0);
    var regNum := RegNum(num);
    if regNum >= state.regs.nRegs {
      status := asc.PutError(ascVersion, appVersion, command, data, dataLen, RegnumOob);
      return;
    }
    status := AccessRegister(asc, ascVersion, appVersion, command, data, dataLen, state, regNum);
  }

  /** The part of handle_message that reads or writes register regNum. */
  method AccessRegister(asc: AsciiSerialCom, ascVersion: byte, appVersion: byte, command: byte,
                        data: array<byte>, dataLen: nat, state: RegisterPointers, regNum: nat) returns (status: Status)
    requires asc.Valid() && data != asc.rawBuffer && MAXDATALEN <= data.Length && dataLen <= data.Length
    requires MapFits(state.regs, state.memory.Length) && regNum < state.regs.nRegs
    requires var h := Access(state.regs, state.memory[..], SlotValue(ascVersion, appVersion, command, data[..], dataLen), regNum);
      h.answer.Ok? ==> asc.Reaches(h.answer.value)
    modifies asc.outBuf, asc.rawBuffer, data, state.memory
    ensures asc.Valid() && asc.inBuf.Contents() == old(asc.inBuf.Contents())
    ensures var h := Access(state.regs, old(state.memory[..]),
                            SlotValue(ascVersion, appVersion, command, old(data[..]), dataLen), regNum);
      && data[..] == h.data && state.memory[..] == h.mem
      && (status, asc.outBuf.Contents()) == Encoded(h.answer, old(asc.outBuf.Contents()))
      && asc.outBuf.iStart == FrontAfterAnswer(h.answer, old(asc.outBuf.iStart), old(asc.outBuf.size))
  {
    ghost var s := SlotValue(ascVersion, appVersion, command, data[..], dataLen);
    ghost var mem, out := state.memory[..], asc.outBuf.Contents();
    assert s.data[..dataLen] == data[..dataLen] && s.data[..4] == data[..4] && s.data[5..13] == data[5..13];
    AccessCases(state.regs, mem, s, regNum);
    EncodedCases(Access(state.regs, mem, s, regNum).answer, asc.outBuf.iStart, out);
    var pointer := state.regs.pointers[regNum];
    assert pointer.Some? ==> pointer.value < state.memory.Length;
    assert regNum < |state.regs.writeMasks| && REGWIDTHBYTES == 4;
    hide *;
    var replyLen;
    if command == READ {
      var regVal: word32 := 0;
      if pointer.Some? {
        regVal := state.memory[pointer.value];
      }
      PutReadText(data, regVal);
      replyLen := 5 + REGWIDTHBYTES * 2;
    } else {
      if dataLen < 5 + REGWIDTHBYTES {
        status := asc.PutError(ascVersion, appVersion, command, data, dataLen, RegvalLen);
        return;
      }
      if pointer.Some? {
        :- StoreCell(state.memory, pointer.value, data, state.regs.writeMasks[regNum]);
      }
      replyLen := 4;
    }
    status := asc.PutMessage(ascVersion, appVersion, command, data, replyLen);
  }

  method MaskWord(was: word32, value: word32, mask: word32) returns (r: word32)
    ensures r == (value & mask) | (was & !mask) && r == Masked(was, value, mask)
  {
    r := (value & mask) | (was & !mask);
  }

  /** Parses the value behind the comma and stores its bits inside the mask. */
  method StoreParsed(memory: array<word32>, cell: nat, data: array<byte>, mask: word32)
      returns (status: Status, ghost stored: word32)
    requires cell < memory.Length && 13 <= data.Length
    modifies memory
    ensures match Parse32(data[5..13])
      case Throw(e) => status == Threw(e) && memory[..] == old(memory[..])
      case Ok(v) =>
        && status == Done && memory[..] == old(memory[..])[cell := stored]
        && stored == (v & mask) | (old(memory[cell]) & !mask) && stored == Masked(old(memory[cell]), v, mask)
  {
    hide Parse32, Masked;
    stored := 0;
    var newRegVal :- ConvertHexToUint32(data, 5);
    var newVal := MaskWord(memory[cell], newRegVal, mask);
    memory[cell] := newVal;
    stored := newVal;
    status := Done;
  }

  /** The same, in terms of the specification. */
  method StoreCell(memory: array<word32>, cell: nat, data: array<byte>, mask: word32) returns (status: Status)
    requires cell < memory.Length && 13 <= data.Length
    modifies memory
    ensures match Parse32(data[5..13])
      case Throw(e) => status == Threw(e) && memory[..] == old(memory[..])
      case Ok(v) => status == Done && memory[..] == old(memory[..])[cell := Masked(old(memory[cell]), v, mask)]
  {
    hide *;
    var outcome, _ := StoreParsed(memory, cell, data, mask);
    status := outcome;
  }

  /** Writes a comma and the register's value behind the register number. */
  method PutReadText(data: array<byte>, value: word32)
    requires MAXDATALEN <= data.Length
    modifies data
    ensures data[..] == Overwrite(old(data[..]), ReadText(old(data[..]), value))
    ensures data[..13] == ReadText(old(data[..]), value)
  {
    ghost var was, x := data[..], HexOf32(value, true);
    hide HexOf32;
    data[4] := COMMA;
    ConvertUint32ToHex(value, data, 5, true);
    assert data[..13] == was[..4] + [COMMA] + x by {
      assert data[5..13] == x;
    }
    assert data[13..] == was[13..];
    assert data[..] == data[..13] + data[13..];
  }

  /** What handling a request for register n comes to. */
  lemma AccessCases(regs: RegisterMap, mem: seq<word32>, s: SlotValue, n: nat)
    requires IsRequest(s) && MapFits(regs, |mem|) && n < regs.nRegs
    ensures var h, p := Access(regs, mem, s, n), regs.pointers[n];
      if s.command == READ then
        var value := if p.None? then 0 else mem[p.value];
        h == Handled(Ok(Message(s.ascVersion, s.appVersion, s.command, ReadText(s.data, value))),
                     Overwrite(s.data, ReadText(s.data, value)), mem)
      else if s.dataLen < 5 + REGWIDTHBYTES then h == Refusal(mem, s, RegvalLen)
      else if p.Some? && Parse32(s.data[5..13]).Throw? then
        h == Handled(Throw(Parse32(s.data[5..13]).error), s.data, mem)
      else
        h == Handled(Ok(Message(s.ascVersion, s.appVersion, s.command, s.data[..4])), s.data,
                     if p.None? then mem
                     else mem[p.value := Masked(mem[p.value], Parse32(s.data[5..13]).value, regs.writeMasks[n])])
  {
    hide Parse32, ReadText, ErrorReply, Overwrite, Masked;
  }

  lemma RefusalBytes(mem: seq<word32>, s: SlotValue, e: Error)
    requires IsRequest(s) && e in {RegBlockNull, UnexpectedCommand, DataTooShort, RegnumOob, RegvalLen}
    ensures var copied := if s.dataLen <= 9 then s.data[..s.dataLen] else s.data[..9];
      var digits: seq<byte> :=
        if e == RegBlockNull then [0x32, 0x30] else if e == UnexpectedCommand then [0x31, 0x36]
        else if e == DataTooShort then [0x31, 0x37] else if e == RegnumOob then [0x32, 0x31] else [0x32, 0x32];
      Refusal(mem, s, e)
        == Handled(Ok(Message(s.ascVersion, s.appVersion, 0x65, digits + [0x2C, s.command, 0x2C] + copied)), s.data, mem)
  {
    assert s.dataLen > 9 ==> s.data[..s.dataLen][..9] == s.data[..9];
    ErrorReplyBytes(SlotMessage(s), e);
    hide ErrorReply;
  }

  /** Which requests are refused, each with its two digits; which throw; and that neither changes anything. */
  lemma RefusalExact(regs: Option<RegisterMap>, mem: seq<word32>, s: SlotValue)
    requires IsRequest(s) && (regs.Some? ==> MapFits(regs.value, |mem|))
    ensures var h, num := Handle(regs, mem, s), Parse16(s.data[..4]);
      var copied := if s.dataLen <= 9 then s.data[..s.dataLen] else s.data[..9];
      var digits: seq<byte> :=
        if regs.None? then [0x32, 0x30]
        else if s.command != 0x72 && s.command != 0x77 then [0x31, 0x36]
        else if s.dataLen < 4 then [0x31, 0x37]
        else if num.Throw? then []
        else if num.value as nat >= regs.value.nRegs then [0x32, 0x31]
        else if s.command == 0x77 && s.dataLen < 9 then [0x32, 0x32]
        else [];
      && (digits != [] ==>
            h == Handled(Ok(Message(s.ascVersion, s.appVersion, 0x65, digits + [0x2C, s.command, 0x2C] + copied)),
                         s.data, mem))
      && (digits == [] && num.Throw? ==> h == Handled(Throw(NotHexChar), s.data, mem))
  {
    assert READ == 0x72 && WRITE == 0x77 && REGWIDTHBYTES == 4 && s.data[0..4] == s.data[..4];
    hide *;
    HandleCases(regs, mem, s);
    ParseThrows(s.data);
    RefusalBytes(mem, s, RegBlockNull);
    RefusalBytes(mem, s, UnexpectedCommand);
    RefusalBytes(mem, s, DataTooShort);
    RefusalBytes(mem, s, RegnumOob);
    RefusalBytes(mem, s, RegvalLen);
    var num := Parse16(s.data[..4]);
    if num.Ok? {
      RegNumValue(num.value);
      if regs.Some? && RegNum(num.value) < regs.value.nRegs {
        AccessCases(regs.value, mem, s, RegNum(num.value));
      }
    }
  }

  lemma ParseThrows(data: seq<byte>)
    requires 13 <= |data|
    ensures Parse16(data[..4]).Throw? ==> Parse16(data[..4]) == Throw(NotHexChar)
    ensures Parse32(data[5..13]).Throw? ==> Parse32(data[5..13]) == Throw(NotHexChar)
  {
    hide Parse8;
  }

  /** A read of a register is answered by its number as it came, a comma, and the eight digits of the value, or of 0. */
  lemma ReadExact(regs: RegisterMap, mem: seq<word32>, s: SlotValue, num: bv16)
    requires IsRequest(s) && MapFits(regs, |mem|) && s.command == 0x72 && 4 <= s.dataLen
    requires Parse16(s.data[..4]) == Ok(num) && (num as nat) < regs.nRegs
    ensures var pointer := regs.pointers[num as nat];
      var text := s.data[..4] + [0x2C] + HexOf32(if pointer.None? then 0 else mem[pointer.value], true);
      Handle(Some(regs), mem, s)
        == Handled(Ok(Message(s.ascVersion, s.appVersion, 0x72, text)), text + s.data[13..], mem)
  {
    assert READ == 0x72 && COMMA == 0x2C && s.data[0..4] == s.data[..4];
    RegNumValue(num);
    HandleCases(Some(regs), mem, s);
    AccessCases(regs, mem, s, RegNum(num));
    hide Handle, Access, Parse16, RegNum, HexOf32, MapFits;
  }

  lemma WriteHandled(regs: RegisterMap, mem: seq<word32>, s: SlotValue, num: bv16)
    requires IsRequest(s) && MapFits(regs, |mem|) && s.command == 0x77 && 9 <= s.dataLen
    requires Parse16(s.data[..4]) == Ok(num) && (num as nat) < regs.nRegs
    ensures var pointer, mask := regs.pointers[num as nat], regs.writeMasks[num as nat];
      var echo := Ok(Message(s.ascVersion, s.appVersion, 0x77, s.data[..4]));
      Handle(Some(regs), mem, s)
        == if pointer.None? then Handled(echo, s.data, mem)
           else
             match Parse32(s.data[5..13])
             case Throw(_) => Handled(Throw(NotHexChar), s.data, mem)
             case Ok(v) => Handled(echo, s.data, mem[pointer.value := Masked(mem[pointer.value], v, mask)])
  {
    assert READ == 0x72 && WRITE == 0x77 && REGWIDTHBYTES == 4 && s.data[0..4] == s.data[..4];
    assert MAXDATALEN == 54;
    RegNumValue(num);
    hide *;
    HandleCases(Some(regs), mem, s);
    AccessCases(regs, mem, s, RegNum(num));
    ParseThrows(s.data);
  }

  /**
   * A write to a register stores the bits of the value inside the mask and is answered by the register's number, if
   * eight digits follow the comma; to a null entry it stores nothing.
   */
  lemma WriteExact(regs: RegisterMap, mem: seq<word32>, s: SlotValue, num: bv16)
    requires IsRequest(s) && MapFits(regs, |mem|) && s.command == 0x77 && 9 <= s.dataLen
    requires Parse16(s.data[..4]) == Ok(num) && (num as nat) < regs.nRegs
    ensures var pointer, mask := regs.pointers[num as nat], regs.writeMasks[num as nat];
      var echo := Ok(Message(s.ascVersion, s.appVersion, 0x77, s.data[..4]));
      Handle(Some(regs), mem, s)
        == if pointer.None? then Handled(echo, s.data, mem)
           else
             match Parse32(s.data[5..13])
             case Throw(_) => Handled(Throw(NotHexChar), s.data, mem)
             case Ok(v) => Handled(echo, s.data, mem[pointer.value := (v & mask) | (mem[pointer.value] & !mask)])
  {
    var n := num as nat;
    var pointer, mask, v := regs.pointers[n], regs.writeMasks[n], Parse32(s.data[5..13]);
    assert pointer.Some? ==> pointer.value < |mem|;
    hide *;
    WriteHandled(regs, mem, s, num);
    if pointer.Some? && v.Ok? {
      MaskedWrite(mem, pointer.value, v.value, mask);
    }
  }

  /** handle_message on a read, in the fields of its state. */
  method HandleRead(asc: AsciiSerialCom, ascVersion: byte, appVersion: byte, data: array<byte>, dataLen: nat,
                    state: RegisterPointers, ghost num: bv16, ghost value: word32) returns (status: Status)
    requires asc.Valid() && data != asc.rawBuffer && MAXDATALEN <= data.Length && 4 <= dataLen <= data.Length
    requires StateFits(state) && Parse16(data[..4]) == Ok(num) && (num as nat) < state.regs.nRegs
    requires match state.regs.pointers[num as nat]
      case None => value == 0
      case Some(cell) => value == state.memory[cell]
    requires asc.Reaches(Message(ascVersion, appVersion, 0x72, data[..4] + [0x2C] + HexOf32(value, true)))
    modifies asc.outBuf, asc.rawBuffer, data, state.memory
    ensures asc.Valid() && asc.inBuf.Contents() == old(asc.inBuf.Contents())
    ensures state.memory[..] == old(state.memory[..])
    ensures (status, asc.outBuf.Contents()) == Put(old(asc.outBuf.Contents()),
              Message(ascVersion, appVersion, 0x72, old(data[..4]) + [0x2C] + HexOf32(value, true)))
  {
    ghost var s := SlotValue(ascVersion, appVersion, 0x72, data[..], dataLen);
    ghost var mem, out := state.memory[..], asc.outBuf.Contents();
    assert IsRequest(s) && s.data[..4] == data[..4] && MapFits(state.regs, |mem|) && MAXDATALEN == 54;
    assert value == if state.regs.pointers[num as nat].None? then 0 else mem[state.regs.pointers[num as nat].value];
    assert StateFits(state);
    hide *;
    ReadExact(state.regs, mem, s, num);
    EncodedCases(Handle(Some(state.regs), mem, s).answer, asc.outBuf.iStart, out);
    status := HandleMessage(asc, ascVersion, appVersion, 0x72, data, dataLen, state);
  }

  lemma WriteStores(regs: RegisterMap, mem: seq<word32>, s: SlotValue, num: bv16, cell: nat, v: word32, stored: word32)
    requires IsRequest(s) && MapFits(regs, |mem|) && s.command == 0x77 && 9 <= s.dataLen && cell < |mem|
    requires Parse16(s.data[..4]) == Ok(num) && (num as nat) < regs.nRegs && Parse32(s.data[5..13]) == Ok(v)
    requires regs.pointers[num as nat] == Some(cell)
    requires stored == (v & regs.writeMasks[num as nat]) | (mem[cell] & !regs.writeMasks[num as nat])
    ensures Handle(Some(regs), mem, s).mem == mem[cell := stored]
    ensures Handle(Some(regs), mem, s).answer == Ok(Message(s.ascVersion, s.appVersion, 0x77, s.data[..4]))
  {
    var was, mask := mem[cell], regs.writeMasks[num as nat];
    hide *;
    WriteHandled(regs, mem, s, num);
    MaskedValue(was, v, mask);
  }

  /** handle_message on a write of eight digits to a register in memory, in the fields of its state. */
  method HandleWrite(asc: AsciiSerialCom, ascVersion: byte, appVersion: byte, data: array<byte>, dataLen: nat,
                     state: RegisterPointers, ghost num: bv16, ghost cell: nat, ghost v: word32, ghost stored: word32)
      returns (status: Status)
    requires asc.Valid() && data != asc.rawBuffer && MAXDATALEN <= data.Length && 13 <= dataLen <= data.Length
    requires StateFits(state) && Parse16(data[..4]) == Ok(num) && (num as nat) < state.regs.nRegs
    requires state.regs.pointers[num as nat] == Some(cell) && Parse32(data[5..13]) == Ok(v)
    requires stored
      == (v & state.regs.writeMasks[num as nat]) | (state.memory[cell] & !state.regs.writeMasks[num as nat])
    requires asc.Reaches(Message(ascVersion, appVersion, 0x77, data[..4]))
    modifies asc.outBuf, asc.rawBuffer, data, state.memory
    ensures asc.Valid() && asc.inBuf.Contents() == old(asc.inBuf.Contents()) && cell < state.memory.Length
    ensures state.memory[..] == old(state.memory[..])[cell := stored]
    ensures (status, asc.outBuf.Contents())
      == Put(old(asc.outBuf.Contents()), Message(ascVersion, appVersion, 0x77, old(data[..4])))
  {
    ghost var s := SlotValue(ascVersion, appVersion, 0x77, data[..], dataLen);
    ghost var mem, out := state.memory[..], asc.outBuf.Contents();
    assert IsRequest(s) && s.data[..4] == data[..4] && s.data[5..13] == data[5..13] && MapFits(state.regs, |mem|);
    assert StateFits(state) && cell < |mem|;
    hide *;
    WriteStores(state.regs, mem, s, num, cell, v, stored);
    EncodedCases(Handle(Some(state.regs), mem, s).answer, asc.outBuf.iStart, out);
    status := HandleMessage(asc, ascVersion, appVersion, 0x77, data, dataLen, state);
  }

  // ---- Answers can be sent ----

  lemma PlainParts(s: seq<byte>, n: nat, t: seq<byte>)
    requires AllPlain(s) && n <= |s| && AllPlain(t)
    ensures AllPlain(s[..n]) && AllPlain(s[..n] + [COMMA] + t)
  {
    assert Plain(COMMA);
    hide Plain;
  }

  /** Whatever message a handler is given by the decoder, its answer is a message that a frame can carry. */
  lemma HandleSendable(regs: Option<RegisterMap>, mem: seq<word32>, s: SlotValue)
    requires IsRequest(s) && (regs.Some? ==> MapFits(regs.value, |mem|)) && Sendable(SlotMessage(s))
    ensures var answer := Handle(regs, mem, s).answer;
      answer.Ok? ==> Sendable(answer.value)
  {
    var d := Decide(regs, s, |mem|);
    match d {
      case Refused(e) => ErrorReplySendable(SlotMessage(s), e);
      case Failed(_) =>
      case Reads(n) =>
        var value := ReadValue(regs.value, mem, n);
        assert s.data[..4] == s.data[..s.dataLen][..4];
        HexOf32AllHex(value, true);
        HexIsPlain(HexOf32(value, true));
        hide Decide, Plain, HexOf32, AllPlain, ReadValue;
        PlainParts(SlotMessage(s).data, 4, HexOf32(value, true));
      case Writes(_, _) =>
        assert s.data[..4] == s.data[..s.dataLen][..4];
        hide Decide, Plain, HexOf32, AllPlain, WriteValue;
        PlainParts(SlotMessage(s).data, 4, []);
    }
  }

  // ---- Mask safety over runs of requests ----

  /** The value that a request writes to register n, if it does. */
  function Written(regs: RegisterMap, s: SlotValue, n: nat, size: nat): Option<word32>
    requires IsRequest(s) && MapFits(regs, size)
  {
    var d := Decide(Some(regs), s, size);
    if d.Writes? && d.n == n then d.value else None
  }

  function LastWritten(regs: RegisterMap, requests: seq<SlotValue>, n: nat, size: nat): Option<word32>
    requires MapFits(regs, size) && forall i :: 0 <= i < |requests| ==> IsRequest(requests[i])
  {
    if requests == [] then None
    else
      var later := LastWritten(regs, requests[1..], n, size);
      if later.Some? then later else Written(regs, requests[0], n, size)
  }

  function RunMemory(regs: RegisterMap, mem: seq<word32>, requests: seq<SlotValue>): (r: seq<word32>)
    requires MapFits(regs, |mem|) && forall i :: 0 <= i < |requests| ==> IsRequest(requests[i])
    ensures |r| == |mem|
    decreases |requests|
  {
    if requests == [] then mem else RunMemory(regs, Handle(Some(regs), mem, requests[0]).mem, requests[1..])
  }

  function Update(was: word32, value: Option<word32>, mask: word32): word32 {
    match value
    case None => was
    case Some(v) => Masked(was, v, mask)
  }

  lemma UpdateBits(was: word32, last: Option<word32>, mask: word32, after: word32)
    requires after == Update(was, last, mask)
    ensures last.None? ==> after == was
    ensures last.Some? ==> after == (last.value & mask) | (was & !mask)
  {
  }

  lemma UpdateIs(was: word32, last: Option<word32>, mask: word32, value: word32)
    requires match last
      case None => value == was
      case Some(v) => value == (v & mask) | (was & !mask)
    ensures value == Update(was, last, mask)
  {
  }

  lemma UpdateOutside(was: word32, last: Option<word32>, mask: word32, after: word32)
    requires after == Update(was, last, mask)
    ensures after & !mask == was & !mask
  {
    match last {
      case None =>
      case Some(v) => OutsideRaw(was, v, mask, after);
    }
  }

  lemma OutsideRaw(was: word32, value: word32, mask: word32, after: word32)
    requires after == Masked(was, value, mask)
    ensures after & !mask == was & !mask
  {
  }

  lemma HandleCell(regs: RegisterMap, mem: seq<word32>, s: SlotValue, n: nat, cell: nat)
    requires IsRequest(s) && MapFits(regs, |mem|) && NoAlias(regs)
    requires n < regs.nRegs && regs.pointers[n] == Some(cell)
    ensures Handle(Some(regs), mem, s).mem[cell]
      == Update(mem[cell], Written(regs, s, n, |mem|), regs.writeMasks[n])
  {
    hide Decide, Masked, ReadText, ErrorReply;
    var d := Decide(Some(regs), s, |mem|);
    if d.Writes? && d.n != n {
      assert regs.pointers[d.n] != regs.pointers[n] by {
        assert d.n < n ==> regs.pointers[d.n].Some? ==> regs.pointers[d.n] != regs.pointers[n];
      }
    }
  }

  lemma {:induction false} LastWriteKept(regs: RegisterMap, mem: seq<word32>, requests: seq<SlotValue>, n: nat, cell: nat)
    requires MapFits(regs, |mem|) && NoAlias(regs) && n < regs.nRegs && regs.pointers[n] == Some(cell)
    requires forall i :: 0 <= i < |requests| ==> IsRequest(requests[i])
    ensures RunMemory(regs, mem, requests)[cell]
      == Update(mem[cell], LastWritten(regs, requests, n, |mem|), regs.writeMasks[n])
    decreases |requests|
  {
    hide Handle, Written, Masked, NoAlias, IsRequest;
    if requests != [] {
      var mem' := Handle(Some(regs), mem, requests[0]).mem;
      HandleCell(regs, mem, requests[0], n, cell);
      LastWriteKept(regs, mem', requests[1..], n, cell);
      forall v, w { MaskedTwice(mem[cell], v, w, regs.writeMasks[n]); }
    }
  }

  /**
   * After any requests, well formed or not, a register holds its initial value, with the bits inside its mask
   * replaced by those of the last value written to it.
   */
  lemma MaskSafety(regs: RegisterMap, mem: seq<word32>, requests: seq<SlotValue>, n: nat, cell: nat)
    requires MapFits(regs, |mem|) && NoAlias(regs) && n < regs.nRegs && regs.pointers[n] == Some(cell)
    requires forall i :: 0 <= i < |requests| ==> IsRequest(requests[i])
    ensures var last, after := LastWritten(regs, requests, n, |mem|), RunMemory(regs, mem, requests)[cell];
      var mask := regs.writeMasks[n];
      && (last.None? ==> after == mem[cell])
      && (last.Some? ==> after == (last.value & mask) | (mem[cell] & !mask))
  {
    var was, mask, after := mem[cell], regs.writeMasks[n], RunMemory(regs, mem, requests)[cell];
    hide *;
    LastWriteKept(regs, mem, requests, n, cell);
    UpdateBits(was, LastWritten(regs, requests, n, |mem|), mask, after);
  }

  /** Memory that no register points to never changes. */
  lemma {:induction false} UnmappedUnchanged(regs: RegisterMap, mem: seq<word32>, requests: seq<SlotValue>, cell: nat)
    requires MapFits(regs, |mem|) && cell < |mem|
    requires forall n :: 0 <= n < regs.nRegs ==> regs.pointers[n] != Some(cell)
    requires forall i :: 0 <= i < |requests| ==> IsRequest(requests[i])
    ensures RunMemory(regs, mem, requests)[cell] == mem[cell]
    decreases |requests|
  {
    hide Decide, Masked, ReadText, ErrorReply, IsRequest;
    if requests != [] {
      UnmappedUnchanged(regs, Handle(Some(regs), mem, requests[0]).mem, requests[1..], cell);
    }
  }

  /** The bits of a register outside its mask keep their initial value over any requests. */
  lemma ProtectedBits(regs: RegisterMap, mem: seq<word32>, requests: seq<SlotValue>, n: nat, cell: nat)
    requires MapFits(regs, |mem|) && NoAlias(regs) && n < regs.nRegs && regs.pointers[n] == Some(cell)
    requires forall i :: 0 <= i < |requests| ==> IsRequest(requests[i])
    ensures RunMemory(regs, mem, requests)[cell] & !regs.writeMasks[n] == mem[cell] & !regs.writeMasks[n]
  {
    var was, mask, after := mem[cell], regs.writeMasks[n], RunMemory(regs, mem, requests)[cell];
    hide *;
    LastWriteKept(regs, mem, requests, n, cell);
    UpdateOutside(was, LastWritten(regs, requests, n, |mem|), mask, after);
  }

  // ---- What a request depends on ----

  /** The same message, perhaps in buffers that differ beyond its data. */
  predicate SameMessage(s: SlotValue, t: SlotValue) {
    && IsRequest(s) && IsRequest(t) && s.command == t.command && s.dataLen == t.dataLen
    && s.data[..s.dataLen] == t.data[..t.dataLen]
  }

  /** Is the text behind the comma parsed? */
  predicate ParsesValue(regs: Option<RegisterMap>, s: SlotValue)
    requires IsRequest(s) && (regs.Some? ==> regs.value.nRegs <= |regs.value.pointers|)
  {
    && regs.Some? && s.command == WRITE && 5 + REGWIDTHBYTES <= s.dataLen
    && Parse16(s.data[0..4]).Ok?
    && var n := RegNum(Parse16(s.data[0..4]).value);
       n < regs.value.nRegs && regs.value.pointers[n].Some?
  }

  /** A write to a register in memory, long enough for the length check but not for all the digits it parses. */
  predicate ShortWrite(regs: Option<RegisterMap>, s: SlotValue)
    requires IsRequest(s) && (regs.Some? ==> regs.value.nRegs <= |regs.value.pointers|)
  {
    && ParsesValue(regs, s) && s.dataLen < 5 + 2 * REGWIDTHBYTES
    && forall i :: 5 <= i < s.dataLen ==> DigitValue(s.data[i]).Some?
  }

  lemma Parse32Exact(s: seq<byte>)
    requires |s| == 8
    ensures if forall i :: 0 <= i < 8 ==> DigitValue(s[i]).Some? then Parse32(s).Ok? else Parse32(s) == Throw(NotHexChar)
  {
    hide Parse8, Join32, DigitValue;
    Pair(s, 0);
    Pair(s, 2);
    Pair(s, 4);
    Pair(s, 6);
    var all := forall i :: 0 <= i < 8 ==> DigitValue(s[i]).Some?;
    assert all == (&& DigitValue(s[0]).Some? && DigitValue(s[1]).Some? && DigitValue(s[2]).Some?
                   && DigitValue(s[3]).Some? && DigitValue(s[4]).Some? && DigitValue(s[5]).Some?
                   && DigitValue(s[6]).Some? && DigitValue(s[7]).Some?);
  }

  /** Two neighbouring digits parse if both are digits. */
  lemma Pair(s: seq<byte>, k: nat)
    requires k + 2 <= |s|
    ensures Parse8(s[k..k + 2]).Ok? <==> DigitValue(s[k]).Some? && DigitValue(s[k + 1]).Some?
    ensures Parse8(s[k..k + 2]).Throw? ==> Parse8(s[k..k + 2]) == Throw(NotHexChar)
  {
    hide Join, DigitValue;
    assert s[k..k + 2][0] == s[k] && s[k..k + 2][1] == s[k + 1];
  }

  lemma SameDigits(s: SlotValue, t: SlotValue)
    requires SameMessage(s, t)
    ensures 4 <= s.dataLen ==> s.data[0..4] == t.data[0..4]
    ensures forall i :: 0 <= i < s.dataLen ==> s.data[i] == t.data[i]
  {
    forall i | 0 <= i < s.dataLen ensures s.data[i] == t.data[i] {
      assert s.data[i] == s.data[..s.dataLen][i] == t.data[..t.dataLen][i];
    }
  }

  lemma DecideSame(regs: Option<RegisterMap>, s: SlotValue, t: SlotValue, size: nat)
    requires IsRequest(s) && IsRequest(t) && (regs.Some? ==> MapFits(regs.value, size))
    requires s.command == t.command && s.dataLen == t.dataLen && (4 <= s.dataLen ==> s.data[0..4] == t.data[0..4])
    requires ParsesValue(regs, s) ==> Parse32(s.data[5..13]) == Parse32(t.data[5..13])
    ensures Decide(regs, s, size) == Decide(regs, t, size)
  {
    hide Parse16, Parse32, RegNum;
  }

  /** A request that is not a short write is decided by the message alone. */
  lemma DecidedByMessage(regs: Option<RegisterMap>, s: SlotValue, t: SlotValue, size: nat)
    requires SameMessage(s, t) && (regs.Some? ==> MapFits(regs.value, size)) && !ShortWrite(regs, s)
    ensures Decide(regs, s, size) == Decide(regs, t, size)
  {
    SameDigits(s, t);
    hide Decide, Parse16, Parse32, RegNum, RegNum, MapFits, DigitValue;
    if s.dataLen >= 13 {
      assert s.data[5..13] == t.data[5..13];
    } else if ParsesValue(regs, s) {
      var i :| 5 <= i < s.dataLen && DigitValue(s.data[i]).None?;
      assert s.data[5..13][i - 5] == s.data[i] && t.data[5..13][i - 5] == s.data[i];
      Parse32Exact(s.data[5..13]);
      Parse32Exact(t.data[5..13]);
    }
    DecideSame(regs, s, t, size);
  }

  lemma ShortWriteDecided(regs: Option<RegisterMap>, s: SlotValue, t: SlotValue, size: nat)
    requires SameMessage(s, t) && (regs.Some? ==> MapFits(regs.value, size)) && ShortWrite(regs, s)
    ensures Parse32(t.data[5..13]).Ok? ==> Decide(regs, t, size).Writes?
    ensures Parse32(t.data[5..13]).Throw? ==> Decide(regs, t, size) == Failed(Parse32(t.data[5..13]).error)
  {
    SameDigits(s, t);
    hide Parse16, Parse32, RegNum, MapFits, DigitValue;
  }

  /** A short write with its missing digits in the buffer is carried out. */
  lemma ShortWriteDone(regs: Option<RegisterMap>, s: SlotValue, t: SlotValue, size: nat)
    requires SameMessage(s, t) && (regs.Some? ==> MapFits(regs.value, size)) && ShortWrite(regs, s)
    requires forall i :: s.dataLen <= i < 13 ==> DigitValue(t.data[i]).Some?
    ensures Decide(regs, t, size).Writes?
  {
    ShortWriteDecided(regs, s, t, size);
    SameDigits(s, t);
    hide Decide, Parse32, Parse16, DigitValue, MapFits;
    Parse32Exact(t.data[5..13]);
  }

  /** A short write with anything but a digit in place of its last one throws. */
  lemma ShortWriteFails(regs: Option<RegisterMap>, s: SlotValue, t: SlotValue, size: nat)
    requires SameMessage(s, t) && (regs.Some? ==> MapFits(regs.value, size)) && ShortWrite(regs, s)
    requires DigitValue(t.data[12]).None?
    ensures Decide(regs, t, size) == Failed(NotHexChar)
  {
    assert 13 <= |t.data|;
    hide *;
    ShortWriteDecided(regs, s, t, size);
    Parse32Exact(t.data[5..13]);
    assert t.data[5..13][7] == t.data[12];
  }

  /** The value of a short write, or its failure, comes from what an earlier message left in the buffer. */
  lemma ShortWriteDependsOnBuffer(regs: Option<RegisterMap>, s: SlotValue, size: nat)
    requires IsRequest(s) && (regs.Some? ==> MapFits(regs.value, size)) && ShortWrite(regs, s)
    ensures exists t :: SameMessage(s, t) && Decide(regs, t, size) != Decide(regs, s, size)
  {
    assert DigitValue(0x30).Some? && DigitValue(0).None?;
    var good := s.(data := s.data[..s.dataLen] + seq(|s.data| - s.dataLen, _ => 0x30));
    var bad := s.(data := s.data[12 := 0]);
    assert SameMessage(s, good) && SameMessage(s, bad);
    hide Decide, ShortWrite, DigitValue, MapFits;
    ShortWriteDone(regs, s, good, size);
    ShortWriteFails(regs, s, bad, size);
  }

  /**
   * Is a request decided by its message alone? The code checks a write for 5 + REGWIDTHBYTES bytes but parses
   * 5 + 2 * REGWIDTHBYTES: the answer is yes exactly when the message is not a short write.
   */
  lemma DecidedExact(regs: Option<RegisterMap>, s: SlotValue, size: nat)
    requires IsRequest(s) && (regs.Some? ==> MapFits(regs.value, size))
    ensures (forall t :: SameMessage(s, t) ==> Decide(regs, t, size) == Decide(regs, s, size)) <==> !ShortWrite(regs, s)
  {
    hide Decide, ShortWrite;
    if ShortWrite(regs, s) {
      ShortWriteDependsOnBuffer(regs, s, size);
    } else {
      forall t | SameMessage(s, t) ensures Decide(regs, t, size) == Decide(regs, s, size) {
        DecidedByMessage(regs, s, t, size);
      }
    }
  }
}
