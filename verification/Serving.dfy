// Whole runs of the polling loop: each turn transmits at most one byte, takes at most one, and calls device_receive.

module Serving {
  import opened AscException
  import opened Mask
  import opened Sequences
  import opened Resync
  import opened CircularBuffers
  import opened Hex
  import opened Frames
  import opened Encoding
  import opened Streams
  import opened SerialCom
  import opened Registers
  import opened Device
  import Runs

  /** One turn of the loop: the byte that has arrived, if any, and whether the transmitter takes one. */
  datatype Turn = Turn(rx: Option<byte>, ready: bool)

  function Transmitted(s: DeviceState, ready: bool): (r: seq<byte>)
    ensures |r| <= 1
  {
    if ready && s.output != [] then [s.output[0]] else []
  }

  function Transmit(s: DeviceState, ready: bool): DeviceState {
    if ready && s.output != [] then s.(output := s.output[1..], front := Wrap(s.front + 1, MAXMESSAGELEN)) else s
  }

  function Arrive(s: DeviceState, rx: Option<byte>): DeviceState
    requires |s.input| <= MAXMESSAGELEN
  {
    match rx
    case None => s
    case Some(b) => s.(input := PushedBack(s.input, b, MAXMESSAGELEN))
  }

  /** What device_receive finds in a turn. */
  function Before(cfg: Config, s: DeviceState, turn: Turn): (u: DeviceState)
    requires Fitting(cfg, s)
    ensures Fitting(cfg, u)
  {
    Arrive(Transmit(s, turn.ready), turn.rx)
  }

  lemma PutBound(out: seq<byte>, m: Message)
    requires |out| <= MAXMESSAGELEN
    ensures |Put(out, m).1| <= MAXMESSAGELEN
  {
    hide ComputeChecksum, Head;
  }

  lemma ConcludeFits(cfg: Config, answer: Option<Result<Message>>, s: DeviceState)
    requires Fitting(cfg, s)
    ensures Fitting(cfg, Conclude(answer, s).state)
  {
    hide Put, MapFits, FrontAfter;
    if answer.Some? && answer.value.Ok? {
      var m := answer.value.value;
      PutBound(s.output, m);
      FrontNext(s.front, |s.output|, |m.data| + 5, MAXMESSAGELEN);
    }
  }

  lemma StoredFits(s: SlotValue, c: seq<byte>)
    requires IsRequest(s)
    ensures IsRequest(Store(s, BoundedOutcome(c)))
  {
    hide Receive;
  }

  lemma StepFits(cfg: Config, s: DeviceState)
    requires Fitting(cfg, s)
    ensures Fitting(cfg, DeviceStep(cfg, s).state)
  {
    StepCases(cfg, s);
    StoredFits(s.slot, s.input);
    RestShrinks(s.input);
    var t := s.(input := Receive(s.input).rest, slot := Store(s.slot, BoundedOutcome(s.input)));
    hide DeviceStep, Receive, Dispatch, Store, BoundedOutcome, Conclude, MapFits;
    if StatusOf(Receive(s.input).outcome).Done? {
      var d := Dispatch(cfg, t.mem, t.streaming, t.slot);
      ConcludeFits(cfg, d.answer, t.(slot := t.slot.(data := d.data), mem := d.mem, streaming := d.streaming));
    }
  }

  function AfterTurn(cfg: Config, s: DeviceState, turn: Turn): (t: DeviceState)
    requires Fitting(cfg, s)
    ensures Fitting(cfg, t)
  {
    StepFits(cfg, Before(cfg, s, turn));
    DeviceStep(cfg, Before(cfg, s, turn)).state
  }

  /** The device after the turns. */
  function After(cfg: Config, s: DeviceState, turns: seq<Turn>): (t: DeviceState)
    requires Fitting(cfg, s)
    ensures Fitting(cfg, t)
    decreases |turns|
  {
    if turns == [] then s else After(cfg, AfterTurn(cfg, s, turns[0]), turns[1..])
  }

  /** What it transmits meanwhile. */
  function Sent(cfg: Config, s: DeviceState, turns: seq<Turn>): seq<byte>
    requires Fitting(cfg, s)
    decreases |turns|
  {
    if turns == [] then []
    else Transmitted(s, turns[0].ready) + Sent(cfg, AfterTurn(cfg, s, turns[0]), turns[1..])
  }

  /** Is every answer of the run in reach of get_blocks? */
  predicate AllInReach(cfg: Config, s: DeviceState, turns: seq<Turn>)
    requires Fitting(cfg, s)
    decreases |turns|
  {
    turns == []
    || (InReach(cfg, Before(cfg, s, turns[0])) && AllInReach(cfg, AfterTurn(cfg, s, turns[0]), turns[1..]))
  }

  /** The bytes that arrive. */
  function Received(turns: seq<Turn>): seq<byte> {
    if turns == [] then []
    else (if turns[0].rx.Some? then [turns[0].rx.value] else []) + Received(turns[1..])
  }

  lemma TurnsNone(cfg: Config, s: DeviceState)
    requires Fitting(cfg, s)
    ensures After(cfg, s, []) == s && Sent(cfg, s, []) == [] && AllInReach(cfg, s, []) && Received([]) == []
  {
    hide AfterTurn, Fitting, Before, InReach;
  }

  lemma TurnsFirst(cfg: Config, s: DeviceState, turns: seq<Turn>)
    requires Fitting(cfg, s) && turns != []
    ensures var t, rest := AfterTurn(cfg, s, turns[0]), turns[1..];
      && After(cfg, s, turns) == After(cfg, t, rest)
      && Sent(cfg, s, turns) == Transmitted(s, turns[0].ready) + Sent(cfg, t, rest)
      && (AllInReach(cfg, s, turns) <==> InReach(cfg, Before(cfg, s, turns[0])) && AllInReach(cfg, t, rest))
      && Received(turns) == (if turns[0].rx.Some? then [turns[0].rx.value] else []) + Received(rest)
  {
    hide AfterTurn, Fitting, Before, InReach, Transmitted;
  }

  lemma {:induction false} TurnsAppend(cfg: Config, s: DeviceState, xs: seq<Turn>, ys: seq<Turn>)
    requires Fitting(cfg, s)
    ensures var t := After(cfg, s, xs);
      && After(cfg, s, xs + ys) == After(cfg, t, ys)
      && Sent(cfg, s, xs + ys) == Sent(cfg, s, xs) + Sent(cfg, t, ys)
      && (AllInReach(cfg, s, xs + ys) <==> AllInReach(cfg, s, xs) && AllInReach(cfg, t, ys))
    decreases |xs|
  {
    hide *;
    if xs == [] {
      assert xs + ys == ys;
      TurnsNone(cfg, s);
      assert [] + Sent(cfg, s, ys) == Sent(cfg, s, ys);
    } else {
      assert (xs + ys)[0] == xs[0] && (xs + ys)[1..] == xs[1..] + ys;
      var u := AfterTurn(cfg, s, xs[0]);
      TurnsFirst(cfg, s, xs);
      TurnsFirst(cfg, s, xs + ys);
      TurnsAppend(cfg, u, xs[1..], ys);
      Associates(Transmitted(s, xs[0].ready), Sent(cfg, u, xs[1..]), Sent(cfg, After(cfg, u, xs[1..]), ys));
    }
  }

  lemma ReceivedFirst(turns: seq<Turn>)
    requires turns != []
    ensures Received(turns) == (if turns[0].rx.Some? then [turns[0].rx.value] else []) + Received(turns[1..])
  {
  }

  lemma {:induction false} ReceivedAppend(xs: seq<Turn>, ys: seq<Turn>)
    ensures Received(xs + ys) == Received(xs) + Received(ys)
    decreases |xs|
  {
    if xs == [] {
      assert xs + ys == ys && Received(xs) == [];
      hide *;
      assert [] + Received(ys) == Received(ys);
    } else {
      hide *;
      assert (xs + ys)[0] == xs[0] && (xs + ys)[1..] == xs[1..] + ys;
      ReceivedFirst(xs);
      ReceivedFirst(xs + ys);
      ReceivedAppend(xs[1..], ys);
      var first: seq<byte> := if xs[0].rx.Some? then [xs[0].rx.value] else [];
      Associates(first, Received(xs[1..]), Received(ys));
    }
  }

  /** The turn in which the byte b, between x and y, arrives. */
  lemma {:induction false} SplitTurns(turns: seq<Turn>, x: seq<byte>, b: byte, y: seq<byte>) returns (i: nat)
    requires Received(turns) == x + [b] + y
    ensures i < |turns| && turns[i].rx == Some(b)
    ensures Received(turns[..i]) == x && Received(turns[i + 1..]) == y
    decreases |turns|
  {
    assert turns == [] ==> |Received(turns)| == 0;
    assert turns != [];
    hide *;
    ReceivedFirst(turns);
    var rest := turns[1..];
    if turns[0].rx.None? {
      assert [] + Received(rest) == Received(rest);
      i := SplitTurns(rest, x, b, y);
      i := SplitAfter(turns, i, x, b, y);
    } else if x == [] {
      assert ([turns[0].rx.value] + Received(rest))[0] == b && ([turns[0].rx.value] + Received(rest))[1..] == Received(rest);
      assert ([] + [b] + y)[0] == b && ([] + [b] + y)[1..] == y;
      assert turns[..0] == [];
      ReceivedNothing();
      i := 0;
    } else {
      assert ([turns[0].rx.value] + Received(rest))[1..] == Received(rest);
      assert (x + [b] + y)[1..] == x[1..] + [b] + y && (x + [b] + y)[0] == x[0];
      i := SplitTurns(rest, x[1..], b, y);
      assert [x[0]] + x[1..] == x;
      i := SplitAfter(turns, i, x, b, y);
    }
  }

  lemma ReceivedNothing()
    ensures Received([]) == []
  {
  }

  lemma SplitAfter(turns: seq<Turn>, j: nat, x: seq<byte>, b: byte, y: seq<byte>) returns (i: nat)
    requires turns != [] && j < |turns| - 1 && turns[1..][j].rx == Some(b) && Received(turns[1..][j + 1..]) == y
    requires x == (if turns[0].rx.Some? then [turns[0].rx.value] else []) + Received(turns[1..][..j])
    ensures i < |turns| && turns[i].rx == Some(b) && Received(turns[..i]) == x && Received(turns[i + 1..]) == y
  {
    hide *;
    i := j + 1;
    assert turns[..i][0] == turns[0] && turns[..i][1..] == turns[1..][..j] && turns[i + 1..] == turns[1..][j + 1..];
    ReceivedFirst(turns[..i]);
  }

  // ---- What a run emits ----

  /** All but the output ring and the stored message: the input, the data buffer, the registers and the flag. */
  function Core(s: DeviceState): DeviceState {
    s.(output := [], front := 0, slot := s.slot.(ascVersion := 0, appVersion := 0, command := 0, dataLen := 0))
  }

  /** The front of the output ring after n bytes have been transmitted. */
  function Ahead(front: nat, n: nat): (r: nat)
    ensures r < MAXMESSAGELEN
  {
    (front + n) % MAXMESSAGELEN
  }

  /**
   * The run adds `reply` behind what was in the output ring, transmitting what it transmits from the front of that;
   * it ends with the input, the data buffer, the registers and the flag of t.
   */
  predicate Serves(cfg: Config, s: DeviceState, turns: seq<Turn>, reply: seq<byte>, t: DeviceState)
    requires Fitting(cfg, s)
  {
    && AllInReach(cfg, s, turns)
    && Sent(cfg, s, turns) + After(cfg, s, turns).output == s.output + reply
    && After(cfg, s, turns).front == Ahead(s.front, |Sent(cfg, s, turns)|)
    && Core(After(cfg, s, turns)) == Core(t)
  }

  lemma ServesIs(cfg: Config, s: DeviceState, turns: seq<Turn>, reply: seq<byte>, t: DeviceState)
    requires Fitting(cfg, s)
    ensures Serves(cfg, s, turns, reply, t) <==>
      && AllInReach(cfg, s, turns)
      && Sent(cfg, s, turns) + After(cfg, s, turns).output == s.output + reply
      && After(cfg, s, turns).front == Ahead(s.front, |Sent(cfg, s, turns)|)
      && Core(After(cfg, s, turns)) == Core(t)
  {
    hide AllInReach, Sent, After, Core;
  }

  lemma ServesAppend(cfg: Config, s: DeviceState, xs: seq<Turn>, ys: seq<Turn>,
                     replyX: seq<byte>, replyY: seq<byte>, t: DeviceState, u: DeviceState)
    requires Fitting(cfg, s) && Serves(cfg, s, xs, replyX, t)
    requires Serves(cfg, After(cfg, s, xs), ys, replyY, u)
    ensures Serves(cfg, s, xs + ys, replyX + replyY, u)
  {
    hide *;
    var v := After(cfg, s, xs);
    ServesIs(cfg, s, xs, replyX, t);
    ServesIs(cfg, v, ys, replyY, u);
    ServesIs(cfg, s, xs + ys, replyX + replyY, u);
    TurnsAppend(cfg, s, xs, ys);
    Conserve(Sent(cfg, s, xs), Sent(cfg, v, ys), v.output, After(cfg, v, ys).output, s.output, replyX, replyY);
    FrontAdds(s.front, |Sent(cfg, s, xs)|, |Sent(cfg, v, ys)|);
  }

  lemma Conserve(sentX: seq<byte>, sentY: seq<byte>, mid: seq<byte>, end: seq<byte>,
                 start: seq<byte>, replyX: seq<byte>, replyY: seq<byte>)
    requires sentX + mid == start + replyX && sentY + end == mid + replyY
    ensures (sentX + sentY) + end == start + (replyX + replyY)
  {
    Associates(sentX, sentY, end);
    Associates(sentX, mid, replyY);
    Associates(start, replyX, replyY);
  }

  lemma FrontAdds(front: nat, m: nat, n: nat)
    ensures Ahead(Ahead(front, m), n) == Ahead(front, m + n)
  {
  }

  lemma ServesNone(cfg: Config, s: DeviceState)
    requires Fitting(cfg, s)
    ensures Serves(cfg, s, [], [], s)
  {
    TurnsNone(cfg, s);
    assert [] + s.output == s.output + [];
    hide AllInReach, Sent, After;
  }

  /** One turn. */
  lemma OneTurn(cfg: Config, s: DeviceState, turn: Turn)
    requires Fitting(cfg, s)
    ensures After(cfg, s, [turn]) == AfterTurn(cfg, s, turn) && Sent(cfg, s, [turn]) == Transmitted(s, turn.ready)
    ensures AllInReach(cfg, s, [turn]) <==> InReach(cfg, Before(cfg, s, turn))
    ensures Received([turn]) == if turn.rx.Some? then [turn.rx.value] else []
  {
    hide *;
    TurnsFirst(cfg, s, [turn]);
    assert [turn][1..] == [];
    TurnsNone(cfg, AfterTurn(cfg, s, turn));
  }

  lemma TransmitParts(s: DeviceState, ready: bool)
    requires s.front < MAXMESSAGELEN
    ensures var u := Transmit(s, ready);
      && Transmitted(s, ready) + u.output == s.output && u.front == Ahead(s.front, |Transmitted(s, ready)|)
      && Core(u) == Core(s) && u.input == s.input && u.front < MAXMESSAGELEN && |u.output| <= |s.output|
  {
    WrapIsModulus(s.front + 1, MAXMESSAGELEN);
  }

  // ---- Turns without a message ----

  function Quiet(s: DeviceState, input: seq<byte>): DeviceState {
    s.(input := input, slot := s.slot.(command := 0, dataLen := 0))
  }

  /** A call that finds no message changes nothing but the input. */
  lemma NoMessageStep(cfg: Config, s: DeviceState, rest: seq<byte>)
    requires Fitting(cfg, s) && Receive(s.input) == Receipt(NoMessage, rest)
    ensures DeviceStep(cfg, s).state == Quiet(s, rest) && InReach(cfg, s)
  {
    StepCases(cfg, s);
    var t := Quiet(s, rest);
    hide Receive, DeviceStep, Dispatching, Answer, Dispatch, MapFits, WithinReach;
    assert Store(s.slot, BoundedOutcome(s.input)) == s.slot.(command := 0, dataLen := 0);
    NothingCase(cfg, t);
  }

  /** A turn that finds no message leaves `rest` in the input buffer and transmits what it transmits. */
  lemma NoMessageTurn(cfg: Config, s: DeviceState, turn: Turn, rest: seq<byte>)
    requires Fitting(cfg, s) && Receive(Before(cfg, s, turn).input) == Receipt(NoMessage, rest)
    ensures Serves(cfg, s, [turn], [], s.(input := rest)) && AfterTurn(cfg, s, turn).input == rest
  {
    hide *;
    var u := Before(cfg, s, turn);
    NoMessageStep(cfg, u, rest);
    BeforeParts(cfg, s, turn);
    QuietParts(u, rest);
    OneTurn(cfg, s, turn);
    TurnParts(cfg, s, turn);
    QuietCore(s, u, rest);
    assert s.output + [] == s.output;
    ServesIs(cfg, s, [turn], [], s.(input := rest));
  }

  lemma TurnParts(cfg: Config, s: DeviceState, turn: Turn)
    requires Fitting(cfg, s)
    ensures AfterTurn(cfg, s, turn) == DeviceStep(cfg, Before(cfg, s, turn)).state
  {
    hide DeviceStep, Fitting, Before;
  }

  /** What device_receive finds in a turn is what the turn found, less a byte transmitted, and more a byte arrived. */
  lemma BeforeParts(cfg: Config, s: DeviceState, turn: Turn)
    requires Fitting(cfg, s)
    ensures var u := Before(cfg, s, turn);
      && Transmitted(s, turn.ready) + u.output == s.output && |u.output| <= MAXMESSAGELEN
      && u.front == Ahead(s.front, |Transmitted(s, turn.ready)|) && u.front < MAXMESSAGELEN
      && u.slot == s.slot && u.mem == s.mem && u.streaming == s.streaming
  {
    TransmitParts(s, turn.ready);
    hide MapFits, PushedBack;
  }

  lemma QuietCore(s: DeviceState, u: DeviceState, rest: seq<byte>)
    requires u.slot == s.slot && u.mem == s.mem && u.streaming == s.streaming
    ensures Core(Quiet(u, rest)) == Core(s.(input := rest))
  {
  }

  lemma QuietParts(s: DeviceState, rest: seq<byte>)
    ensures var t := Quiet(s, rest);
      t.output == s.output && t.front == s.front && t.input == rest
  {
  }

  lemma BeforeInput(cfg: Config, s: DeviceState, turn: Turn)
    requires Fitting(cfg, s)
    ensures Before(cfg, s, turn).input
      == if turn.rx.None? then s.input else PushedBack(s.input, turn.rx.value, MAXMESSAGELEN)
    ensures |s.input| <= MAXMESSAGELEN
  {
    hide PushedBack, MapFits;
  }

  lemma ReceiveNoEnd(c: seq<byte>)
    requires END !in c
    ensures Receive(c).outcome == NoMessage && END !in Receive(c).rest
  {
    OutcomeTable(c);
    FindFirstAbsent(c, END);
    CleanNoEnd(c, START, END);
    hide Receive, FindLast, Clean;
  }

  lemma NoEndPushed(c: seq<byte>, b: byte)
    requires |c| <= MAXMESSAGELEN && END !in c && b != END
    ensures END !in PushedBack(c, b, MAXMESSAGELEN)
  {
  }

  lemma NoEndFirst(turns: seq<Turn>)
    requires turns != [] && END !in Received(turns)
    ensures turns[0].rx != Some(END) && END !in Received(turns[1..])
  {
    ReceivedFirst(turns);
    hide Received;
    if turns[0].rx.Some? {
      assert Received(turns)[0] == turns[0].rx.value;
    }
    assert forall x :: x in Received(turns[1..]) ==> x in Received(turns);
  }

  /** While no line end arrives, nothing is answered and nothing changes but the input. */
  lemma {:induction false} QuietTurns(cfg: Config, s: DeviceState, turns: seq<Turn>)
    requires Fitting(cfg, s) && END !in s.input && END !in Received(turns)
    ensures END !in After(cfg, s, turns).input
    ensures Serves(cfg, s, turns, [], s.(input := After(cfg, s, turns).input))
    decreases |turns|
  {
    if turns == [] {
      TurnsNone(cfg, s);
      ServesNone(cfg, s);
    } else {
      hide *;
      var t := AfterTurn(cfg, s, turns[0]);
      var c := Before(cfg, s, turns[0]).input;
      NoEndFirst(turns);
      BeforeInput(cfg, s, turns[0]);
      if turns[0].rx.Some? {
        NoEndPushed(s.input, turns[0].rx.value);
      }
      ReceiveNoEnd(c);
      NoMessageTurn(cfg, s, turns[0], Receive(c).rest);
      TurnsFirst(cfg, s, turns);
      QuietTurns(cfg, t, turns[1..]);
      ServesFirst(cfg, s, turns, After(cfg, s, turns).input, Receive(c).rest);
    }
  }

  /** A run without an answer, and another one after it. */
  lemma SilentAppend(cfg: Config, s: DeviceState, xs: seq<Turn>, ys: seq<Turn>, mid: seq<byte>, input: seq<byte>)
    requires Fitting(cfg, s) && Serves(cfg, s, xs, [], s.(input := mid))
    requires var t := After(cfg, s, xs); Serves(cfg, t, ys, [], t.(input := input))
    ensures Serves(cfg, s, xs + ys, [], s.(input := input))
  {
    hide *;
    var t := After(cfg, s, xs);
    ServesIs(cfg, s, xs, [], s.(input := mid));
    CoreInput(s, t, mid, input);
    ServesCore(cfg, t, ys, [], t.(input := input), s.(input := input));
    ServesAppend(cfg, s, xs, ys, [], [], s.(input := mid), s.(input := input));
    var none: seq<byte> := [];
    assert none + none == none;
  }

  lemma CoreInput(s: DeviceState, t: DeviceState, mid: seq<byte>, input: seq<byte>)
    ensures Core(t) == Core(s.(input := mid)) ==> Core(t.(input := input)) == Core(s.(input := input))
  {
  }

  /** A turn without an answer, and a run without one after it. */
  lemma ServesFirst(cfg: Config, s: DeviceState, turns: seq<Turn>, input: seq<byte>, mid: seq<byte>)
    requires Fitting(cfg, s) && turns != [] && Serves(cfg, s, [turns[0]], [], s.(input := mid))
    requires var t := AfterTurn(cfg, s, turns[0]); Serves(cfg, t, turns[1..], [], t.(input := input))
    ensures Serves(cfg, s, turns, [], s.(input := input))
  {
    hide *;
    OneTurn(cfg, s, turns[0]);
    SilentAppend(cfg, s, [turns[0]], turns[1..], mid, input);
    assert [turns[0]] + turns[1..] == turns;
  }

  lemma ServesCore(cfg: Config, s: DeviceState, turns: seq<Turn>, reply: seq<byte>, t: DeviceState, u: DeviceState)
    requires Fitting(cfg, s) && Core(t) == Core(u)
    ensures Serves(cfg, s, turns, reply, t) <==> Serves(cfg, s, turns, reply, u)
  {
    hide AllInReach, Sent, After, Core;
  }

  // ---- Turns inside a frame ----

  lemma OpenReceive(c: seq<byte>)
    requires Open(c)
    ensures Receive(c) == Receipt(NoMessage, c)
  {
    assert END !in c;
    OutcomeTable(c);
    FindFirstAbsent(c, END);
    CleanNoEnd(c, START, END);
    FindLastUnique(c, START, 0);
    assert c[0..] == c;
    hide Receive, FindLast, Clean;
  }

  lemma InnerTurn(turns: seq<Turn>)
    requires turns != [] && Inner(Received(turns))
    ensures Inner(Received(turns[1..]))
    ensures turns[0].rx.Some? ==> turns[0].rx.value != START && turns[0].rx.value != END
    ensures |Received(turns)| == |Received(turns[1..])| + if turns[0].rx.Some? then 1 else 0
  {
    ReceivedFirst(turns);
    hide Received;
    if turns[0].rx.Some? {
      assert Received(turns)[0] == turns[0].rx.value;
    }
    assert forall x :: x in Received(turns[1..]) ==> x in Received(turns);
  }

  /** Behind a start marker, the bytes of a frame gather in the input buffer. */
  lemma {:induction false} FrameTurns(cfg: Config, s: DeviceState, turns: seq<Turn>)
    requires Fitting(cfg, s) && Open(s.input) && Inner(Received(turns))
    requires |s.input| + |Received(turns)| <= MAXMESSAGELEN
    ensures After(cfg, s, turns).input == s.input + Received(turns)
    ensures Serves(cfg, s, turns, [], s.(input := s.input + Received(turns)))
    decreases |turns|
  {
    if turns == [] {
      TurnsNone(cfg, s);
      ServesNone(cfg, s);
      assert s.input + [] == s.input;
      hide Serves, After, Received;
    } else {
      hide *;
      var t := AfterTurn(cfg, s, turns[0]);
      InnerTurn(turns);
      BeforeInput(cfg, s, turns[0]);
      ReceivedFirst(turns);
      var first: seq<byte> := if turns[0].rx.Some? then [turns[0].rx.value] else [];
      var mid := s.input + first;
      OpenReceive(s.input);
      if turns[0].rx.Some? {
        FrameByte(s.input, turns[0].rx.value);
        PollIs(s.input, turns[0].rx.value);
      } else {
        assert s.input + [] == s.input;
      }
      NoMessageTurn(cfg, s, turns[0], mid);
      TurnsFirst(cfg, s, turns);
      FrameTurns(cfg, t, turns[1..]);
      Associates(s.input, first, Received(turns[1..]));
      ServesFirst(cfg, s, turns, mid + Received(turns[1..]), mid);
    }
  }

  lemma StartPoll(c: seq<byte>)
    requires |c| <= MAXMESSAGELEN && END !in c
    ensures Receive(PushedBack(c, START, MAXMESSAGELEN)) == Receipt(NoMessage, [START])
  {
    var d := PushedBack(c, START, MAXMESSAGELEN);
    assert d[|d| - 1] == START && d[|d| - 1..] == [START] && START != END && d[|d| - 1 + 1..] == [];
    hide *;
    PollIs(c, START);
    QuietByte(c, START);
    FindLastUnique(d, START, |d| - 1);
  }

  // ---- The turn that completes a frame ----

  /** What is stored when m is delivered. */
  function Arrived(s: SlotValue, m: Message): SlotValue
    requires |m.data| <= MAXDATALEN <= |s.data|
  {
    SlotValue(m.ascVersion, m.appVersion, m.command, Overwrite(s.data, m.data), |m.data|)
  }

  /** What a device answers to m, by its data buffer, its registers and its flag. */
  function AnswerTo(cfg: Config, s: DeviceState, m: Message): Option<Result<Message>>
    requires Fitting(cfg, s) && |m.data| <= MAXDATALEN
  {
    Dispatch(cfg, s.mem, s.streaming, Arrived(s.slot, m)).answer
  }

  /** The bytes of the answer: a frame, if it is a message. */
  function AnswerFrame(answer: Option<Result<Message>>): seq<byte> {
    match answer
    case Some(Ok(m)) => Frame(m)
    case _ => []
  }

  /** The device after it has answered m; its output ring is left aside. */
  function Answered(cfg: Config, s: DeviceState, m: Message): (t: DeviceState)
    requires Fitting(cfg, s) && |m.data| <= MAXDATALEN
    ensures Fitting(cfg, t) && t.input == []
  {
    var slot := Arrived(s.slot, m);
    var d := Dispatch(cfg, s.mem, s.streaming, slot);
    s.(input := [], slot := slot.(data := d.data), mem := d.mem, streaming := d.streaming)
  }

  /** Does the answer fit into the output ring, and does its frame start before the end of the ring's array? */
  predicate RoomFor(answer: Option<Result<Message>>, s: DeviceState) {
    answer.Some? && answer.value.Ok? ==>
      && |s.output| + |answer.value.value.data| + 10 <= MAXMESSAGELEN && s.front + |s.output| <= MAXMESSAGELEN
  }

  /** A drained output ring has room for every answer. */
  lemma DrainedHasRoom(answer: Option<Result<Message>>, s: DeviceState)
    requires s.output == [] && s.front < MAXMESSAGELEN
    requires answer.Some? && answer.value.Ok? ==> Sendable(answer.value.value)
    ensures RoomFor(answer, s)
  {
    hide Plain, AllPlain;
  }

  lemma SendableShort(m: Message)
    requires Sendable(m)
    ensures |m.data| <= MAXDATALEN
  {
  }

  lemma FrameSize(m: Message)
    requires Sendable(m)
    ensures 0 < |Frame(m)| == |m.data| + 10 <= MAXMESSAGELEN
  {
  }

  lemma DeliveredStep(cfg: Config, s: DeviceState, m: Message)
    requires Fitting(cfg, s) && Receive(s.input) == Receipt(Delivered(m), []) && |m.data| <= MAXDATALEN
    ensures var t := s.(input := [], slot := Arrived(s.slot, m));
      Fitting(cfg, t) && DeviceStep(cfg, s) == Dispatching(cfg, t)
      && Answer(cfg, s) == AnswerTo(cfg, s, m) && (m.command == 0 || Sendable(SlotMessage(t.slot)))
  {
    StepCases(cfg, s);
    hide Receive, DeviceStep, Dispatching, Dispatch, Answer, Sendable, MapFits;
    assert Store(s.slot, BoundedOutcome(s.input)) == Arrived(s.slot, m);
  }

  lemma ConcludeFrame(answer: Option<Result<Message>>, s: DeviceState)
    requires answer.Some? && answer.value.Ok? ==> Sendable(answer.value.value)
    requires |s.output| <= MAXMESSAGELEN && RoomFor(answer, s)
    ensures Conclude(answer, s).state == s.(output := s.output + AnswerFrame(answer))
  {
    hide Put, Frame, Sendable;
    if answer.Some? && answer.value.Ok? {
      PutAppendsFrame(s.output, answer.value.value);
    } else {
      assert s.output + [] == s.output;
    }
  }

  lemma DispatchingAnswers(cfg: Config, s: DeviceState, m: Message)
    requires Fitting(cfg, s) && |m.data| <= MAXDATALEN && RoomFor(AnswerTo(cfg, s, m), s)
    requires Fitting(cfg, s.(input := [], slot := Arrived(s.slot, m)))
    requires Sendable(SlotMessage(Arrived(s.slot, m)))
    ensures Dispatching(cfg, s.(input := [], slot := Arrived(s.slot, m))).state
      == Answered(cfg, s, m).(output := s.output + AnswerFrame(AnswerTo(cfg, s, m)))
  {
    var slot := Arrived(s.slot, m);
    hide Dispatch, Conclude, AnswerFrame, Arrived, Sendable, MapFits;
    var d := Dispatch(cfg, s.mem, s.streaming, slot);
    DispatchSendable(cfg, s.mem, s.streaming, slot);
    ConcludeFrame(d.answer, s.(input := [], slot := slot.(data := d.data), mem := d.mem, streaming := d.streaming));
  }

  /** Among answers that fit, exactly those with room are in reach. */
  lemma RoomIsReach(cfg: Config, s: DeviceState, m: Message)
    requires Fitting(cfg, s) && Sendable(m) && m.command != 0 && s.input == Frame(m)
    ensures |m.data| <= MAXDATALEN
    ensures var answer := AnswerTo(cfg, s, m);
      InReach(cfg, s) <==>
        (answer.Some? && answer.value.Ok? && |s.output| + |answer.value.value.data| + 10 <= MAXMESSAGELEN ==>
           s.front + |s.output| <= MAXMESSAGELEN)
  {
    SendableShort(m);
    RoundTrip(m, []);
    assert Frame(m) + [] == Frame(m);
    DeliveredStep(cfg, s, m);
    hide Receive, Frame, Sendable, Dispatch, Arrived, WithinReach, Answer, DeviceStep, Dispatching, MapFits;
    var answer := AnswerTo(cfg, s, m);
    if answer.Some? && answer.value.Ok? {
      DispatchSendable(cfg, s.mem, s.streaming, Arrived(s.slot, m));
      SendableWithin(s.front, |s.output|, answer.value.value);
    }
  }

  /** device_receive on a complete frame, with room for the answer. */
  lemma FrameStep(cfg: Config, s: DeviceState, m: Message)
    requires Fitting(cfg, s) && Sendable(m) && m.command != 0 && s.input == Frame(m)
    requires |m.data| <= MAXDATALEN && RoomFor(AnswerTo(cfg, s, m), s)
    ensures InReach(cfg, s)
    ensures DeviceStep(cfg, s).state == Answered(cfg, s, m).(output := s.output + AnswerFrame(AnswerTo(cfg, s, m)))
  {
    hide *;
    RoomIsReach(cfg, s, m);
    RoomMeans(AnswerTo(cfg, s, m), s);
    RoundTrip(m, []);
    assert Frame(m) + [] == Frame(m);
    DeliveredStep(cfg, s, m);
    DispatchingAnswers(cfg, s, m);
  }

  lemma RoomMeans(answer: Option<Result<Message>>, s: DeviceState)
    requires RoomFor(answer, s)
    ensures answer.Some? && answer.value.Ok? ==> s.front + |s.output| <= MAXMESSAGELEN
  {
  }

  /** The last byte of a frame arrives, and there is room for the answer: it is added to the output ring. */
  lemma CompletingTurn(cfg: Config, s: DeviceState, turn: Turn, m: Message)
    requires Fitting(cfg, s) && Sendable(m) && m.command != 0
    requires turn.rx == Some(END) && s.input + [END] == Frame(m)
    requires |m.data| <= MAXDATALEN && RoomFor(AnswerTo(cfg, s, m), Transmit(s, turn.ready))
    ensures Serves(cfg, s, [turn], AnswerFrame(AnswerTo(cfg, s, m)), Answered(cfg, s, m))
  {
    var u := Before(cfg, s, turn);
    var answer := AnswerTo(cfg, s, m);
    FrameSize(m);
    assert u == Transmit(s, turn.ready).(input := Frame(m)) by { hide Frame, Transmit, MapFits; }
    assert RoomFor(answer, u) by { hide Transmit, AnswerTo, Frame; }
    assert AnswerTo(cfg, u, m) == answer by { hide Dispatch, MapFits; }
    AnsweredCore(cfg, s, u, m);
    hide *;
    BeforeParts(cfg, s, turn);
    FrameStep(cfg, u, m);
    AnsweredParts(cfg, u, m, u.output + AnswerFrame(answer));
    OneTurn(cfg, s, turn);
    TurnParts(cfg, s, turn);
    Associates(Transmitted(s, turn.ready), u.output, AnswerFrame(answer));
    ServesIs(cfg, s, [turn], AnswerFrame(answer), Answered(cfg, s, m));
  }

  lemma AnsweredParts(cfg: Config, s: DeviceState, m: Message, out: seq<byte>)
    requires Fitting(cfg, s) && |m.data| <= MAXDATALEN
    ensures var t := Answered(cfg, s, m).(output := out);
      t.output == out && t.front == s.front && Core(t) == Core(Answered(cfg, s, m))
  {
    hide Dispatch, MapFits;
  }

  /** What a device answers does not depend on its rings and the last message. */
  lemma AnsweredCore(cfg: Config, s: DeviceState, t: DeviceState, m: Message)
    requires Fitting(cfg, s) && Fitting(cfg, t) && |m.data| <= MAXDATALEN && Core(s).(input := []) == Core(t).(input := [])
    ensures AnswerTo(cfg, t, m) == AnswerTo(cfg, s, m) && Core(Answered(cfg, t, m)) == Core(Answered(cfg, s, m))
  {
    assert s.slot.data == Core(s).slot.data && t.slot.data == Core(t).slot.data;
    assert s.mem == t.mem && s.streaming == t.streaming;
    hide Dispatch, MapFits;
  }

  // ---- Exchanges ----

  /** A message in its frame, behind noise; the turns in which these bytes arrive, the last one apart. */
  datatype Exchange = Exchange(noise: seq<byte>, m: Message, turns: seq<Turn>, last: Turn)

  predicate Carries(x: Exchange) {
    && END !in x.noise && Sendable(x.m) && x.m.command != 0
    && x.last.rx == Some(END) && Received(x.turns) + [END] == x.noise + Frame(x.m)
  }

  function AllTurns(x: Exchange): seq<Turn> {
    x.turns + [x.last]
  }

  /** When the frame is complete, is there room for the answer to its message? */
  predicate RoomAtEnd(cfg: Config, s: DeviceState, x: Exchange)
    requires Fitting(cfg, s)
  {
    |x.m.data| <= MAXDATALEN && RoomFor(AnswerTo(cfg, s, x.m), Transmit(After(cfg, s, x.turns), x.last.ready))
  }

  lemma CarriesParts(x: Exchange) returns (s: seq<byte>)
    requires Carries(x)
    ensures Sendable(x.m) && x.m.command != 0 && END !in x.noise && x.last.rx == Some(END)
    ensures Frame(x.m) == [START] + s + [END] && Inner(s) && 1 + |s| <= MAXMESSAGELEN
    ensures Received(x.turns) == x.noise + [START] + s
  {
    var f := Frame(x.m);
    s := f[1..|f| - 1];
    FrameInside(x.m);
    FrameSize(x.m);
    hide Frame, Sendable, Received;
    var r := Received(x.turns);
    var all := x.noise + f;
    assert r == all[..|all| - 1];
    assert all == (x.noise + [START] + s) + [END];
  }

  /** Before the last byte of its frame, a message has gathered in the input buffer and nothing has been answered. */
  lemma Gathered(cfg: Config, s: DeviceState, x: Exchange)
    requires Fitting(cfg, s) && END !in s.input && Carries(x)
    ensures var u := After(cfg, s, x.turns);
      u.input + [END] == Frame(x.m) && Serves(cfg, s, x.turns, [], s.(input := u.input))
  {
    hide *;
    var inside := CarriesParts(x);
    var i := SplitTurns(x.turns, x.noise, START, inside);
    var xs, turn, ys := x.turns[..i], x.turns[i], x.turns[i + 1..];
    var t := After(cfg, s, xs);
    QuietTurns(cfg, s, xs);
    BeforeInput(cfg, t, turn);
    StartPoll(t.input);
    NoMessageTurn(cfg, t, turn, [START]);
    OneTurn(cfg, t, turn);
    var u := AfterTurn(cfg, t, turn);
    StartOpen();
    FrameTurns(cfg, u, ys);
    assert x.turns == xs + ([turn] + ys);
    SilentAppend(cfg, t, [turn], ys, [START], [START] + inside);
    SilentAppend(cfg, s, xs, [turn] + ys, t.input, [START] + inside);
    TurnsAppend(cfg, t, [turn], ys);
    TurnsAppend(cfg, s, xs, [turn] + ys);
  }

  lemma StartOpen()
    ensures Open([START])
  {
  }

  lemma ExchangeGiven(cfg: Config, s: DeviceState, x: Exchange)
    requires Fitting(cfg, s) && END !in s.input && Carries(x) && RoomAtEnd(cfg, s, x)
    ensures |x.m.data| <= MAXDATALEN
    ensures Serves(cfg, s, AllTurns(x), AnswerFrame(AnswerTo(cfg, s, x.m)), Answered(cfg, s, x.m))
  {
    var u := After(cfg, s, x.turns);
    var reply := AnswerFrame(AnswerTo(cfg, s, x.m));
    ExchangeParts(cfg, s, x);
    hide *;
    Gathered(cfg, s, x);
    ServesIs(cfg, s, x.turns, [], s.(input := u.input));
    CoreNoInput(s, u);
    AnsweredCore(cfg, s, u, x.m);
    CompletingTurn(cfg, u, x.last, x.m);
    ServesCore(cfg, u, [x.last], reply, Answered(cfg, u, x.m), Answered(cfg, s, x.m));
    ServesAppend(cfg, s, x.turns, [x.last], [], reply, s.(input := u.input), Answered(cfg, s, x.m));
    assert [] + reply == reply;
  }

  lemma ExchangeParts(cfg: Config, s: DeviceState, x: Exchange)
    requires Fitting(cfg, s) && Carries(x) && RoomAtEnd(cfg, s, x)
    ensures |x.m.data| <= MAXDATALEN && Sendable(x.m) && x.m.command != 0 && x.last.rx == Some(END)
    ensures RoomFor(AnswerTo(cfg, s, x.m), Transmit(After(cfg, s, x.turns), x.last.ready))
    ensures AllTurns(x) == x.turns + [x.last]
  {
    hide After, AnswerTo, Frame, Received, Sendable, RoomFor;
  }

  lemma CoreNoInput(s: DeviceState, u: DeviceState)
    ensures Core(u) == Core(s.(input := u.input)) ==> Core(s).(input := []) == Core(u).(input := [])
  {
    assert Core(s.(input := u.input)).(input := []) == Core(s).(input := []);
  }

  /**
   * Whatever turns bring noise and a frame, with or without a byte in each and however the transmitter keeps up: if
   * there is room when the frame is complete, what has been transmitted and what waits is what waited before and the
   * frame of the answer, and nothing goes out of reach.
   */
  lemma ExchangeServed(cfg: Config, s: DeviceState, turns: seq<Turn>, last: Turn, noise: seq<byte>, m: Message)
    requires Fitting(cfg, s) && 0x0A !in s.input && 0x0A !in noise && Sendable(m) && m.command != 0 && |m.data| <= 54
    requires last.rx == Some(0x0A) && Received(turns) + [0x0A] == noise + Frame(m)
    requires var a, v := AnswerTo(cfg, s, m), Transmit(After(cfg, s, turns), last.ready);
      a.Some? && a.value.Ok? ==> |v.output| + |a.value.value.data| + 10 <= 64 && v.front + |v.output| <= 64
    ensures var all, t, end := turns + [last], Answered(cfg, s, m), After(cfg, s, turns + [last]);
      && AllInReach(cfg, s, all)
      && Sent(cfg, s, all) + end.output
         == s.output + (match AnswerTo(cfg, s, m) case Some(Ok(r)) => Frame(r) case _ => [])
      && end.front == (s.front + |Sent(cfg, s, all)|) % 64
      && end.input == [] && end.mem == t.mem && end.streaming == t.streaming && end.slot.data == t.slot.data
  {
    hide *;
    SendableShort(m);
    var x := Exchange(noise, m, turns, last);
    var reply := AnswerFrame(AnswerTo(cfg, s, m));
    ExchangeMade(cfg, s, x);
    ExchangeGiven(cfg, s, x);
    ServesIs(cfg, s, AllTurns(x), reply, Answered(cfg, s, m));
    AnswerBytes(AnswerTo(cfg, s, m));
    AheadIs(s.front, |Sent(cfg, s, turns + [last])|);
    CoreParts(After(cfg, s, turns + [last]), Answered(cfg, s, m));
  }

  lemma AnswerBytes(answer: Option<Result<Message>>)
    ensures AnswerFrame(answer) == match answer case Some(Ok(r)) => Frame(r) case _ => []
  {
    hide Frame;
  }

  lemma AheadIs(front: nat, n: nat)
    ensures Ahead(front, n) == (front + n) % 64
  {
  }

  lemma ExchangeMade(cfg: Config, s: DeviceState, x: Exchange)
    requires Fitting(cfg, s) && 0x0A !in s.input && 0x0A !in x.noise && Sendable(x.m) && x.m.command != 0
    requires |x.m.data| <= 54 && x.last.rx == Some(0x0A) && Received(x.turns) + [0x0A] == x.noise + Frame(x.m)
    requires var a, v := AnswerTo(cfg, s, x.m), Transmit(After(cfg, s, x.turns), x.last.ready);
      a.Some? && a.value.Ok? ==> |v.output| + |a.value.value.data| + 10 <= 64 && v.front + |v.output| <= 64
    ensures END !in s.input && Carries(x) && RoomAtEnd(cfg, s, x) && AllTurns(x) == x.turns + [x.last]
    ensures Answered(cfg, s, x.m).input == []
  {
    assert END == 0x0A && MAXDATALEN == 54;
    hide AnswerTo, Transmit, After, Received, Frame, Sendable, Answered;
  }

  /** An answer that fits but finds no room is out of reach. */
  lemma ExchangeReach(cfg: Config, s: DeviceState, x: Exchange)
    requires Fitting(cfg, s) && END !in s.input && Carries(x)
    ensures |x.m.data| <= MAXDATALEN
    ensures var answer, v := AnswerTo(cfg, s, x.m), Transmit(After(cfg, s, x.turns), x.last.ready);
      AllInReach(cfg, s, AllTurns(x)) <==>
        (answer.Some? && answer.value.Ok? && |v.output| + |answer.value.value.data| + 10 <= MAXMESSAGELEN ==>
           v.front + |v.output| <= MAXMESSAGELEN)
  {
    var u := After(cfg, s, x.turns);
    var v := Transmit(u, x.last.ready);
    var w := Before(cfg, u, x.last);
    Gathered(cfg, s, x);
    FrameSize(x.m);
    assert w == v.(input := Frame(x.m)) by { hide Frame, Transmit, After, MapFits; }
    hide *;
    SendableParts(x);
    SendableShort(x.m);
    TransmitParts(u, x.last.ready);
    ServesIs(cfg, s, x.turns, [], s.(input := u.input));
    CoreNoInput(s, u);
    CoreNoInputTwice(s, u, w);
    AnsweredCore(cfg, s, w, x.m);
    RoomIsReach(cfg, w, x.m);
    OneTurn(cfg, u, x.last);
    TurnsAppend(cfg, s, x.turns, [x.last]);
  }

  lemma SendableParts(x: Exchange)
    requires Carries(x)
    ensures Sendable(x.m) && x.m.command != 0 && AllTurns(x) == x.turns + [x.last]
  {
    hide Sendable, Frame, Received;
  }

  lemma CoreNoInputTwice(s: DeviceState, u: DeviceState, w: DeviceState)
    requires Core(s).(input := []) == Core(u).(input := [])
    ensures w.slot == u.slot && w.mem == u.mem && w.streaming == u.streaming ==> Core(s).(input := []) == Core(w).(input := [])
  {
  }

  // ---- Conversations ----

  function TurnsOf(xs: seq<Exchange>): seq<Turn> {
    if xs == [] then [] else AllTurns(xs[0]) + TurnsOf(xs[1..])
  }

  /** The frames of the answers, in order. */
  function Replies(cfg: Config, s: DeviceState, xs: seq<Exchange>): seq<byte>
    requires Fitting(cfg, s) && forall i :: 0 <= i < |xs| ==> |xs[i].m.data| <= MAXDATALEN
    decreases |xs|
  {
    if xs == [] then []
    else AnswerFrame(AnswerTo(cfg, s, xs[0].m)) + Replies(cfg, Answered(cfg, s, xs[0].m), xs[1..])
  }

  function Conversed(cfg: Config, s: DeviceState, xs: seq<Exchange>): (t: DeviceState)
    requires Fitting(cfg, s) && forall i :: 0 <= i < |xs| ==> |xs[i].m.data| <= MAXDATALEN
    ensures Fitting(cfg, t)
    decreases |xs|
  {
    if xs == [] then s else Conversed(cfg, Answered(cfg, s, xs[0].m), xs[1..])
  }

  /** Does every exchange find room when its frame is complete? */
  predicate RoomThroughout(cfg: Config, s: DeviceState, xs: seq<Exchange>)
    requires Fitting(cfg, s)
    decreases |xs|
  {
    xs == [] || (RoomAtEnd(cfg, s, xs[0]) && RoomThroughout(cfg, After(cfg, s, AllTurns(xs[0])), xs[1..]))
  }

  lemma ConversedFirst(cfg: Config, s: DeviceState, xs: seq<Exchange>)
    requires Fitting(cfg, s) && xs != [] && forall i :: 0 <= i < |xs| ==> |xs[i].m.data| <= MAXDATALEN
    ensures var t := Answered(cfg, s, xs[0].m);
      && Replies(cfg, s, xs) == AnswerFrame(AnswerTo(cfg, s, xs[0].m)) + Replies(cfg, t, xs[1..])
      && Conversed(cfg, s, xs) == Conversed(cfg, t, xs[1..])
      && TurnsOf(xs) == AllTurns(xs[0]) + TurnsOf(xs[1..])
      && (RoomThroughout(cfg, s, xs) <==>
            RoomAtEnd(cfg, s, xs[0]) && RoomThroughout(cfg, After(cfg, s, AllTurns(xs[0])), xs[1..]))
  {
    hide AnswerFrame, AnswerTo, Answered, AllTurns, RoomAtEnd, After, Fitting;
  }

  lemma {:induction false} ConversedCore(cfg: Config, s: DeviceState, t: DeviceState, xs: seq<Exchange>)
    requires Fitting(cfg, s) && Fitting(cfg, t) && Core(s) == Core(t)
    requires forall i :: 0 <= i < |xs| ==> |xs[i].m.data| <= MAXDATALEN
    ensures Replies(cfg, s, xs) == Replies(cfg, t, xs) && Core(Conversed(cfg, s, xs)) == Core(Conversed(cfg, t, xs))
    decreases |xs|
  {
    if xs == [] {
    } else {
      hide *;
      ConversedFirst(cfg, s, xs);
      ConversedFirst(cfg, t, xs);
      AnsweredCore(cfg, s, t, xs[0].m);
      ConversedCore(cfg, Answered(cfg, s, xs[0].m), Answered(cfg, t, xs[0].m), xs[1..]);
    }
  }

  lemma AnsweredInput(cfg: Config, s: DeviceState, t: DeviceState, m: Message)
    requires Fitting(cfg, s) && |m.data| <= MAXDATALEN && Core(t) == Core(Answered(cfg, s, m))
    ensures t.input == [] && END !in t.input
  {
    hide Answered;
    assert Core(t).input == t.input;
  }

  /**
   * Any number of frames between any noise, in any turns: as long as there is room for each answer when its frame is
   * complete, the answers are added to the output, all of them and in order, and nothing goes out of reach.
   */
  lemma {:induction false} ConversationServed(cfg: Config, s: DeviceState, xs: seq<Exchange>)
    requires Fitting(cfg, s) && END !in s.input && RoomThroughout(cfg, s, xs)
    requires forall i :: 0 <= i < |xs| ==> Carries(xs[i]) && |xs[i].m.data| <= 54
    ensures Serves(cfg, s, TurnsOf(xs), Replies(cfg, s, xs), Conversed(cfg, s, xs))
    decreases |xs|
  {
    if xs == [] {
      assert TurnsOf(xs) == [] && Replies(cfg, s, xs) == [] && Conversed(cfg, s, xs) == s by { hide Fitting; }
      hide *;
      ServesNone(cfg, s);
    } else {
      hide *;
      ConversedFirst(cfg, s, xs);
      var t, u := After(cfg, s, AllTurns(xs[0])), Answered(cfg, s, xs[0].m);
      ExchangeGiven(cfg, s, xs[0]);
      ServesIs(cfg, s, AllTurns(xs[0]), AnswerFrame(AnswerTo(cfg, s, xs[0].m)), u);
      AnsweredInput(cfg, s, t, xs[0].m);
      ConversationServed(cfg, t, xs[1..]);
      ConversedCore(cfg, t, u, xs[1..]);
      ServesCore(cfg, t, TurnsOf(xs[1..]), Replies(cfg, t, xs[1..]), Conversed(cfg, t, xs[1..]), Conversed(cfg, u, xs[1..]));
      ServesAppend(cfg, s, AllTurns(xs[0]), TurnsOf(xs[1..]), AnswerFrame(AnswerTo(cfg, s, xs[0].m)),
                   Replies(cfg, t, xs[1..]), u, Conversed(cfg, u, xs[1..]));
    }
  }

  // ---- Commands that reach no register ----

  /** A message whose command has no handler is answered by an error reply, and changes no register. */
  lemma RefusedAnswer(cfg: Config, s: DeviceState, m: Message)
    requires Fitting(cfg, s) && |m.data| <= MAXDATALEN && m.command != 0 && !HasHandler(cfg, m.command)
    ensures AnswerTo(cfg, s, m) == Some(Ok(ErrorReply(m, CommandNotImplemented)))
    ensures ErrorReply(m, CommandNotImplemented) == Message(m.ascVersion, m.appVersion, 0x65,
              [0x31, 0x35, 0x2C, m.command, 0x2C] + if |m.data| <= 9 then m.data else m.data[..9])
    ensures Answered(cfg, s, m).mem == s.mem && Answered(cfg, s, m).streaming == s.streaming
  {
    var slot := Arrived(s.slot, m);
    assert slot.data[..slot.dataLen] == m.data;
    assert SlotMessage(slot) == m;
    var digits: seq<byte> := [0x31, 0x35];
    assert digits + [0x2C, m.command, 0x2C] == [0x31, 0x35, 0x2C, m.command, 0x2C];
    ErrorReplyBytes(m, CommandNotImplemented);
    hide ErrorReply, MapFits, Handle, Overwrite;
  }

  /** 'n' and 'f' switch streaming on or off, without an answer. */
  lemma StreamingAnswer(cfg: Config, s: DeviceState, m: Message)
    requires Fitting(cfg, s) && |m.data| <= MAXDATALEN
    requires cfg.handlesNf && (m.command == 0x6E || m.command == 0x66)
    ensures AnswerTo(cfg, s, m) == None && Answered(cfg, s, m).mem == s.mem
    ensures Answered(cfg, s, m).streaming <==> m.command == 0x6E
  {
    assert STREAMING_ON == 0x6E && STREAMING_OFF == 0x66;
    hide MapFits, Handle, Overwrite;
  }

  /** 'z' has no answer and no effect but on the data buffer. */
  lemma NoopAnswer(cfg: Config, s: DeviceState, m: Message)
    requires Fitting(cfg, s) && |m.data| <= MAXDATALEN && m.command == 0x7A
    ensures AnswerTo(cfg, s, m) == None && Answered(cfg, s, m).slot.data == m.data + s.slot.data[|m.data|..]
    ensures Answered(cfg, s, m).mem == s.mem && Answered(cfg, s, m).streaming == s.streaming
  {
    assert NOOP == 0x7A;
    hide MapFits, Handle;
  }

  // ---- Registers over the wire ----

  /** The text of a register number: its four hexadecimal digits. */
  ghost predicate Names(numText: seq<byte>, n: nat) {
    |numText| == 4 && Parse16(numText).Ok? && Parse16(numText).value as nat == n
  }

  lemma HexNames(num: bv16, caps: bool)
    ensures Names(HexOf16(num, caps), num as nat)
  {
    hide HexOf16, Parse16;
    HexOf16Parses(num, caps);
  }

  function ReadRequest(ascVersion: byte, appVersion: byte, numText: seq<byte>): Message {
    Message(ascVersion, appVersion, READ, numText)
  }

  function WriteRequest(ascVersion: byte, appVersion: byte, numText: seq<byte>, valText: seq<byte>): Message {
    Message(ascVersion, appVersion, WRITE, numText + [COMMA] + valText)
  }

  /** What memory holds after v is written to register n; a null entry takes no value. */
  function WrittenMemory(regs: RegisterMap, mem: seq<word32>, n: nat, v: word32): (r: seq<word32>)
    requires MapFits(regs, |mem|) && n < regs.nRegs
    ensures |r| == |mem|
  {
    WriteValue(regs, mem, n, Some(v))
  }

  /** Is n a register of a device that handles reads and writes? */
  predicate HasRegister(cfg: Config, n: nat) {
    cfg.handlesRw && cfg.regs.Some? && n < cfg.regs.value.nRegs
  }

  lemma RegisterParts(cfg: Config, s: DeviceState, n: nat)
    requires Fitting(cfg, s) && HasRegister(cfg, n)
    ensures cfg.regs.Some? && MapFits(cfg.regs.value, |s.mem|) && n < cfg.regs.value.nRegs
  {
    hide MapFits;
  }

  /** Read and write requests go to the register handler. */
  lemma HandlerAnswers(cfg: Config, s: DeviceState, m: Message)
    requires Fitting(cfg, s) && |m.data| <= MAXDATALEN && cfg.handlesRw && (m.command == READ || m.command == WRITE)
    ensures var h := Handle(cfg.regs, s.mem, Arrived(s.slot, m));
      && AnswerTo(cfg, s, m) == Some(h.answer) && Answered(cfg, s, m).streaming == s.streaming
      && Answered(cfg, s, m).mem == h.mem && Answered(cfg, s, m).input == []
  {
    assert READ != 0 && READ != NOOP && WRITE != 0 && WRITE != NOOP;
    hide Handle, Overwrite, MapFits;
  }

  /** A read is answered by the register's number as it came and its value in upper-case hex. */
  lemma ReadAnswer(cfg: Config, s: DeviceState, ascVersion: byte, appVersion: byte, numText: seq<byte>, n: nat)
    requires Fitting(cfg, s) && HasRegister(cfg, n) && Names(numText, n)
    ensures var m := ReadRequest(ascVersion, appVersion, numText);
      && |m.data| <= MAXDATALEN
      && AnswerTo(cfg, s, m)
         == Some(Ok(m.(data := numText + [COMMA] + HexOf32(ReadValue(cfg.regs.value, s.mem, n), true))))
      && Answered(cfg, s, m).mem == s.mem
  {
    var m := ReadRequest(ascVersion, appVersion, numText);
    var slot := Arrived(s.slot, m);
    assert slot.data[..4] == numText && slot.data[0..4] == numText;
    HandlerAnswers(cfg, s, m);
    hide HexOf32, Parse16, MapFits, Overwrite, Handle, Access, AnswerTo, Answered;
    HandleCases(cfg.regs, s.mem, slot);
    AccessCases(cfg.regs.value, s.mem, slot, n);
  }

  lemma WriteText(data: seq<byte>, numText: seq<byte>, valText: seq<byte>)
    requires |numText| == 4 && |valText| == 8 && MAXDATALEN <= |data|
    ensures var d := Overwrite(data, numText + [COMMA] + valText);
      d[..4] == numText && d[0..4] == numText && d[5..13] == valText
  {
  }

  /** A write of a value with all its digits stores its bits inside the mask and is answered by the register's number. */
  lemma WriteAnswer(cfg: Config, s: DeviceState, ascVersion: byte, appVersion: byte,
                    numText: seq<byte>, valText: seq<byte>, n: nat)
    requires Fitting(cfg, s) && HasRegister(cfg, n) && Names(numText, n)
    requires |valText| == 8 && Parse32(valText).Ok?
    ensures var m := WriteRequest(ascVersion, appVersion, numText, valText);
      && |m.data| <= MAXDATALEN
      && AnswerTo(cfg, s, m) == Some(Ok(m.(data := numText)))
      && Answered(cfg, s, m).mem == WrittenMemory(cfg.regs.value, s.mem, n, Parse32(valText).value)
  {
    var m := WriteRequest(ascVersion, appVersion, numText, valText);
    var slot := Arrived(s.slot, m);
    WriteText(s.slot.data, numText, valText);
    HandlerAnswers(cfg, s, m);
    assert WRITE != READ;
    hide Parse16, Parse32, MapFits, Overwrite, Masked, Handle, Access, AnswerTo, Answered;
    HandleCases(cfg.regs, s.mem, slot);
    AccessCases(cfg.regs.value, s.mem, slot, n);
  }

  /** An exchange whose answer is the message r. */
  lemma AnsweredOverWire(cfg: Config, s: DeviceState, x: Exchange, r: Message)
    requires Fitting(cfg, s) && END !in s.input && Carries(x) && RoomAtEnd(cfg, s, x)
    requires AnswerTo(cfg, s, x.m) == Some(Ok(r))
    ensures Serves(cfg, s, AllTurns(x), Frame(r), Answered(cfg, s, x.m))
    ensures var t := After(cfg, s, AllTurns(x));
      t.mem == Answered(cfg, s, x.m).mem && t.slot.data == Answered(cfg, s, x.m).slot.data && t.input == []
  {
    assert AnswerFrame(Some(Ok(r))) == Frame(r) by { hide Frame; }
    hide *;
    ExchangeGiven(cfg, s, x);
    ServesIs(cfg, s, AllTurns(x), Frame(r), Answered(cfg, s, x.m));
    CoreParts(After(cfg, s, AllTurns(x)), Answered(cfg, s, x.m));
  }

  lemma CoreParts(s: DeviceState, t: DeviceState)
    requires Core(s) == Core(t)
    ensures s.input == t.input && s.mem == t.mem && s.streaming == t.streaming && s.slot.data == t.slot.data
  {
    assert Core(s).slot.data == s.slot.data && Core(t).slot.data == t.slot.data;
  }

  lemma WriteServed(cfg: Config, s: DeviceState, x: Exchange, ascVersion: byte, appVersion: byte,
                    numText: seq<byte>, valText: seq<byte>, n: nat)
    requires Fitting(cfg, s) && END !in s.input && Carries(x) && RoomAtEnd(cfg, s, x)
    requires HasRegister(cfg, n) && Names(numText, n) && |valText| == 8 && Parse32(valText).Ok?
    requires x.m == WriteRequest(ascVersion, appVersion, numText, valText)
    ensures Serves(cfg, s, AllTurns(x), Frame(x.m.(data := numText)), Answered(cfg, s, x.m))
    ensures var t := After(cfg, s, AllTurns(x));
      t.mem == WrittenMemory(cfg.regs.value, s.mem, n, Parse32(valText).value) && t.input == []
  {
    hide *;
    WriteAnswer(cfg, s, ascVersion, appVersion, numText, valText, n);
    AnsweredOverWire(cfg, s, x, x.m.(data := numText));
  }

  /** The frame of a write, in any turns that find room for the answer; to a null entry it stores nothing. */
  lemma WriteOverWire(cfg: Config, s: DeviceState, x: Exchange, ascVersion: byte, appVersion: byte,
                      numText: seq<byte>, valText: seq<byte>, n: nat, stored: word32)
    requires Fitting(cfg, s) && END !in s.input && Carries(x) && RoomAtEnd(cfg, s, x)
    requires HasRegister(cfg, n) && Names(numText, n) && |valText| == 8 && Parse32(valText).Ok?
    requires x.m == WriteRequest(ascVersion, appVersion, numText, valText)
    requires match cfg.regs.value.pointers[n]
      case None => true
      case Some(cell) =>
        var v, mask := Parse32(valText).value, cfg.regs.value.writeMasks[n];
        stored == (v & mask) | (s.mem[cell] & !mask)
    ensures Serves(cfg, s, AllTurns(x), Frame(x.m.(data := numText)), Answered(cfg, s, x.m))
    ensures var t := After(cfg, s, AllTurns(x));
      && t.input == []
      && t.mem == match cfg.regs.value.pointers[n] case None => s.mem case Some(cell) => s.mem[cell := stored]
  {
    RegisterParts(cfg, s, n);
    assert cfg.regs.value.pointers[n].Some? ==> cfg.regs.value.pointers[n].value < |s.mem|;
    hide *;
    WrittenBits(cfg.regs.value, s.mem, n, Parse32(valText).value, stored);
    WriteServed(cfg, s, x, ascVersion, appVersion, numText, valText, n);
  }

  /** The frame of a read, in any turns that find room for the answer. */
  lemma ReadOverWire(cfg: Config, s: DeviceState, x: Exchange, ascVersion: byte, appVersion: byte,
                     numText: seq<byte>, n: nat)
    requires Fitting(cfg, s) && END !in s.input && Carries(x) && RoomAtEnd(cfg, s, x)
    requires HasRegister(cfg, n) && Names(numText, n) && x.m == ReadRequest(ascVersion, appVersion, numText)
    ensures Serves(cfg, s, AllTurns(x),
                   Frame(x.m.(data := numText + [COMMA] + HexOf32(ReadValue(cfg.regs.value, s.mem, n), true))),
                   Answered(cfg, s, x.m))
    ensures After(cfg, s, AllTurns(x)).mem == s.mem && After(cfg, s, AllTurns(x)).input == []
  {
    var value := ReadValue(cfg.regs.value, s.mem, n);
    hide *;
    ReadAnswer(cfg, s, ascVersion, appVersion, numText, n);
    AnsweredOverWire(cfg, s, x, x.m.(data := numText + [COMMA] + HexOf32(value, true)));
  }

  lemma WrittenBits(regs: RegisterMap, mem: seq<word32>, n: nat, v: word32, stored: word32)
    requires MapFits(regs, |mem|) && n < regs.nRegs
    requires match regs.pointers[n]
      case None => true
      case Some(cell) => stored == (v & regs.writeMasks[n]) | (mem[cell] & !regs.writeMasks[n])
    ensures WrittenMemory(regs, mem, n, v)
      == match regs.pointers[n] case None => mem case Some(cell) => mem[cell := stored]
  {
    WrittenCell(regs, mem, n, v);
    hide *;
    match regs.pointers[n] {
      case None =>
      case Some(cell) => MaskedValue(mem[cell], v, regs.writeMasks[n]);
    }
  }

  lemma WrittenCell(regs: RegisterMap, mem: seq<word32>, n: nat, v: word32)
    requires MapFits(regs, |mem|) && n < regs.nRegs
    ensures WrittenMemory(regs, mem, n, v)
      == match regs.pointers[n]
         case None => mem
         case Some(cell) => mem[cell := Masked(mem[cell], v, regs.writeMasks[n])]
  {
    hide Masked;
  }

  lemma ReadBackBits(regs: RegisterMap, mem: seq<word32>, n: nat, v: word32)
    requires MapFits(regs, |mem|) && n < regs.nRegs
    ensures ReadBack(regs, mem, n, v)
      == match regs.pointers[n]
         case None => 0
         case Some(cell) => (v & regs.writeMasks[n]) | (mem[cell] & !regs.writeMasks[n])
  {
    hide Masked;
    if regs.pointers[n].Some? {
      MaskedValue(mem[regs.pointers[n].value], v, regs.writeMasks[n]);
    }
  }

  /** What a register reads after v is written to it: its masked bits, or 0 if its entry is null. */
  function ReadBack(regs: RegisterMap, mem: seq<word32>, n: nat, v: word32): word32
    requires MapFits(regs, |mem|) && n < regs.nRegs
  {
    match regs.pointers[n]
    case None => 0
    case Some(cell) => Masked(mem[cell], v, regs.writeMasks[n])
  }

  lemma WrittenReadsBack(regs: RegisterMap, mem: seq<word32>, n: nat, v: word32)
    requires MapFits(regs, |mem|) && n < regs.nRegs
    ensures ReadValue(regs, WrittenMemory(regs, mem, n, v), n) == ReadBack(regs, mem, n, v)
  {
    hide Masked;
  }

  lemma WriteThenReadServed(cfg: Config, s: DeviceState, x: Exchange, y: Exchange, ascVersion: byte, appVersion: byte,
                            num1: seq<byte>, num2: seq<byte>, valText: seq<byte>, n: nat)
    requires Fitting(cfg, s) && END !in s.input && Carries(x) && Carries(y)
    requires RoomAtEnd(cfg, s, x) && RoomAtEnd(cfg, After(cfg, s, AllTurns(x)), y)
    requires HasRegister(cfg, n) && Names(num1, n) && Names(num2, n) && |valText| == 8 && Parse32(valText).Ok?
    requires x.m == WriteRequest(ascVersion, appVersion, num1, valText)
    requires y.m == ReadRequest(ascVersion, appVersion, num2)
    ensures var value := ReadBack(cfg.regs.value, s.mem, n, Parse32(valText).value);
      var t := After(cfg, s, AllTurns(x));
      Serves(cfg, s, AllTurns(x) + AllTurns(y),
             Frame(x.m.(data := num1)) + Frame(y.m.(data := num2 + [COMMA] + HexOf32(value, true))),
             Answered(cfg, t, y.m))
  {
    var t, v := After(cfg, s, AllTurns(x)), Parse32(valText).value;
    assert MapFits(cfg.regs.value, |s.mem|);
    assert n < cfg.regs.value.nRegs && |x.m.data| <= MAXDATALEN;
    hide *;
    WriteServed(cfg, s, x, ascVersion, appVersion, num1, valText, n);
    ReadOverWire(cfg, t, y, ascVersion, appVersion, num2, n);
    WrittenReadsBack(cfg.regs.value, s.mem, n, v);
    ServesAppend(cfg, s, AllTurns(x), AllTurns(y), Frame(x.m.(data := num1)),
                 Frame(y.m.(data := num2 + [COMMA] + HexOf32(ReadBack(cfg.regs.value, s.mem, n, v), true))),
                 Answered(cfg, s, x.m), Answered(cfg, t, y.m));
  }

  /**
   * The frame of a write, then the frame of a read: the device echoes the register number, then sends the number and
   * the upper-case hex of the masked value, or of 0 for a null entry.
   */
  lemma WriteThenRead(cfg: Config, s: DeviceState, x: Exchange, y: Exchange, ascVersion: byte, appVersion: byte,
                      num1: seq<byte>, num2: seq<byte>, valText: seq<byte>, n: nat, value: word32)
    requires Fitting(cfg, s) && END !in s.input && Carries(x) && Carries(y)
    requires RoomAtEnd(cfg, s, x) && RoomAtEnd(cfg, After(cfg, s, AllTurns(x)), y)
    requires HasRegister(cfg, n) && Names(num1, n) && Names(num2, n) && |valText| == 8 && Parse32(valText).Ok?
    requires x.m == WriteRequest(ascVersion, appVersion, num1, valText)
    requires y.m == ReadRequest(ascVersion, appVersion, num2)
    requires value
      == match cfg.regs.value.pointers[n]
         case None => 0
         case Some(cell) =>
           var v, mask := Parse32(valText).value, cfg.regs.value.writeMasks[n];
           (v & mask) | (s.mem[cell] & !mask)
    ensures Serves(cfg, s, AllTurns(x) + AllTurns(y),
                   Frame(x.m.(data := num1)) + Frame(y.m.(data := num2 + [0x2C] + HexOf32(value, true))),
                   Answered(cfg, After(cfg, s, AllTurns(x)), y.m))
  {
    assert COMMA == 0x2C;
    hide *;
    RegisterParts(cfg, s, n);
    ReadBackBits(cfg.regs.value, s.mem, n, Parse32(valText).value);
    WriteThenReadServed(cfg, s, x, y, ascVersion, appVersion, num1, num2, valText, n);
  }

  /** The same for a register number and a value, written in hex of either case. */
  lemma WriteThenReadNumbers(cfg: Config, s: DeviceState, x: Exchange, y: Exchange, ascVersion: byte, appVersion: byte,
                             num: bv16, v: word32, caps: bool, value: word32)
    requires Fitting(cfg, s) && END !in s.input && Carries(x) && Carries(y)
    requires RoomAtEnd(cfg, s, x) && RoomAtEnd(cfg, After(cfg, s, AllTurns(x)), y) && HasRegister(cfg, num as nat)
    requires x.m == WriteRequest(ascVersion, appVersion, HexOf16(num, caps), HexOf32(v, caps))
    requires y.m == ReadRequest(ascVersion, appVersion, HexOf16(num, caps))
    requires value
      == match cfg.regs.value.pointers[num as nat]
         case None => 0
         case Some(cell) =>
           (v & cfg.regs.value.writeMasks[num as nat]) | (s.mem[cell] & !cfg.regs.value.writeMasks[num as nat])
    ensures |y.m.data| <= MAXDATALEN
    ensures Serves(cfg, s, AllTurns(x) + AllTurns(y),
                   Frame(x.m.(data := HexOf16(num, caps)))
                   + Frame(y.m.(data := HexOf16(num, caps) + [0x2C] + HexOf32(value, true))),
                   Answered(cfg, After(cfg, s, AllTurns(x)), y.m))
  {
    assert |y.m.data| <= MAXDATALEN;
    hide *;
    HexNames(num, caps);
    HexOf32Parses(v, caps);
    WriteThenRead(cfg, s, x, y, ascVersion, appVersion, HexOf16(num, caps), HexOf16(num, caps), HexOf32(v, caps),
                  num as nat, value);
  }

  // ---- Digits left behind by an earlier message ----

  /** The buffer after a message with thirteen data bytes and then one with nine. */
  lemma LeftBehind(data: seq<byte>, filler: seq<byte>, tail: seq<byte>, numText: seq<byte>, half: seq<byte>)
    requires MAXDATALEN <= |data| && |filler| == 9 && |tail| == 4 && |numText| == 4 && |half| == 4
    ensures var d := Overwrite(Overwrite(data, filler + tail), numText + [COMMA] + half);
      d[..4] == numText && d[0..4] == numText && d[5..13] == half + tail
  {
    var e := Overwrite(data, filler + tail);
    assert e[9..13] == tail;
    var d := Overwrite(e, numText + [COMMA] + half);
    assert d[5..9] == half;
    assert d[9..13] == e[9..13];
    assert d[5..13] == d[5..9] + d[9..13];
  }

  /** A write with four of its eight digits, after a 'z' message that has left four others in the data buffer. */
  lemma ShortWriteAnswer(cfg: Config, s: DeviceState, filled: Message, short: Message,
                         filler: seq<byte>, tail: seq<byte>, numText: seq<byte>, half: seq<byte>, n: nat)
    requires Fitting(cfg, s) && HasRegister(cfg, n) && Names(numText, n)
    requires |filler| == 9 && |tail| == 4 && |half| == 4 && Parse32(half + tail).Ok?
    requires filled.command == NOOP && filled.data == filler + tail
    requires short.command == WRITE && short.data == numText + [COMMA] + half
    ensures |filled.data| == 13 && |short.data| == 9
    ensures var t := Answered(cfg, s, filled);
      && AnswerTo(cfg, t, short) == Some(Ok(short.(data := numText)))
      && Answered(cfg, t, short).mem == WrittenMemory(cfg.regs.value, s.mem, n, Parse32(half + tail).value)
  {
    var t := Answered(cfg, s, filled);
    var slot := Arrived(t.slot, short);
    NoopAnswer(cfg, s, filled);
    LeftBehind(s.slot.data, filler, tail, numText, half);
    HandlerAnswers(cfg, t, short);
    assert WRITE != READ;
    hide Parse16, Parse32, MapFits, Overwrite, Masked, Handle, Access, AnswerTo, Answered;
    HandleCases(cfg.regs, t.mem, slot);
    AccessCases(cfg.regs.value, t.mem, slot, n);
  }

  /** The same in frames: what a short write stores is completed by the digits of an earlier frame. */
  lemma ShortWriteOverWire(cfg: Config, s: DeviceState, x: Exchange, y: Exchange,
                           filler: seq<byte>, tail: seq<byte>, numText: seq<byte>, half: seq<byte>, n: nat)
    requires Fitting(cfg, s) && END !in s.input && Carries(x) && Carries(y)
    requires RoomAtEnd(cfg, s, x) && RoomAtEnd(cfg, After(cfg, s, AllTurns(x)), y)
    requires HasRegister(cfg, n) && Names(numText, n)
    requires |filler| == 9 && |tail| == 4 && |half| == 4 && Parse32(half + tail).Ok?
    requires x.m.command == NOOP && x.m.data == filler + tail
    requires y.m.command == WRITE && y.m.data == numText + [COMMA] + half
    ensures After(cfg, s, AllTurns(x) + AllTurns(y)).mem
      == WrittenMemory(cfg.regs.value, s.mem, n, Parse32(half + tail).value)
  {
    var t := After(cfg, s, AllTurns(x));
    assert |x.m.data| <= MAXDATALEN && |y.m.data| <= MAXDATALEN;
    hide *;
    NoopAnswer(cfg, s, x.m);
    ShortWriteAnswer(cfg, s, x.m, y.m, filler, tail, numText, half, n);
    ExchangeGiven(cfg, s, x);
    ServesIs(cfg, s, AllTurns(x), AnswerFrame(AnswerTo(cfg, s, x.m)), Answered(cfg, s, x.m));
    AnsweredInput(cfg, s, t, x.m);
    AnsweredSame(cfg, t, Answered(cfg, s, x.m), y.m);
    AnsweredOverWire(cfg, t, y, y.m.(data := numText));
    TurnsAppend(cfg, s, AllTurns(x), AllTurns(y));
  }

  lemma AnsweredSame(cfg: Config, s: DeviceState, t: DeviceState, m: Message)
    requires Fitting(cfg, s) && Fitting(cfg, t) && |m.data| <= MAXDATALEN && Core(s) == Core(t)
    ensures AnswerTo(cfg, s, m) == AnswerTo(cfg, t, m) && Answered(cfg, s, m).mem == Answered(cfg, t, m).mem
  {
    hide *;
    AnsweredCore(cfg, s, t, m);
    CoreParts(Answered(cfg, s, m), Answered(cfg, t, m));
  }

  lemma ShortWriteValues()
    ensures var half, zeros, fs: seq<byte> := [0x31, 0x32, 0x33, 0x34], [0x30, 0x30, 0x30, 0x30], [0x46, 0x46, 0x46, 0x46];
      Parse32(half + zeros) == Ok(0x12340000) && Parse32(half + fs) == Ok(0x1234FFFF)
  {
    var half, zeros, fs: seq<byte> := [0x31, 0x32, 0x33, 0x34], [0x30, 0x30, 0x30, 0x30], [0x46, 0x46, 0x46, 0x46];
    assert half + zeros == [0x31, 0x32, 0x33, 0x34, 0x30, 0x30, 0x30, 0x30];
    assert half + fs == [0x31, 0x32, 0x33, 0x34, 0x46, 0x46, 0x46, 0x46];
    assert forall s: seq<byte> :: |s| == 8 ==>
      && s[0..2] == [s[0], s[1]] && s[2..4] == [s[2], s[3]] && s[4..6] == [s[4], s[5]] && s[6..8] == [s[6], s[7]];
  }

  lemma Zero()
    ensures Names([0x30, 0x30, 0x30, 0x30], 0)
  {
    var s: seq<byte> := [0x30, 0x30, 0x30, 0x30];
    assert s[0..2] == [0x30, 0x30] && s[2..4] == [0x30, 0x30];
    assert Join16(0, 0) == 0 && Join(0, 0) == 0;
  }

  /**
   * The frame of `w 0000,1234`, after a frame with thirteen '0's and after one with nine '0's and four 'F's: one and
   * the same write leaves two different values in a register that is writable in full.
   */
  lemma ShortWriteExample(cfg: Config, s: DeviceState, x: Exchange, x': Exchange, y: Exchange, y': Exchange, cell: nat)
    requires Fitting(cfg, s) && END !in s.input && Carries(x) && Carries(x') && Carries(y) && Carries(y') && y.m == y'.m
    requires RoomAtEnd(cfg, s, x) && RoomAtEnd(cfg, After(cfg, s, AllTurns(x)), y)
    requires RoomAtEnd(cfg, s, x') && RoomAtEnd(cfg, After(cfg, s, AllTurns(x')), y')
    requires HasRegister(cfg, 0) && cfg.regs.value.pointers[0] == Some(cell) && cfg.regs.value.writeMasks[0] == 0xFFFFFFFF
    requires x.m.command == NOOP && x.m.data == seq(9, _ => 0x30) + [0x30, 0x30, 0x30, 0x30]
    requires x'.m.command == NOOP && x'.m.data == seq(9, _ => 0x30) + [0x46, 0x46, 0x46, 0x46]
    requires y.m.command == WRITE && y.m.data == [0x30, 0x30, 0x30, 0x30] + [COMMA] + [0x31, 0x32, 0x33, 0x34]
    ensures After(cfg, s, AllTurns(x) + AllTurns(y)).mem == s.mem[cell := 0x12340000]
    ensures After(cfg, s, AllTurns(x') + AllTurns(y')).mem == s.mem[cell := 0x1234FFFF]
  {
    var half, zeros, fs: seq<byte> := [0x31, 0x32, 0x33, 0x34], [0x30, 0x30, 0x30, 0x30], [0x46, 0x46, 0x46, 0x46];
    var filler: seq<byte> := seq(9, _ => 0x30);
    assert |filler| == 9;
    assert MapFits(cfg.regs.value, |s.mem|) && cell < |s.mem| && 0 < cfg.regs.value.nRegs;
    FullMask(cfg.regs.value, s.mem, cell, 0x12340000);
    FullMask(cfg.regs.value, s.mem, cell, 0x1234FFFF);
    hide *;
    Zero();
    ShortWriteValues();
    ShortWriteOverWire(cfg, s, x, y, filler, zeros, zeros, half, 0);
    ShortWriteOverWire(cfg, s, x', y', filler, fs, zeros, half, 0);
  }

  lemma FullMask(regs: RegisterMap, mem: seq<word32>, cell: nat, v: word32)
    requires MapFits(regs, |mem|) && 0 < regs.nRegs && regs.pointers[0] == Some(cell) && regs.writeMasks[0] == 0xFFFFFFFF
    ensures cell < |mem| && WrittenMemory(regs, mem, 0, v) == mem[cell := v]
  {
    FullMaskRaw(mem[cell], v);
    hide Masked;
  }

  lemma FullMaskRaw(was: word32, v: word32)
    ensures Masked(was, v, 0xFFFFFFFF) == v
  {
  }

  // ---- Register memory over any turns ----

  /** The request that reaches the register handler when device_receive finds u, if one does. */
  function Request(cfg: Config, u: DeviceState): (q: seq<SlotValue>)
    requires Fitting(cfg, u)
    ensures |q| <= 1
  {
    var slot := Store(u.slot, BoundedOutcome(u.input));
    if StatusOf(Receive(u.input).outcome).Done? && (slot.command == READ || slot.command == WRITE) && cfg.handlesRw
    then [slot] else []
  }

  function Requests(cfg: Config, s: DeviceState, turns: seq<Turn>): seq<SlotValue>
    requires Fitting(cfg, s)
    decreases |turns|
  {
    if turns == [] then []
    else Request(cfg, Before(cfg, s, turns[0])) + Requests(cfg, AfterTurn(cfg, s, turns[0]), turns[1..])
  }

  lemma StepMemory(cfg: Config, u: DeviceState)
    requires Fitting(cfg, u) && cfg.regs.Some?
    ensures AllRequests(Request(cfg, u))
    ensures DeviceStep(cfg, u).state.mem
      == if Request(cfg, u) == [] then u.mem else Handle(cfg.regs, u.mem, Request(cfg, u)[0]).mem
  {
    StepCases(cfg, u);
    var t := u.(input := Receive(u.input).rest, slot := Store(u.slot, BoundedOutcome(u.input)));
    StoredFits(u.slot, u.input);
    assert READ != 0 && WRITE != 0 && NOOP != READ && NOOP != WRITE;
    hide Receive, DeviceStep, Dispatching, Dispatch, Answer, Handle, Store, BoundedOutcome, MapFits, Put, Encoded, IsRequest;
    if StatusOf(Receive(u.input).outcome).Done? {
      if t.slot.command == 0 || t.slot.command == NOOP {
        NothingCase(cfg, t);
      } else if (t.slot.command == READ || t.slot.command == WRITE) && cfg.handlesRw {
        RwCase(cfg, t);
      } else if (t.slot.command == STREAMING_ON || t.slot.command == STREAMING_OFF) && cfg.handlesNf {
        StreamingCase(cfg, t);
      } else {
        RefusedCase(cfg, t);
      }
    }
  }

  predicate AllRequests(qs: seq<SlotValue>) {
    forall i :: 0 <= i < |qs| ==> IsRequest(qs[i])
  }

  lemma RunFirst(regs: RegisterMap, mem: seq<word32>, first: seq<SlotValue>, rest: seq<SlotValue>)
    requires MapFits(regs, |mem|) && |first| <= 1 && AllRequests(first) && AllRequests(rest)
    ensures AllRequests(first + rest)
    ensures RunMemory(regs, mem, first + rest)
      == RunMemory(regs, if first == [] then mem else Handle(Some(regs), mem, first[0]).mem, rest)
  {
    hide Handle, IsRequest, MapFits;
    if first == [] {
      assert first + rest == rest;
    } else {
      assert (first + rest)[1..] == rest;
    }
  }

  lemma RequestsFirst(cfg: Config, s: DeviceState, turns: seq<Turn>)
    requires Fitting(cfg, s) && turns != []
    ensures Requests(cfg, s, turns)
      == Request(cfg, Before(cfg, s, turns[0])) + Requests(cfg, AfterTurn(cfg, s, turns[0]), turns[1..])
  {
    hide Request, AfterTurn, Before, Fitting;
  }

  lemma MemoryNone(cfg: Config, s: DeviceState)
    requires Fitting(cfg, s) && cfg.regs.Some?
    ensures MapFits(cfg.regs.value, |s.mem|) && Requests(cfg, s, []) == [] && AllRequests([])
    ensures RunMemory(cfg.regs.value, s.mem, []) == s.mem
  {
  }

  lemma MapFitsOf(cfg: Config, s: DeviceState)
    requires Fitting(cfg, s) && cfg.regs.Some?
    ensures MapFits(cfg.regs.value, |s.mem|)
  {
  }

  /** Whatever arrives, the memory changes only by the requests that reach the register handler, in their order. */
  lemma {:induction false} RunsMemory(cfg: Config, s: DeviceState, turns: seq<Turn>)
    requires Fitting(cfg, s) && cfg.regs.Some?
    ensures MapFits(cfg.regs.value, |s.mem|) && AllRequests(Requests(cfg, s, turns))
    ensures After(cfg, s, turns).mem == RunMemory(cfg.regs.value, s.mem, Requests(cfg, s, turns))
    decreases |turns|
  {
    hide *;
    if turns == [] {
      MemoryNone(cfg, s);
      TurnsNone(cfg, s);
    } else {
      MapFitsOf(cfg, s);
      var t, u := AfterTurn(cfg, s, turns[0]), Before(cfg, s, turns[0]);
      StepMemory(cfg, u);
      TurnParts(cfg, s, turns[0]);
      BeforeParts(cfg, s, turns[0]);
      TurnsFirst(cfg, s, turns);
      RequestsFirst(cfg, s, turns);
      RunsMemory(cfg, t, turns[1..]);
      MapFitsOf(cfg, t);
      RunFirst(cfg.regs.value, s.mem, Request(cfg, u), Requests(cfg, t, turns[1..]));
    }
  }

  lemma DeviceLastWrite(cfg: Config, s: DeviceState, turns: seq<Turn>, n: nat, cell: nat)
    requires Fitting(cfg, s) && cfg.regs.Some? && NoAlias(cfg.regs.value)
    requires n < cfg.regs.value.nRegs && cfg.regs.value.pointers[n] == Some(cell)
    ensures AllRequests(Requests(cfg, s, turns)) && cell < |s.mem|
    ensures After(cfg, s, turns).mem[cell]
      == Update(s.mem[cell], LastWritten(cfg.regs.value, Requests(cfg, s, turns), n, |s.mem|), cfg.regs.value.writeMasks[n])
  {
    hide After, Requests, RunMemory, LastWritten, Update;
    RunsMemory(cfg, s, turns);
    LastWriteKept(cfg.regs.value, s.mem, Requests(cfg, s, turns), n, cell);
  }

  /**
   * Whatever arrives, a register holds its initial value with the bits inside its mask replaced by those of the last
   * value written to it, if any; the bits outside its mask never change.
   */
  lemma DeviceMaskSafety(cfg: Config, s: DeviceState, turns: seq<Turn>, n: nat, cell: nat)
    requires Fitting(cfg, s) && cfg.regs.Some? && NoAlias(cfg.regs.value)
    requires n < cfg.regs.value.nRegs && cfg.regs.value.pointers[n] == Some(cell)
    ensures AllRequests(Requests(cfg, s, turns))
    ensures var after, mask := After(cfg, s, turns).mem[cell], cfg.regs.value.writeMasks[n];
      && after & !mask == s.mem[cell] & !mask
      && match LastWritten(cfg.regs.value, Requests(cfg, s, turns), n, |s.mem|)
         case None => after == s.mem[cell]
         case Some(v) => after == (v & mask) | (s.mem[cell] & !mask)
  {
    var was, mask, after := s.mem[cell], cfg.regs.value.writeMasks[n], After(cfg, s, turns).mem[cell];
    hide *;
    DeviceLastWrite(cfg, s, turns, n, cell);
    UpdateBits(was, LastWritten(cfg.regs.value, Requests(cfg, s, turns), n, |s.mem|), mask, after);
    UpdateOutside(was, LastWritten(cfg.regs.value, Requests(cfg, s, turns), n, |s.mem|), mask, after);
  }

  // ---- Recovery ----

  lemma StepInput(cfg: Config, u: DeviceState)
    requires Fitting(cfg, u)
    ensures DeviceStep(cfg, u).state.input == Receive(u.input).rest
  {
    StepCases(cfg, u);
    var t := u.(input := Receive(u.input).rest, slot := Store(u.slot, BoundedOutcome(u.input)));
    hide Receive, DeviceStep, Dispatch, Answer, Store, BoundedOutcome, MapFits, Encoded, FrontAfterAnswer;
  }

  lemma TurnInput(cfg: Config, s: DeviceState, turn: Turn)
    requires Fitting(cfg, s)
    ensures var c := Before(cfg, s, turn).input;
      |c| <= MAXMESSAGELEN && AfterTurn(cfg, s, turn).input == Receive(c).rest
  {
    TurnParts(cfg, s, turn);
    StepInput(cfg, Before(cfg, s, turn));
    hide DeviceStep, AfterTurn, Receive, MapFits;
  }

  lemma BeforeIsSuffix(cfg: Config, s: DeviceState, turn: Turn)
    requires Fitting(cfg, s)
    ensures IsSuffix(Before(cfg, s, turn).input, s.input + if turn.rx.Some? then [turn.rx.value] else [])
  {
    BeforeInput(cfg, s, turn);
    if turn.rx.Some? {
      PushedIsSuffix(s.input, turn.rx.value);
    } else {
      assert s.input + [] == s.input && s.input[0..] == s.input;
    }
    hide Before, PushedBack, Fitting;
  }

  /** The input buffer is always a suffix of what it held and what has arrived since. */
  lemma {:induction false} InputIsSuffix(cfg: Config, s: DeviceState, turns: seq<Turn>)
    requires Fitting(cfg, s)
    ensures IsSuffix(After(cfg, s, turns).input, s.input + Received(turns))
    decreases |turns|
  {
    hide *;
    if turns == [] {
      TurnsNone(cfg, s);
      assert s.input + [] == s.input && s.input[0..] == s.input;
      SuffixDropped(s.input, 0);
    } else {
      var t, c := AfterTurn(cfg, s, turns[0]), Before(cfg, s, turns[0]).input;
      var first: seq<byte> := if turns[0].rx.Some? then [turns[0].rx.value] else [];
      BeforeIsSuffix(cfg, s, turns[0]);
      TurnInput(cfg, s, turns[0]);
      RestIsSuffix(c);
      SuffixOfSuffix(t.input, c, s.input + first);
      TurnsFirst(cfg, s, turns);
      InputIsSuffix(cfg, t, turns[1..]);
      SuffixAppended(t.input, s.input + first, Received(turns[1..]));
      Associates(s.input, first, Received(turns[1..]));
      SuffixOfSuffix(After(cfg, s, turns).input, t.input + Received(turns[1..]), s.input + Received(turns));
    }
  }

  lemma LastTurn(cfg: Config, s: DeviceState, turns: seq<Turn>)
    requires Fitting(cfg, s) && turns != []
    ensures var n := |turns| - 1;
      After(cfg, s, turns) == AfterTurn(cfg, After(cfg, s, turns[..n]), turns[n])
  {
    hide *;
    var n := |turns| - 1;
    PrefixStep(turns, n);
    assert turns[..n + 1] == turns;
    TurnsAppend(cfg, s, turns[..n], [turns[n]]);
    OneTurn(cfg, After(cfg, s, turns[..n]), turns[n]);
  }

  /** Whatever the device's input buffer holds, 62 bytes without a line end leave no complete line in it. */
  lemma TurnsRecover(cfg: Config, s: DeviceState, turns: seq<Turn>)
    requires Fitting(cfg, s) && END !in Received(turns) && 62 <= |Received(turns)|
    ensures END !in After(cfg, s, turns).input
  {
    ReceivedNothing();
    assert turns != [];
    hide *;
    var n := |turns| - 1;
    var t, r := After(cfg, s, turns[..n]), After(cfg, s, turns).input;
    LastTurn(cfg, s, turns);
    TurnInput(cfg, t, turns[n]);
    InputIsSuffix(cfg, s, turns);
    if END in r {
      NoneBefore(r, s.input, Received(turns));
      RestShrinks(Before(cfg, t, turns[n]).input);
      RestWithEnd(Before(cfg, t, turns[n]).input);
    }
  }

  lemma ReadPlace(cfg: Config, s: DeviceState, n: nat, cell: nat)
    requires Fitting(cfg, s) && HasRegister(cfg, n) && cfg.regs.value.pointers[n] == Some(cell)
    ensures cell < |s.mem| && n < |cfg.regs.value.writeMasks|
  {
  }

  lemma ReadAfterServed(cfg: Config, s: DeviceState, any: seq<Turn>, silence: seq<Turn>, x: Exchange,
                        ascVersion: byte, appVersion: byte, numText: seq<byte>, n: nat, cell: nat)
    requires Fitting(cfg, s) && END !in Received(silence) && 62 <= |Received(silence)|
    requires Carries(x) && RoomAtEnd(cfg, After(cfg, s, any + silence), x)
    requires HasRegister(cfg, n) && Names(numText, n) && x.m == ReadRequest(ascVersion, appVersion, numText)
    requires NoAlias(cfg.regs.value) && cfg.regs.value.pointers[n] == Some(cell)
    ensures |x.m.data| <= MAXDATALEN && AllRequests(Requests(cfg, s, any + silence)) && cell < |s.mem|
    ensures var t := After(cfg, s, any + silence);
      var value := Update(s.mem[cell], LastWritten(cfg.regs.value, Requests(cfg, s, any + silence), n, |s.mem|),
                          cfg.regs.value.writeMasks[n]);
      Serves(cfg, t, AllTurns(x), Frame(x.m.(data := numText + [COMMA] + HexOf32(value, true))), Answered(cfg, t, x.m))
  {
    var t := After(cfg, s, any + silence);
    DeviceLastWrite(cfg, s, any + silence, n, cell);
    assert ReadValue(cfg.regs.value, t.mem, n) == t.mem[cell];
    assert |x.m.data| <= MAXDATALEN;
    hide *;
    TurnsAppend(cfg, s, any, silence);
    TurnsRecover(cfg, After(cfg, s, any), silence);
    ReadOverWire(cfg, t, x, ascVersion, appVersion, numText, n);
  }

  /**
   * After any turns at all, then 62 bytes without a line end, the frame of a read gets the register's initial value
   * with the bits inside its mask replaced by those of the last value written to it.
   */
  lemma ReadAfterAnything(cfg: Config, s: DeviceState, any: seq<Turn>, silence: seq<Turn>, x: Exchange,
                          ascVersion: byte, appVersion: byte, numText: seq<byte>, n: nat, cell: nat,
                          last: Option<word32>, value: word32)
    requires Fitting(cfg, s) && END !in Received(silence) && 62 <= |Received(silence)|
    requires Carries(x) && RoomAtEnd(cfg, After(cfg, s, any + silence), x)
    requires HasRegister(cfg, n) && Names(numText, n) && x.m == ReadRequest(ascVersion, appVersion, numText)
    requires NoAlias(cfg.regs.value) && cfg.regs.value.pointers[n] == Some(cell)
    requires match last
      case None => value == s.mem[cell]
      case Some(v) => value == (v & cfg.regs.value.writeMasks[n]) | (s.mem[cell] & !cfg.regs.value.writeMasks[n])
    ensures |x.m.data| <= MAXDATALEN && AllRequests(Requests(cfg, s, any + silence)) && cell < |s.mem|
    ensures last == LastWritten(cfg.regs.value, Requests(cfg, s, any + silence), n, |s.mem|) ==>
      var t := After(cfg, s, any + silence);
      Serves(cfg, t, AllTurns(x), Frame(x.m.(data := numText + [0x2C] + HexOf32(value, true))), Answered(cfg, t, x.m))
  {
    assert COMMA == 0x2C;
    hide *;
    ReadPlace(cfg, s, n, cell);
    UpdateIs(s.mem[cell], last, cfg.regs.value.writeMasks[n], value);
    ReadAfterServed(cfg, s, any, silence, x, ascVersion, appVersion, numText, n, cell);
  }

  // ---- Back-to-back requests ----

  lemma PutGrows(out: seq<byte>, m: Message)
    requires |out| <= MAXMESSAGELEN
    ensures |out| <= |Put(out, m).1|
  {
    hide ComputeChecksum, Head;
  }

  lemma StepGrows(cfg: Config, u: DeviceState)
    requires Fitting(cfg, u)
    ensures |u.output| <= |DeviceStep(cfg, u).state.output|
  {
    StepCases(cfg, u);
    var t := u.(input := Receive(u.input).rest, slot := Store(u.slot, BoundedOutcome(u.input)));
    hide Receive, DeviceStep, Dispatch, Answer, Store, BoundedOutcome, MapFits, Put, FrontAfterAnswer;
    if StatusOf(Receive(u.input).outcome).Done? {
      var answer := Dispatch(cfg, t.mem, t.streaming, t.slot).answer;
      if answer.Some? && answer.value.Ok? {
        PutGrows(t.output, answer.value.value);
      }
    }
  }

  /** Every turn brings a byte, and the transmitter takes one whenever there is one. */
  predicate Eager(turns: seq<Turn>) {
    forall i :: 0 <= i < |turns| ==> turns[i].rx.Some? && turns[i].ready
  }

  lemma {:induction false} EagerReceived(turns: seq<Turn>)
    requires Eager(turns)
    ensures |Received(turns)| == |turns|
  {
    if turns != [] {
      EagerReceived(turns[1..]);
    }
  }

  lemma EagerFirst(turns: seq<Turn>)
    requires Eager(turns) && turns != []
    ensures turns[0].ready && Eager(turns[1..])
  {
  }

  lemma ReadySent(s: DeviceState)
    requires s.output != []
    ensures |Transmitted(s, true)| == 1
  {
  }

  /** As long as there is something to transmit, every turn transmits. */
  lemma {:induction false} EagerSent(cfg: Config, s: DeviceState, turns: seq<Turn>)
    requires Fitting(cfg, s) && Eager(turns) && |turns| <= |s.output|
    ensures |Sent(cfg, s, turns)| == |turns|
    decreases |turns|
  {
    hide *;
    if turns == [] {
      TurnsNone(cfg, s);
    } else {
      EagerFirst(turns);
      ReadySent(s);
      BeforeParts(cfg, s, turns[0]);
      StepGrows(cfg, Before(cfg, s, turns[0]));
      TurnParts(cfg, s, turns[0]);
      TurnsFirst(cfg, s, turns);
      EagerSent(cfg, AfterTurn(cfg, s, turns[0]), turns[1..]);
    }
  }

  /** The frame of a read, fourteen bytes, one in each turn. */
  predicate EagerRead(cfg: Config, x: Exchange, numText: seq<byte>, n: nat) {
    && Carries(x) && x.noise == [] && Eager(x.turns) && x.last.ready
    && x.m.command == READ && x.m.data == numText && |numText| == 4 && HasRegister(cfg, n)
  }

  lemma EagerReadParts(cfg: Config, x: Exchange, numText: seq<byte>, n: nat)
    requires EagerRead(cfg, x, numText, n)
    ensures Carries(x) && Eager(x.turns) && x.last.ready && HasRegister(cfg, n)
    ensures x.m == ReadRequest(x.m.ascVersion, x.m.appVersion, numText) && |x.turns| == 13
  {
    FrameSize(x.m);
    EagerReceived(x.turns);
    assert x.noise + Frame(x.m) == Frame(x.m);
    hide Frame, Received, Sendable, HasRegister;
    assert |Received(x.turns) + [END]| == |Received(x.turns)| + 1;
  }

  /** How much is waiting, and from where, when the frame is complete. */
  lemma EagerAtEnd(cfg: Config, s: DeviceState, x: Exchange, numText: seq<byte>, n: nat)
    requires Fitting(cfg, s) && END !in s.input && EagerRead(cfg, x, numText, n)
    requires s.output == [] || 14 <= |s.output|
    ensures var v, d := Transmit(After(cfg, s, x.turns), x.last.ready), if s.output == [] then 0 else 14;
      |v.output| == |s.output| - d && v.front == Ahead(s.front, d)
  {
    hide *;
    EagerReadParts(cfg, x, numText, n);
    Gathered(cfg, s, x);
    var u := After(cfg, s, x.turns);
    ServesIs(cfg, s, x.turns, [], s.(input := u.input));
    FittingFront(cfg, u);
    TransmitParts(u, x.last.ready);
    assert s.output + [] == s.output;
    if s.output != [] {
      EagerSent(cfg, s, x.turns);
      ReadySent(u);
    } else {
      NothingSent(u, x.last.ready);
    }
    FrontAdds(s.front, |Sent(cfg, s, x.turns)|, |Transmitted(u, x.last.ready)|);
  }

  lemma FittingFront(cfg: Config, s: DeviceState)
    requires Fitting(cfg, s)
    ensures s.front < MAXMESSAGELEN
  {
  }

  lemma NothingSent(s: DeviceState, ready: bool)
    requires s.output == []
    ensures Transmitted(s, ready) == []
  {
  }

  /** Such a read with room for its answer of 23 bytes. */
  lemma EagerServed(cfg: Config, s: DeviceState, x: Exchange, numText: seq<byte>, n: nat)
    requires Fitting(cfg, s) && END !in s.input && EagerRead(cfg, x, numText, n) && Names(numText, n)
    requires s.output == [] || 14 <= |s.output|
    requires var d := if s.output == [] then 0 else 14;
      |s.output| - d + 23 <= MAXMESSAGELEN && Ahead(s.front, d) + |s.output| - d <= MAXMESSAGELEN
    ensures RoomAtEnd(cfg, s, x)
    ensures var t, d := After(cfg, s, AllTurns(x)), if s.output == [] then 0 else 14;
      |t.output| == |s.output| - d + 23 && t.front == Ahead(s.front, d) && t.input == []
  {
    hide *;
    EagerReadParts(cfg, x, numText, n);
    EagerAtEnd(cfg, s, x, numText, n);
    ReadSize(cfg, s, x, numText, n);
    var value, t := ReadValueOf(cfg, s, n), After(cfg, s, AllTurns(x));
    var reply := Frame(x.m.(data := numText + [COMMA] + HexOf32(value, true)));
    ReadOverWire(cfg, s, x, x.m.ascVersion, x.m.appVersion, numText, n);
    ServesIs(cfg, s, AllTurns(x), reply, Answered(cfg, s, x.m));
    assert |Sent(cfg, s, AllTurns(x)) + t.output| == |s.output + reply|;
    EagerTotal(cfg, s, x, numText, n);
  }

  function ReadValueOf(cfg: Config, s: DeviceState, n: nat): (v: word32)
    requires Fitting(cfg, s) && HasRegister(cfg, n)
    ensures v == ReadValue(cfg.regs.value, s.mem, n)
  {
    ReadValue(cfg.regs.value, s.mem, n)
  }

  /** The answer to a read has 13 data bytes: its frame has 23. */
  lemma ReadSize(cfg: Config, s: DeviceState, x: Exchange, numText: seq<byte>, n: nat)
    requires Fitting(cfg, s) && HasRegister(cfg, n) && Names(numText, n)
    requires x.m == ReadRequest(x.m.ascVersion, x.m.appVersion, numText)
    ensures |x.m.data| <= MAXDATALEN && AnswerTo(cfg, s, x.m).Some? && AnswerTo(cfg, s, x.m).value.Ok?
    ensures |AnswerTo(cfg, s, x.m).value.value.data| == 13
    ensures forall value :: |Frame(x.m.(data := numText + [COMMA] + HexOf32(value, true)))| == 23
    ensures var v := Transmit(After(cfg, s, x.turns), x.last.ready);
      RoomAtEnd(cfg, s, x) <==> |v.output| + 23 <= MAXMESSAGELEN && v.front + |v.output| <= MAXMESSAGELEN
  {
    ReadAnswer(cfg, s, x.m.ascVersion, x.m.appVersion, numText, n);
    hide AnswerTo, Answered, Frame, HexOf32, ReadValue, After, Transmit, Parse16;
  }

  lemma EagerTotal(cfg: Config, s: DeviceState, x: Exchange, numText: seq<byte>, n: nat)
    requires Fitting(cfg, s) && END !in s.input && EagerRead(cfg, x, numText, n)
    requires s.output == [] || 14 <= |s.output|
    ensures |Sent(cfg, s, AllTurns(x))| == if s.output == [] then 0 else 14
  {
    hide *;
    EagerReadParts(cfg, x, numText, n);
    SendableParts(x);
    EagerLast(x);
    if s.output != [] {
      EagerSent(cfg, s, AllTurns(x));
    } else {
      var u := After(cfg, s, x.turns);
      Gathered(cfg, s, x);
      ServesIs(cfg, s, x.turns, [], s.(input := u.input));
      assert s.output + [] == s.output;
      NothingSent(u, x.last.ready);
      OneTurn(cfg, u, x.last);
      TurnsAppend(cfg, s, x.turns, [x.last]);
    }
  }

  lemma EagerLast(x: Exchange)
    requires Eager(x.turns) && x.last.ready && Carries(x)
    ensures Eager(AllTurns(x)) && |AllTurns(x)| == |x.turns| + 1
  {
    hide Received, Frame, Sendable;
  }

  /** Such a read whose answer would fit, but not without a wrap. */
  lemma EagerOutOfReach(cfg: Config, s: DeviceState, x: Exchange, numText: seq<byte>, n: nat)
    requires Fitting(cfg, s) && END !in s.input && EagerRead(cfg, x, numText, n) && Names(numText, n)
    requires 14 <= |s.output| && |s.output| - 14 + 23 <= MAXMESSAGELEN
    requires Ahead(s.front, 14) + |s.output| - 14 > MAXMESSAGELEN
    ensures !AllInReach(cfg, s, AllTurns(x))
  {
    hide *;
    EagerReadParts(cfg, x, numText, n);
    EagerAtEnd(cfg, s, x, numText, n);
    ReadSize(cfg, s, x, numText, n);
    ExchangeReach(cfg, s, x);
  }

  lemma Fronts()
    ensures Ahead(0, 0) == 0 && Ahead(0, 14) == 14 && Ahead(14, 14) == 28 && Ahead(28, 14) == 42
  {
  }

  /**
   * Four reads back to back, one byte in each turn and one transmitted in each: with an output ring that is drained
   * at the start of its array, the first three are served, and the fourth is out of reach although its answer fits:
   * 27 bytes are waiting, from 42 on.
   */
  lemma FourReads(cfg: Config, s: DeviceState, x1: Exchange, x2: Exchange, x3: Exchange, x4: Exchange,
                  num1: seq<byte>, num2: seq<byte>, num3: seq<byte>, num4: seq<byte>, n1: nat, n2: nat, n3: nat, n4: nat)
    requires Fitting(cfg, s) && END !in s.input && s.output == [] && s.front == 0
    requires EagerRead(cfg, x1, num1, n1) && EagerRead(cfg, x2, num2, n2) && EagerRead(cfg, x3, num3, n3)
    requires EagerRead(cfg, x4, num4, n4)
    requires Names(num1, n1) && Names(num2, n2) && Names(num3, n3) && Names(num4, n4)
    ensures var first := (AllTurns(x1) + AllTurns(x2)) + AllTurns(x3);
      AllInReach(cfg, s, first) && !AllInReach(cfg, s, first + AllTurns(x4))
  {
    assert MAXMESSAGELEN == 64;
    hide *;
    Fronts();
    var a := After(cfg, s, AllTurns(x1));
    EagerServed(cfg, s, x1, num1, n1);
    EagerInReach(cfg, s, x1, num1, n1);
    assert |a.output| == 23 && a.output != [] && a.front == 0;
    var b := After(cfg, a, AllTurns(x2));
    EagerServed(cfg, a, x2, num2, n2);
    EagerInReach(cfg, a, x2, num2, n2);
    assert |b.output| == 32 && b.output != [] && b.front == 14;
    var c := After(cfg, b, AllTurns(x3));
    EagerServed(cfg, b, x3, num3, n3);
    EagerInReach(cfg, b, x3, num3, n3);
    assert |c.output| == 41 && c.output != [] && c.front == 28;
    EagerOutOfReach(cfg, c, x4, num4, n4);
    TurnsAppend(cfg, s, AllTurns(x1), AllTurns(x2));
    TurnsAppend(cfg, s, AllTurns(x1) + AllTurns(x2), AllTurns(x3));
    TurnsAppend(cfg, s, (AllTurns(x1) + AllTurns(x2)) + AllTurns(x3), AllTurns(x4));
  }

  lemma EagerInReach(cfg: Config, s: DeviceState, x: Exchange, numText: seq<byte>, n: nat)
    requires Fitting(cfg, s) && END !in s.input && EagerRead(cfg, x, numText, n) && RoomAtEnd(cfg, s, x)
    ensures AllInReach(cfg, s, AllTurns(x))
  {
    hide *;
    EagerReadParts(cfg, x, numText, n);
    ExchangeGiven(cfg, s, x);
    ServesIs(cfg, s, AllTurns(x), AnswerFrame(AnswerTo(cfg, s, x.m)), Answered(cfg, s, x.m));
  }

  // ---- device_receive in the fields of the device ----

  /** What a device's fields come to when a complete frame is all its input ring holds. */
  lemma FrameHeld(cfg: Config, s: DeviceState, m: Message, reply: seq<byte>)
    requires Fitting(cfg, s) && Sendable(m) && m.command != 0 && s.input == Frame(m) && |m.data| <= MAXDATALEN
    requires reply == AnswerFrame(AnswerTo(cfg, s, m)) && RoomFor(AnswerTo(cfg, s, m), s)
    ensures var t := DeviceStep(cfg, s).state;
      && InReach(cfg, s) && t.input == [] && t.output == s.output + reply
      && t.mem == Answered(cfg, s, m).mem && t.streaming == Answered(cfg, s, m).streaming
  {
    hide *;
    FrameStep(cfg, s, m);
    AnsweredParts(cfg, s, m, s.output + reply);
    CoreParts(DeviceStep(cfg, s).state, Answered(cfg, s, m));
  }

  /** device_receive on a frame whose answer there is room for. */
  method ReceiveFrameOn(device: AsciiSerialComDevice, ghost m: Message, ghost reply: seq<byte>)
    requires device.Valid() && !device.asc.ignoreCrcMismatch && device.slot.dataLen <= MAXDATALEN
    requires Fitting(ConfigOf(device.config), device.Value()) && |m.data| <= MAXDATALEN
    requires Sendable(m) && m.command != 0 && device.Value().input == Frame(m)
    requires reply == AnswerFrame(AnswerTo(ConfigOf(device.config), device.Value(), m))
    requires RoomFor(AnswerTo(ConfigOf(device.config), device.Value(), m), device.Value())
    modifies device.asc.inBuf, device.asc.outBuf, device.asc.rawBuffer, device.slot, device.slot.data
    modifies Cells(device.config.stateRw), device.config.stateNf
    ensures device.Valid() && device.slot.dataLen <= MAXDATALEN
    ensures Fitting(ConfigOf(device.config), old(device.Value()))
    ensures var t := Answered(ConfigOf(device.config), old(device.Value()), m);
      && device.Value().input == [] && device.Value().output == old(device.Value()).output + reply
      && device.Value().mem == t.mem && device.Value().streaming == t.streaming
  {
    hide *;
    FrameHeld(ConfigOf(device.config), device.Value(), m, reply);
    var _ := device.DeviceReceive();
  }

  lemma ConfigParts(config: DeviceConfig)
    ensures ConfigOf(config).handlesRw == config.funcRw && ConfigOf(config).handlesNf == config.funcNf
    ensures config.stateRw != null ==>
      ConfigOf(config).regs == Some(config.stateRw.regs) && MemoryOf(config.stateRw) == config.stateRw.memory[..]
  {
  }

  /** Read frames are answered, whether or not there is a handler for 'n' and 'f'. */
  method ReceiveRead(device: AsciiSerialComDevice, ghost ascVersion: byte, ghost appVersion: byte,
                     ghost numText: seq<byte>, ghost num: bv16, ghost value: word32)
    requires device.Valid() && !device.asc.ignoreCrcMismatch && device.slot.dataLen <= MAXDATALEN
    requires device.config.funcRw && device.config.stateRw != null
    requires Plain(ascVersion) && Plain(appVersion) && |numText| == 4 && Parse16(numText) == Ok(num)
    requires (num as nat) < device.config.stateRw.regs.nRegs
    requires match device.config.stateRw.regs.pointers[num as nat]
      case None => value == 0
      case Some(cell) => value == device.config.stateRw.memory[cell]
    requires device.asc.inBuf.Contents() == Frame(Message(ascVersion, appVersion, 0x72, numText))
    requires device.asc.outBuf.size + 23 <= 64 && device.asc.outBuf.iStart + device.asc.outBuf.size <= 64
    modifies device.asc.inBuf, device.asc.outBuf, device.asc.rawBuffer, device.slot, device.slot.data
    modifies device.config.stateRw.memory, device.config.stateNf
    ensures device.Valid() && device.asc.inBuf.Contents() == []
    ensures device.asc.outBuf.Contents() == old(device.asc.outBuf.Contents())
              + Frame(Message(ascVersion, appVersion, 0x72, numText + [0x2C] + HexOf32(value, true)))
    ensures device.config.stateRw.memory[..] == old(device.config.stateRw.memory[..])
    ensures device.config.stateNf.on == old(device.config.stateNf.on)
  {
    assert Cells(device.config.stateRw) == {device.config.stateRw.memory};
    hide *;
    ReadHeld(device, ascVersion, appVersion, numText, num, value);
    DeviceFits(device);
    ConfigParts(device.config);
    ReceiveFrameOn(device, Message(ascVersion, appVersion, 0x72, numText),
                   Frame(Message(ascVersion, appVersion, 0x72, numText + [0x2C] + HexOf32(value, true))));
    ConfigParts(device.config);
    DeviceFits(device);
  }

  lemma NumberIsPlain(numText: seq<byte>)
    requires |numText| == 4 && Parse16(numText).Ok?
    ensures AllPlain(numText)
  {
    hide *;
    Parse16Prints(numText);
    HexIsPlain(numText);
  }

  lemma RegisterMessage(ascVersion: byte, appVersion: byte, command: byte, data: seq<byte>)
    requires Plain(ascVersion) && Plain(appVersion) && AllPlain(data) && |data| <= 54
    requires command == 0x72 || command == 0x77
    ensures Sendable(Message(ascVersion, appVersion, command, data))
  {
  }

  /** What a table entry reads as, in memory. */
  lemma EntryValue(regs: RegisterMap, mem: seq<word32>, n: nat, value: word32)
    requires MapFits(regs, |mem|) && n < regs.nRegs
    requires match regs.pointers[n] case None => value == 0 case Some(cell) => value == mem[cell]
    ensures ReadValue(regs, mem, n) == value
  {
  }

  lemma DeviceFits(device: AsciiSerialComDevice)
    requires device.Valid() && device.slot.dataLen <= MAXDATALEN
    ensures Fitting(ConfigOf(device.config), device.Value())
    ensures device.Value().output == device.asc.outBuf.Contents() && device.Value().input == device.asc.inBuf.Contents()
    ensures device.Value().front == device.asc.outBuf.iStart && |device.Value().output| == device.asc.outBuf.size
    ensures device.Value().mem == MemoryOf(device.config.stateRw) && device.Value().streaming == device.config.stateNf.on
  {
    device.SlotIs();
    hide CircularBuffer.Contents, IsPow2;
  }

  /** A number in the table of a device with a register handler. */
  lemma TableEntry(device: AsciiSerialComDevice, numText: seq<byte>, num: bv16)
    requires device.Valid() && device.config.funcRw && device.config.stateRw != null
    requires |numText| == 4 && Parse16(numText) == Ok(num) && (num as nat) < device.config.stateRw.regs.nRegs
    ensures var cfg, n, mem := ConfigOf(device.config), num as nat, device.config.stateRw.memory[..];
      && HasRegister(cfg, n) && Names(numText, n) && MapFits(cfg.regs.value, |mem|)
      && (cfg.regs.value.pointers[n].Some? ==> cfg.regs.value.pointers[n].value < |mem|)
  {
    hide Parse16;
  }

  lemma ReadHeld(device: AsciiSerialComDevice, ascVersion: byte, appVersion: byte,
                 numText: seq<byte>, num: bv16, value: word32)
    requires device.Valid() && device.slot.dataLen <= MAXDATALEN
    requires device.config.funcRw && device.config.stateRw != null
    requires Plain(ascVersion) && Plain(appVersion) && |numText| == 4 && Parse16(numText) == Ok(num)
    requires (num as nat) < device.config.stateRw.regs.nRegs
    requires match device.config.stateRw.regs.pointers[num as nat]
      case None => value == 0
      case Some(cell) => value == device.config.stateRw.memory[cell]
    requires device.asc.outBuf.size + 23 <= 64 && device.asc.outBuf.iStart + device.asc.outBuf.size <= 64
    ensures var m, cfg, s := Message(ascVersion, appVersion, 0x72, numText), ConfigOf(device.config), device.Value();
      && Fitting(cfg, s) && |m.data| <= MAXDATALEN && Sendable(m) && m.command != 0
      && AnswerFrame(AnswerTo(cfg, s, m))
         == Frame(Message(ascVersion, appVersion, 0x72, numText + [0x2C] + HexOf32(value, true)))
      && RoomFor(AnswerTo(cfg, s, m), s)
      && Answered(cfg, s, m).mem == s.mem && Answered(cfg, s, m).streaming == s.streaming
  {
    var m, n := Message(ascVersion, appVersion, 0x72, numText), num as nat;
    var answer := m.(data := numText + [0x2C] + HexOf32(value, true));
    ghost var cfg, s := ConfigOf(device.config), device.Value();
    assert READ == 0x72 && COMMA == 0x2C && m == ReadRequest(ascVersion, appVersion, numText) && |answer.data| == 13;
    hide *;
    DeviceFits(device);
    ConfigParts(device.config);
    TableEntry(device, numText, num);
    NumberIsPlain(numText);
    RegisterMessage(ascVersion, appVersion, 0x72, numText);
    ReadAnswer(cfg, s, ascVersion, appVersion, numText, n);
    EntryValue(cfg.regs.value, s.mem, n, value);
    HandlerAnswers(cfg, s, m);
    AnswerFits(s, answer);
  }

  /** A message that fits, as an answer. */
  lemma AnswerFits(s: DeviceState, answer: Message)
    requires |s.output| + |answer.data| + 10 <= 64 && s.front + |s.output| <= 64
    ensures AnswerFrame(Some(Ok(answer))) == Frame(answer) && RoomFor(Some(Ok(answer)), s)
  {
    hide Frame;
  }

  /** Write frames store the bits of their value inside the mask in the table's memory. */
  method ReceiveWrite(device: AsciiSerialComDevice, ghost ascVersion: byte, ghost appVersion: byte, ghost numText: seq<byte>,
                      ghost valText: seq<byte>, ghost num: bv16, ghost cell: nat, ghost v: word32, ghost stored: word32)
    requires device.Valid() && !device.asc.ignoreCrcMismatch && device.slot.dataLen <= MAXDATALEN
    requires device.config.funcRw && device.config.stateRw != null
    requires Plain(ascVersion) && Plain(appVersion) && |numText| == 4 && Parse16(numText) == Ok(num)
    requires |valText| == 8 && Parse32(valText) == Ok(v)
    requires (num as nat) < device.config.stateRw.regs.nRegs
    requires device.config.stateRw.regs.pointers[num as nat] == Some(cell)
    requires var mask := device.config.stateRw.regs.writeMasks[num as nat];
      stored == (v & mask) | (device.config.stateRw.memory[cell] & !mask)
    requires device.asc.inBuf.Contents() == Frame(Message(ascVersion, appVersion, 0x77, numText + [0x2C] + valText))
    requires device.asc.outBuf.size + 14 <= 64 && device.asc.outBuf.iStart + device.asc.outBuf.size <= 64
    modifies device.asc.inBuf, device.asc.outBuf, device.asc.rawBuffer, device.slot, device.slot.data
    modifies device.config.stateRw.memory, device.config.stateNf
    ensures device.Valid() && device.asc.inBuf.Contents() == [] && cell < device.config.stateRw.memory.Length
    ensures device.asc.outBuf.Contents()
      == old(device.asc.outBuf.Contents()) + Frame(Message(ascVersion, appVersion, 0x77, numText))
    ensures device.config.stateRw.memory[..] == old(device.config.stateRw.memory[..])[cell := stored]
    ensures device.config.stateNf.on == old(device.config.stateNf.on)
  {
    assert Cells(device.config.stateRw) == {device.config.stateRw.memory} && cell < device.config.stateRw.memory.Length;
    hide *;
    WriteHeld(device, ascVersion, appVersion, numText, valText, num, cell, v, stored);
    DeviceFits(device);
    ConfigParts(device.config);
    ReceiveFrameOn(device, Message(ascVersion, appVersion, 0x77, numText + [0x2C] + valText),
                   Frame(Message(ascVersion, appVersion, 0x77, numText)));
    ConfigParts(device.config);
    DeviceFits(device);
  }

  lemma WriteHeld(device: AsciiSerialComDevice, ascVersion: byte, appVersion: byte, numText: seq<byte>,
                  valText: seq<byte>, num: bv16, cell: nat, v: word32, stored: word32)
    requires device.Valid() && device.slot.dataLen <= MAXDATALEN
    requires device.config.funcRw && device.config.stateRw != null
    requires Plain(ascVersion) && Plain(appVersion) && |numText| == 4 && Parse16(numText) == Ok(num)
    requires |valText| == 8 && Parse32(valText) == Ok(v)
    requires (num as nat) < device.config.stateRw.regs.nRegs
    requires device.config.stateRw.regs.pointers[num as nat] == Some(cell)
    requires var mask := device.config.stateRw.regs.writeMasks[num as nat];
      stored == (v & mask) | (device.config.stateRw.memory[cell] & !mask)
    requires device.asc.outBuf.size + 14 <= 64 && device.asc.outBuf.iStart + device.asc.outBuf.size <= 64
    ensures var m, cfg, s := Message(ascVersion, appVersion, 0x77, numText + [0x2C] + valText), ConfigOf(device.config), device.Value();
      && Fitting(cfg, s) && |m.data| <= MAXDATALEN && Sendable(m) && m.command != 0
      && AnswerFrame(AnswerTo(cfg, s, m)) == Frame(Message(ascVersion, appVersion, 0x77, numText))
      && RoomFor(AnswerTo(cfg, s, m), s) && cell < |s.mem|
      && Answered(cfg, s, m).mem == s.mem[cell := stored] && Answered(cfg, s, m).streaming == s.streaming
  {
    var m, n := Message(ascVersion, appVersion, 0x77, numText + [0x2C] + valText), num as nat;
    var echo := Message(ascVersion, appVersion, 0x77, numText);
    ghost var cfg, s := ConfigOf(device.config), device.Value();
    assert WRITE == 0x77 && COMMA == 0x2C && m == WriteRequest(ascVersion, appVersion, numText, valText) && |m.data| == 13;
    hide *;
    DeviceFits(device);
    ConfigParts(device.config);
    TableEntry(device, numText, num);
    ValueIsPlain(numText, valText);
    RegisterMessage(ascVersion, appVersion, 0x77, m.data);
    WriteAnswer(cfg, s, ascVersion, appVersion, numText, valText, n);
    WrittenBits(cfg.regs.value, s.mem, n, v, stored);
    HandlerAnswers(cfg, s, m);
    AnswerFits(s, echo);
  }

  lemma ValueIsPlain(numText: seq<byte>, valText: seq<byte>)
    requires |numText| == 4 && Parse16(numText).Ok? && |valText| == 8 && Parse32(valText).Ok?
    ensures AllPlain(numText + [0x2C] + valText)
  {
    assert COMMA == 0x2C && numText[..4] == numText;
    hide *;
    NumberIsPlain(numText);
    Parse32Prints(valText);
    HexIsPlain(valText);
    PlainParts(numText, 4, valText);
  }

  /** 'n' and 'f' frames set and clear the flag, whether or not there is a handler for reads and writes. */
  method ReceiveSwitch(device: AsciiSerialComDevice, ghost m: Message)
    requires device.Valid() && !device.asc.ignoreCrcMismatch && device.slot.dataLen <= MAXDATALEN
    requires device.config.funcNf && Sendable(m) && (m.command == 0x6E || m.command == 0x66)
    requires device.asc.inBuf.Contents() == Frame(m)
    modifies device.asc.inBuf, device.asc.outBuf, device.asc.rawBuffer, device.slot, device.slot.data
    modifies Cells(device.config.stateRw), device.config.stateNf
    ensures device.Valid() && device.asc.inBuf.Contents() == []
    ensures device.asc.outBuf.Contents() == old(device.asc.outBuf.Contents())
    ensures device.config.stateRw != null ==> device.config.stateRw.memory[..] == old(device.config.stateRw.memory[..])
    ensures device.config.stateNf.on <==> m.command == 0x6E
  {
    hide *;
    DeviceFits(device);
    ConfigParts(device.config);
    SendableShort(m);
    StreamingAnswer(ConfigOf(device.config), device.Value(), m);
    NoAnswerFits(device.Value());
    ReceiveFrameOn(device, m, []);
    ConfigParts(device.config);
    DeviceFits(device);
    assert old(device.Value().output) + [] == old(device.Value().output);
  }

  lemma NoAnswerFits(s: DeviceState)
    ensures AnswerFrame(None) == [] && RoomFor(None, s)
  {
  }

  /** A frame whose command has no case, or whose handler is not set, is answered by error 15. */
  method ReceiveRefused(device: AsciiSerialComDevice, ghost m: Message, ghost copied: seq<byte>)
    requires device.Valid() && !device.asc.ignoreCrcMismatch && device.slot.dataLen <= MAXDATALEN
    requires Sendable(m) && m.command != 0 && m.command != 0x7A
    requires !(device.config.funcRw && (m.command == 0x72 || m.command == 0x77))
    requires !(device.config.funcNf && (m.command == 0x6E || m.command == 0x66))
    requires copied == if |m.data| <= 9 then m.data else m.data[..9]
    requires device.asc.inBuf.Contents() == Frame(m)
    requires device.asc.outBuf.size + |copied| + 15 <= 64 && device.asc.outBuf.iStart + device.asc.outBuf.size <= 64
    modifies device.asc.inBuf, device.asc.outBuf, device.asc.rawBuffer, device.slot, device.slot.data
    modifies Cells(device.config.stateRw), device.config.stateNf
    ensures device.Valid() && device.asc.inBuf.Contents() == []
    ensures device.asc.outBuf.Contents() == old(device.asc.outBuf.Contents())
              + Frame(Message(m.ascVersion, m.appVersion, 0x65, [0x31, 0x35, 0x2C, m.command, 0x2C] + copied))
    ensures device.config.stateRw != null ==> device.config.stateRw.memory[..] == old(device.config.stateRw.memory[..])
    ensures device.config.stateNf.on == old(device.config.stateNf.on)
  {
    ghost var refusal := Message(m.ascVersion, m.appVersion, 0x65, [0x31, 0x35, 0x2C, m.command, 0x2C] + copied);
    assert |refusal.data| == 5 + |copied|;
    hide *;
    DeviceFits(device);
    ConfigParts(device.config);
    SendableShort(m);
    NoHandlerFor(ConfigOf(device.config), m.command);
    RefusedAnswer(ConfigOf(device.config), device.Value(), m);
    AnswerFits(device.Value(), refusal);
    ReceiveFrameOn(device, m, Frame(refusal));
    ConfigParts(device.config);
    DeviceFits(device);
  }

  lemma NoHandlerFor(cfg: Config, command: byte)
    requires command != 0x7A && !(cfg.handlesRw && (command == 0x72 || command == 0x77))
    requires !(cfg.handlesNf && (command == 0x6E || command == 0x66))
    ensures !HasHandler(cfg, command)
  {
    assert READ == 0x72 && WRITE == 0x77 && NOOP == 0x7A && STREAMING_ON == 0x6E && STREAMING_OFF == 0x66;
  }

  // ---- The object ----

  /** One turn of the loop on the device: a throw of device_receive is caught. */
  method TakeTurn(device: AsciiSerialComDevice, turn: Turn) returns (sent: seq<byte>)
    requires device.Valid() && !device.asc.ignoreCrcMismatch && device.slot.dataLen <= MAXDATALEN
    requires Fitting(ConfigOf(device.config), device.Value())
    requires InReach(ConfigOf(device.config), Before(ConfigOf(device.config), device.Value(), turn))
    modifies device.asc.inBuf, device.asc.outBuf, device.asc.rawBuffer, device.slot, device.slot.data
    modifies Cells(device.config.stateRw), device.config.stateNf
    ensures device.Valid() && device.slot.dataLen <= MAXDATALEN
    ensures sent == Transmitted(old(device.Value()), turn.ready)
    ensures Fitting(ConfigOf(device.config), old(device.Value()))
    ensures device.Value() == AfterTurn(ConfigOf(device.config), old(device.Value()), turn)
  {
    ghost var cfg, s := ConfigOf(device.config), device.Value();
    TurnParts(cfg, s, turn);
    sent := TransmitByte(device, turn.ready);
    ArriveByte(device, turn.rx);
    assert device.Value() == Before(cfg, s, turn) by { hide PushedBack, Fitting; }
    hide *;
    var _ := device.DeviceReceive();
  }

  method TransmitByte(device: AsciiSerialComDevice, ready: bool) returns (sent: seq<byte>)
    requires device.Valid()
    modifies device.asc.outBuf
    ensures device.Valid() && sent == Transmitted(old(device.Value()), ready)
    ensures device.Value() == Transmit(old(device.Value()), ready)
  {
    device.SlotIs();
    hide CircularBuffer.Contents, IsPow2;
    sent := [];
    if ready && device.asc.outBuf.size > 0 {
      var b := device.asc.outBuf.PopFront();
      sent := [b.value];
    }
    device.SlotIs();
  }

  method ArriveByte(device: AsciiSerialComDevice, rx: Option<byte>)
    requires device.Valid()
    modifies device.asc.inBuf, device.asc.rawBuffer
    ensures device.Valid() && |old(device.Value()).input| <= MAXMESSAGELEN
    ensures device.Value() == Arrive(old(device.Value()), rx)
  {
    device.SlotIs();
    hide CircularBuffer.Contents, IsPow2, PushedBack;
    if rx.Some? {
      Runs.PushInput(device.asc, rx.value);
    }
    device.SlotIs();
  }

  /** The polling loop, as long as no answer goes out of reach. */
  method Serve(device: AsciiSerialComDevice, turns: seq<Turn>) returns (sent: seq<byte>)
    requires device.Valid() && !device.asc.ignoreCrcMismatch && device.slot.dataLen <= MAXDATALEN
    requires Fitting(ConfigOf(device.config), device.Value())
    requires AllInReach(ConfigOf(device.config), device.Value(), turns)
    modifies device.asc.inBuf, device.asc.outBuf, device.asc.rawBuffer, device.slot, device.slot.data
    modifies Cells(device.config.stateRw), device.config.stateNf
    ensures device.Valid() && Fitting(ConfigOf(device.config), old(device.Value()))
    ensures sent == Sent(ConfigOf(device.config), old(device.Value()), turns)
    ensures device.Value() == After(ConfigOf(device.config), old(device.Value()), turns)
  {
    ghost var cfg, s := ConfigOf(device.config), device.Value();
    sent := [];
    TurnsNone(cfg, s);
    assert turns[..0] == [];
    hide *;
    for i := 0 to |turns|
      invariant device.Valid() && device.slot.dataLen <= MAXDATALEN && Fitting(cfg, device.Value())
      invariant sent == Sent(cfg, s, turns[..i]) && device.Value() == After(cfg, s, turns[..i])
    {
      NextTurn(cfg, s, turns, i);
      var more := TakeTurn(device, turns[i]);
      sent := sent + more;
    }
    assert turns[..|turns|] == turns;
  }

  lemma NextTurn(cfg: Config, s: DeviceState, turns: seq<Turn>, i: nat)
    requires Fitting(cfg, s) && AllInReach(cfg, s, turns) && i < |turns|
    ensures var t := After(cfg, s, turns[..i]);
      && InReach(cfg, Before(cfg, t, turns[i]))
      && After(cfg, s, turns[..i + 1]) == AfterTurn(cfg, t, turns[i])
      && Sent(cfg, s, turns[..i + 1]) == Sent(cfg, s, turns[..i]) + Transmitted(t, turns[i].ready)
  {
    hide *;
    var t := After(cfg, s, turns[..i]);
    PrefixStep(turns, i);
    assert turns[..i + 1] + turns[i + 1..] == turns;
    OneTurn(cfg, t, turns[i]);
    TurnsAppend(cfg, s, turns[..i + 1], turns[i + 1..]);
    TurnsAppend(cfg, s, turns[..i], [turns[i]]);
  }
}
