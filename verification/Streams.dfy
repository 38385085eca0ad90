// Whole runs of the decoder: bytes arrive one at a time, and get_message is called after each.

module Streams {
  import opened AscException
  import opened Sequences
  import opened Resync
  import opened Frames

  /** What the caller of get_message can tell from its results. */
  datatype Seen = Nothing | Got(m: Message) | Caught(error: Error)

  function View(o: Outcome): Seen {
    match o
    case NoMessage => Nothing
    case Mismatch(_) => Nothing
    case Delivered(m) => if m.command == 0 then Nothing else Got(m)
    case Thrown(e) => Caught(e)
    case ThrownAfter(e, _) => Caught(e)
  }

  /** One polling step: push a byte onto the input buffer (a full one loses its front), then try to decode. */
  function Poll(c: seq<byte>, b: byte): Receipt
    requires |c| <= MAXMESSAGELEN
  {
    Receive(PushedBack(c, b, MAXMESSAGELEN))
  }

  lemma PollBound(c: seq<byte>, b: byte)
    requires |c| <= MAXMESSAGELEN
    ensures |Poll(c, b).rest| <= MAXMESSAGELEN
  {
    var d := PushedBack(c, b, MAXMESSAGELEN);
    RestShrinks(d);
  }

  /** What the buffer holds after the bytes bs. */
  function Left(c: seq<byte>, bs: seq<byte>): (r: seq<byte>)
    requires |c| <= MAXMESSAGELEN
    ensures |r| <= MAXMESSAGELEN
    decreases |bs|
  {
    if bs == [] then c
    else
      PollBound(c, bs[0]);
      Left(Poll(c, bs[0]).rest, bs[1..])
  }

  /** What is seen after each byte of bs. */
  function Feed(c: seq<byte>, bs: seq<byte>): (r: seq<Seen>)
    requires |c| <= MAXMESSAGELEN
    ensures |r| == |bs|
    decreases |bs|
  {
    if bs == [] then []
    else
      PollBound(c, bs[0]);
      [View(Poll(c, bs[0]).outcome)] + Feed(Poll(c, bs[0]).rest, bs[1..])
  }

  function Silence(n: nat): (s: seq<Seen>)
    ensures |s| == n
  {
    seq(n, _ => Nothing)
  }

  lemma SilenceAdds(m: nat, n: nat)
    ensures Silence(m) + Silence(n) == Silence(m + n)
  {
  }

  lemma FeedNothing(c: seq<byte>)
    requires |c| <= MAXMESSAGELEN
    ensures Feed(c, []) == [] && Left(c, []) == c
  {
  }

  lemma FeedFirst(c: seq<byte>, bs: seq<byte>)
    requires |c| <= MAXMESSAGELEN && bs != []
    ensures |Poll(c, bs[0]).rest| <= MAXMESSAGELEN
    ensures Feed(c, bs) == [View(Poll(c, bs[0]).outcome)] + Feed(Poll(c, bs[0]).rest, bs[1..])
    ensures Left(c, bs) == Left(Poll(c, bs[0]).rest, bs[1..])
  {
    hide Poll, View;
    PollBound(c, bs[0]);
  }

  lemma FeedOne(c: seq<byte>, b: byte)
    requires |c| <= MAXMESSAGELEN
    ensures Feed(c, [b]) == [View(Poll(c, b).outcome)] && Left(c, [b]) == Poll(c, b).rest
  {
    hide *;
    FeedFirst(c, [b]);
    assert [b][1..] == [];
    FeedNothing(Poll(c, b).rest);
  }

  lemma {:induction false} FeedAppend(c: seq<byte>, x: seq<byte>, y: seq<byte>)
    requires |c| <= MAXMESSAGELEN
    ensures Feed(c, x + y) == Feed(c, x) + Feed(Left(c, x), y)
    ensures Left(c, x + y) == Left(Left(c, x), y)
    decreases |x|
  {
    hide *;
    if x == [] {
      assert x + y == y;
      FeedNothing(c);
      assert Feed(c, y) == [] + Feed(c, y);
    } else {
      assert (x + y)[1..] == x[1..] + y && (x + y)[0] == x[0];
      FeedFirst(c, x);
      FeedFirst(c, x + y);
      var d := Poll(c, x[0]).rest;
      FeedAppend(d, x[1..], y);
      var v := [View(Poll(c, x[0]).outcome)];
      assert v + (Feed(d, x[1..]) + Feed(Left(d, x[1..]), y)) == (v + Feed(d, x[1..])) + Feed(Left(d, x[1..]), y);
    }
  }

  /** Feeding bs shows `seen` and leaves `left`. */
  predicate Gives(c: seq<byte>, bs: seq<byte>, seen: seq<Seen>, left: seq<byte>)
    requires |c| <= MAXMESSAGELEN
  {
    Feed(c, bs) == seen && Left(c, bs) == left
  }

  lemma GivesAppend(c: seq<byte>, x: seq<byte>, y: seq<byte>,
                    seenX: seq<Seen>, seenY: seq<Seen>, leftX: seq<byte>, leftY: seq<byte>)
    requires |c| <= MAXMESSAGELEN && |leftX| <= MAXMESSAGELEN
    requires Gives(c, x, seenX, leftX) && Gives(leftX, y, seenY, leftY)
    ensures Gives(c, x + y, seenX + seenY, leftY)
  {
    hide Feed, Left;
    FeedAppend(c, x, y);
  }

  /** While no line end arrives, nothing is seen, and the buffer keeps at most an unfinished frame. */
  lemma QuietByte(c: seq<byte>, b: byte)
    requires |c| <= MAXMESSAGELEN && END !in c && b != END
    ensures var d := PushedBack(c, b, MAXMESSAGELEN);
      Poll(c, b) == Receipt(NoMessage, d[FindLast(d, START)..])
    ensures END !in Poll(c, b).rest
  {
    var d := PushedBack(c, b, MAXMESSAGELEN);
    assert END !in d;
    FindFirstAbsent(d, END);
    CleanNoEnd(d, START, END);
    OutcomeTable(d);
    hide Receive, Clean, FindLast;
    assert END !in d[FindLast(d, START)..];
  }

  lemma {:induction false} QuietBytes(c: seq<byte>, bs: seq<byte>)
    requires |c| <= MAXMESSAGELEN && END !in c && END !in bs
    ensures Feed(c, bs) == Silence(|bs|) && END !in Left(c, bs)
    decreases |bs|
  {
    if bs == [] {
      FeedNothing(c);
    } else {
      hide *;
      assert bs[0] in bs;
      QuietByte(c, bs[0]);
      FeedFirst(c, bs);
      QuietBytes(Poll(c, bs[0]).rest, bs[1..]);
      SilenceFirst(|bs|);
    }
  }

  /** c is the beginning of a frame that has not ended. */
  predicate Open(c: seq<byte>) {
    c != [] && c[0] == START && START !in c[1..] && END !in c
  }

  predicate Inner(bs: seq<byte>) {
    START !in bs && END !in bs
  }

  /** A byte of a frame joins what is behind the frame's start marker. */
  lemma FrameByte(c: seq<byte>, b: byte)
    requires Open(c) && |c| < MAXMESSAGELEN && b != START && b != END
    ensures Poll(c, b) == Receipt(NoMessage, c + [b]) && Open(c + [b])
  {
    var d := c + [b];
    QuietByte(c, b);
    assert d[1..] == c[1..] + [b];
    FindLastUnique(d, START, 0);
    assert d[0..] == d;
    hide FindLast, Poll;
  }

  lemma InnerFirst(bs: seq<byte>)
    requires Inner(bs) && bs != []
    ensures bs[0] != START && bs[0] != END && Inner(bs[1..])
  {
  }

  lemma Regroup<T>(c: seq<T>, bs: seq<T>)
    requires bs != []
    ensures c + [bs[0]] + bs[1..] == c + bs
  {
  }

  lemma SilenceFirst(n: nat)
    requires n > 0
    ensures [View(NoMessage)] + Silence(n - 1) == Silence(n)
  {
  }

  lemma {:induction false} FrameBytes(c: seq<byte>, bs: seq<byte>)
    requires Open(c) && Inner(bs) && |c| + |bs| <= MAXMESSAGELEN
    ensures Feed(c, bs) == Silence(|bs|) && Left(c, bs) == c + bs
    decreases |bs|
  {
    if bs == [] {
      FeedNothing(c);
      assert c + bs == c;
    } else {
      hide *;
      InnerFirst(bs);
      FrameByte(c, bs[0]);
      FeedFirst(c, bs);
      FrameBytes(c + [bs[0]], bs[1..]);
      SilenceFirst(|bs|);
      Regroup(c, bs);
    }
  }

  lemma StartByte(c: seq<byte>)
    requires |c| <= MAXMESSAGELEN && END !in c
    ensures Feed(c, [START]) == Silence(1) && Left(c, [START]) == [START]
  {
    var d := PushedBack(c, START, MAXMESSAGELEN);
    assert d[|d| - 1] == START && d[|d| - 1..] == [START] && START != END;
    assert |d| <= MAXMESSAGELEN;
    hide *;
    FeedOne(c, START);
    QuietByte(c, START);
    FindLastUnique(d, START, |d| - 1);
    SilenceFirst(1);
    NoSilence();
  }

  lemma NoSilence()
    ensures Silence(0) == []
  {
  }

  /** The inside of a frame: what lies between its start marker and its line end. */
  lemma FrameInside(m: Message)
    requires Sendable(m)
    ensures var f := Frame(m); var s := f[1..|f| - 1];
      f == [START] + s + [END] && Inner(s)
  {
    hide Checksum, Plain;
    var f, n := Frame(m), |m.data|;
    var x := Checksum(Head(m));
    ChecksumPlain(Head(m));
    var s := f[1..|f| - 1];
    assert s == [m.ascVersion, m.appVersion, m.command] + m.data + [PERIOD] + x;
    forall i | 0 <= i < |s| ensures s[i] != START && s[i] != END {
      if i < 3 { assert Plain(s[i]); }
      else if i < n + 3 { assert s[i] == m.data[i - 3]; }
      else if i > n + 3 { assert s[i] == x[i - n - 4]; }
      PlainIsNot(s[i]);
    }
  }

  lemma PlainIsNot(b: byte)
    ensures Plain(b) || b == PERIOD ==> b != START && b != END
  {
  }

  lemma JustOpen(r: seq<byte>)
    requires r == [START]
    ensures Open(r)
  {
  }

  /** The line end of a frame delivers its message. */
  lemma EndByte(m: Message, c: seq<byte>)
    requires Sendable(m) && m.command != 0 && Frame(m) == c + [END] && |c| < MAXMESSAGELEN
    ensures Feed(c, [END]) == [Got(m)] && Left(c, [END]) == []
  {
    assert PushedBack(c, END, MAXMESSAGELEN) == Frame(m) + [];
    FeedOne(c, END);
    RoundTrip(m, []);
    hide Frame, Receive, Feed, Left;
  }

  lemma UpToEnd(c: seq<byte>, s: seq<byte>)
    requires |c| <= MAXMESSAGELEN && END !in c && Inner(s) && 1 + |s| <= MAXMESSAGELEN
    ensures Gives(c, [START] + s, Silence(1 + |s|), [START] + s)
  {
    StartByte(c);
    JustOpen([START]);
    FrameBytes([START], s);
    assert Gives(c, [START], Silence(1), [START]) && Gives([START], s, Silence(|s|), [START] + s) by {
      hide Feed, Left, Silence, Open, Inner;
    }
    hide *;
    GivesAppend(c, [START], s, Silence(1), Silence(|s|), [START], [START] + s);
    SilenceAdds(1, |s|);
  }

  /** A frame delivers its message on its last byte, and is silent before. */
  lemma FrameDelivers(c: seq<byte>, m: Message, n: nat)
    requires |c| <= MAXMESSAGELEN && END !in c && Sendable(m) && m.command != 0 && n == |Frame(m)| - 1
    ensures Gives(c, Frame(m), Silence(n) + [Got(m)], [])
  {
    var s := Frame(m)[1..n];
    assert |Frame(m)| <= 64 == MAXMESSAGELEN;
    FrameInside(m);
    var r := [START] + s;
    UpToEnd(c, s);
    EndByte(m, r);
    assert Gives(r, [END], [Got(m)], []) by { hide Feed, Left, Frame; }
    hide *;
    GivesAppend(c, r, [END], Silence(n), [Got(m)], r, []);
  }

  // ---- Streams of frames between noise ----

  /** Noise without a line end, then a frame. */
  datatype Block = Block(noise: seq<byte>, m: Message)

  predicate ValidBlock(b: Block) {
    END !in b.noise && Sendable(b.m) && b.m.command != 0
  }

  function BlockWire(b: Block): seq<byte> {
    b.noise + Frame(b.m)
  }

  function Wire(blocks: seq<Block>): seq<byte> {
    if blocks == [] then [] else BlockWire(blocks[0]) + Wire(blocks[1..])
  }

  /** Nothing for every byte but the last, which completes the block's frame and gives its message. */
  function BlockSeen(b: Block): (s: seq<Seen>)
    ensures |s| == |BlockWire(b)|
  {
    Silence(|b.noise| + (|Frame(b.m)| - 1)) + [Got(b.m)]
  }

  function Expected(blocks: seq<Block>): (s: seq<Seen>)
    ensures |s| == |Wire(blocks)|
  {
    if blocks == [] then [] else BlockSeen(blocks[0]) + Expected(blocks[1..])
  }

  lemma SilentPrefix(n: nat, k: nat, g: Seen)
    ensures Silence(n) + (Silence(k) + [g]) == Silence(n + k) + [g]
  {
  }

  lemma BlockDelivers(c: seq<byte>, b: Block)
    requires |c| <= MAXMESSAGELEN && END !in c && ValidBlock(b)
    ensures Gives(c, BlockWire(b), BlockSeen(b), [])
  {
    var q, n := b.noise, |Frame(b.m)| - 1;
    var left := Left(c, q);
    assert BlockSeen(b) == Silence(|q| + n) + [Got(b.m)] by { hide Silence, Frame; }
    assert BlockWire(b) == q + Frame(b.m) by { hide Frame; }
    QuietBytes(c, q);
    assert Gives(c, q, Silence(|q|), left) by { hide Feed, Left, Silence; }
    hide *;
    FrameDelivers(left, b.m, n);
    GivesAppend(c, q, Frame(b.m), Silence(|q|), Silence(n) + [Got(b.m)], left, []);
    SilentPrefix(|q|, n, Got(b.m));
  }

  lemma {:induction false} StreamGives(c: seq<byte>, blocks: seq<Block>)
    requires |c| <= MAXMESSAGELEN && END !in c
    requires forall i :: 0 <= i < |blocks| ==> ValidBlock(blocks[i])
    ensures exists left :: Gives(c, Wire(blocks), Expected(blocks), left)
    decreases |blocks|
  {
    if blocks == [] {
      FeedNothing(c);
      assert Gives(c, Wire(blocks), Expected(blocks), c) by { hide Feed, Left; }
    } else {
      var b := blocks[0];
      assert Wire(blocks) == BlockWire(b) + Wire(blocks[1..]) by { hide BlockWire; }
      assert Expected(blocks) == BlockSeen(b) + Expected(blocks[1..]) by { hide BlockSeen; }
      hide *;
      BlockDelivers(c, b);
      StreamGives([], blocks[1..]);
      var left :| Gives([], Wire(blocks[1..]), Expected(blocks[1..]), left);
      GivesAppend(c, BlockWire(b), Wire(blocks[1..]), BlockSeen(b), Expected(blocks[1..]), [], left);
    }
  }

  /**
   * From any buffer without a line end, any number of frames between any noise without line ends, fed byte by byte:
   * exactly the messages of the frames are seen, in order, each on its final byte, and no call throws.
   */
  lemma StreamDelivers(c: seq<byte>, blocks: seq<Block>)
    requires |c| <= 64 && 0x0A !in c
    requires forall i :: 0 <= i < |blocks| ==>
      0x0A !in blocks[i].noise && Sendable(blocks[i].m) && blocks[i].m.command != 0
    ensures Feed(c, Wire(blocks)) == Expected(blocks)
  {
    assert END == 0x0A && MAXMESSAGELEN == 64;
    assert forall i :: 0 <= i < |blocks| ==> ValidBlock(blocks[i]);
    hide Feed, Left, Wire, Expected, ValidBlock;
    StreamGives(c, blocks);
  }

  /** One block at a time: whatever follows noise and a frame is fed to an empty buffer. */
  lemma BlockThenRest(c: seq<byte>, noise: seq<byte>, m: Message, rest: seq<byte>)
    requires |c| <= 64 && 0x0A !in c && 0x0A !in noise && Sendable(m) && m.command != 0
    ensures Feed(c, noise + Frame(m) + rest)
      == seq(|noise| + |Frame(m)| - 1, _ => Nothing) + [Got(m)] + Feed([], rest)
  {
    var b := Block(noise, m);
    assert END == 0x0A && MAXMESSAGELEN == 64 && ValidBlock(b);
    assert BlockWire(b) == noise + Frame(m) by { hide Frame; }
    assert BlockSeen(b) == Silence(|noise| + (|Frame(m)| - 1)) + [Got(m)] by { hide Silence, Frame; }
    assert Silence(|noise| + |Frame(m)| - 1) == seq(|noise| + |Frame(m)| - 1, _ => Nothing) by { hide Frame; }
    BlockDelivers(c, b);
    assert Feed(c, noise + Frame(m)) == BlockSeen(b) && Left(c, noise + Frame(m)) == [] by {
      hide Feed, Left, Frame, BlockSeen;
    }
    hide *;
    FeedAppend(c, noise + Frame(m), rest);
  }

  // ---- Recovery from any buffer ----

  /** The buffer is always a suffix of what it held and what has arrived since. */
  predicate IsSuffix(s: seq<byte>, t: seq<byte>) {
    |s| <= |t| && s == t[|t| - |s|..]
  }

  lemma SuffixOfSuffix(s: seq<byte>, t: seq<byte>, u: seq<byte>)
    requires IsSuffix(s, t) && IsSuffix(t, u)
    ensures IsSuffix(s, u)
  {
  }

  lemma SuffixDropped(s: seq<byte>, n: nat)
    requires n <= |s|
    ensures IsSuffix(s[n..], s)
  {
  }

  lemma SuffixAppended(s: seq<byte>, t: seq<byte>, u: seq<byte>)
    requires IsSuffix(s, t)
    ensures IsSuffix(s + u, t + u)
  {
    var n := |t| - |s|;
    assert (t + u)[n..] == t[n..] + u;
  }

  lemma PushedIsSuffix(c: seq<byte>, b: byte)
    requires |c| <= MAXMESSAGELEN
    ensures IsSuffix(PushedBack(c, b, MAXMESSAGELEN), c + [b])
  {
  }

  lemma RestIsSuffix(c: seq<byte>)
    ensures IsSuffix(Receive(c).rest, c)
  {
    hide *;
    var r := Clean(c, START, END);
    CleanSuffix(c, START, END);
    SuffixDropped(c, |c| - |r|);
    RestDrops(c);
    SuffixDropped(r, |r| - |Receive(c).rest|);
    SuffixOfSuffix(Receive(c).rest, r, c);
  }

  lemma RestDrops(c: seq<byte>)
    ensures var r, rest := Clean(c, START, END), Receive(c).rest;
      |rest| <= |r| && rest == r[|r| - |rest|..]
  {
    var r := Clean(c, START, END);
    var e, p := FindFirst(r, END), FindFirst(r, PERIOD);
    OutcomeTable(c);
    hide *;
    PeriodBefore(r, e, p);
    if END in r && PERIOD in r[..e] && 4 <= p < 59 {
      BodyDrops(r, p, Checksum(r[..p + 1]));
    }
    assert r == r[0..];
  }

  lemma BodyDrops(r: seq<byte>, p: nat, chk: seq<byte>)
    requires 4 <= p < |r|
    ensures var rest := ReceiveBody(r, p, chk).rest;
      |rest| + 5 <= |r| && rest == r[|r| - |rest|..]
  {
    assert |r[p + 1..]| >= 5 ==> r[p + 1..][5..] == r[p + 6..];
  }

  lemma PollIsSuffix(c: seq<byte>, b: byte)
    requires |c| <= MAXMESSAGELEN
    ensures IsSuffix(Poll(c, b).rest, c + [b])
  {
    var d := PushedBack(c, b, MAXMESSAGELEN);
    hide Receive, IsSuffix, PushedBack;
    PushedIsSuffix(c, b);
    RestIsSuffix(d);
    SuffixOfSuffix(Receive(d).rest, d, c + [b]);
  }

  lemma {:induction false} LeftIsSuffix(c: seq<byte>, bs: seq<byte>)
    requires |c| <= MAXMESSAGELEN
    ensures IsSuffix(Left(c, bs), c + bs)
    decreases |bs|
  {
    hide *;
    if bs == [] {
      FeedNothing(c);
      assert c + bs == c && c == c[0..];
      SuffixDropped(c, 0);
    } else {
      var d := Poll(c, bs[0]).rest;
      PollIsSuffix(c, bs[0]);
      FeedFirst(c, bs);
      LeftIsSuffix(d, bs[1..]);
      SuffixAppended(d, c + [bs[0]], bs[1..]);
      Regroup(c, bs);
      SuffixOfSuffix(Left(d, bs[1..]), d + bs[1..], c + bs);
    }
  }

  /** If a call leaves a line end, it has dropped two bytes, or the line end is not among the first two bytes. */
  lemma RestWithEnd(c: seq<byte>)
    requires END in Receive(c).rest
    ensures |Receive(c).rest| + 2 <= |c| || 2 <= FindFirst(Receive(c).rest, END)
  {
    var r := Clean(c, START, END);
    var e, p := FindFirst(r, END), FindFirst(r, PERIOD);
    OutcomeTable(c);
    CleanShape(c, START, END);
    LineHasTwo(r);
    hide *;
    PeriodBefore(r, e, p);
    if END in r {
      if PERIOD in r[..e] && 4 <= p < 59 {
        BodyDrops(r, p, Checksum(r[..p + 1]));
      } else if PERIOD in r[..e] {
        StuckShape(c);
      }
    }
  }

  lemma LineHasTwo(r: seq<byte>)
    requires AtFrame(r, START, END)
    ensures END in r ==> 1 <= FindFirst(r, END) < |r|
  {
  }

  lemma NoneBefore(s: seq<byte>, t: seq<byte>, bs: seq<byte>)
    requires IsSuffix(s, t + bs) && END !in bs && END in s
    ensures FindFirst(s, END) + |bs| < |s|
  {
    var e := FindFirst(s, END);
    assert s[e] == END;
    hide *;
    SuffixAt(s, t + bs, e);
    BehindAt(t, bs, |t| + |bs| - |s| + e);
  }

  lemma SuffixAt(s: seq<byte>, t: seq<byte>, i: nat)
    requires IsSuffix(s, t) && i < |s|
    ensures |s| <= |t| && s[i] == t[|t| - |s| + i]
  {
  }

  lemma BehindAt(t: seq<byte>, bs: seq<byte>, k: nat)
    requires k < |t| + |bs| && END !in bs
    ensures (t + bs)[k] == END ==> k < |t|
  {
  }

  /**
   * Bounded recovery: whatever the buffer holds, 62 bytes without a line end leave no complete line in it, so that
   * not even a line that is never consumed keeps later frames from being delivered.
   */
  lemma Recovery(c: seq<byte>, bs: seq<byte>)
    requires |c| <= MAXMESSAGELEN && END !in bs && 62 <= |bs|
    ensures END !in Left(c, bs)
  {
    var n := |bs| - 1;
    var d := Left(c, bs[..n]);
    assert bs == bs[..n] + [bs[n]];
    LeftIsSuffix(c, bs);
    FeedAppend(c, bs[..n], [bs[n]]);
    FeedOne(d, bs[n]);
    var e := PushedBack(d, bs[n], MAXMESSAGELEN);
    assert |e| <= 64;
    hide *;
    if END in Left(c, bs) {
      NoneBefore(Left(c, bs), c, bs);
      PollIs(d, bs[n]);
      RestShrinks(e);
      RestWithEnd(e);
    }
  }

  lemma PollIs(c: seq<byte>, b: byte)
    requires |c| <= MAXMESSAGELEN
    ensures Poll(c, b) == Receive(PushedBack(c, b, MAXMESSAGELEN))
  {
  }

  /** After such bytes, a frame is delivered on its last byte, from any buffer at all. */
  lemma RecoveryDelivers(c: seq<byte>, noise: seq<byte>, m: Message)
    requires |c| <= MAXMESSAGELEN && END !in noise && 62 <= |noise| && Sendable(m) && m.command != 0
    ensures Feed(c, noise + Frame(m)) == Feed(c, noise) + (Silence(|Frame(m)| - 1) + [Got(m)])
    ensures Left(c, noise + Frame(m)) == []
  {
    hide Feed, Left, Frame, Silence, Sendable;
    Recovery(c, noise);
    FeedAppend(c, noise, Frame(m));
    FrameDelivers(Left(c, noise), m, |Frame(m)| - 1);
  }

  /** Sixty-one bytes may not be enough: a kept line stays as long as the buffer has room behind it. */
  lemma {:induction false} StuckStays(x: seq<byte>, bs: seq<byte>)
    requires END !in x && END !in bs && 3 + |x| + |bs| <= MAXMESSAGELEN
    ensures Left([START, PERIOD, END] + x, bs) == [START, PERIOD, END] + x + bs
    decreases |bs|
  {
    var c := [START, PERIOD, END] + x;
    hide *;
    if bs == [] {
      FeedNothing(c);
      assert c + bs == c;
    } else {
      StuckByte(x, bs[0]);
      FeedFirst(c, bs);
      assert END !in x + [bs[0]] && END !in bs[1..];
      assert [START, PERIOD, END] + (x + [bs[0]]) == c + [bs[0]];
      StuckStays(x + [bs[0]], bs[1..]);
      Regroup(c, bs);
    }
  }

  lemma StuckByte(x: seq<byte>, b: byte)
    requires 4 + |x| <= MAXMESSAGELEN
    ensures var c := [START, PERIOD, END] + x;
      |c| < MAXMESSAGELEN && Poll(c, b) == Receipt(Thrown(InvalidFramePeriod), c + [b])
  {
    var c := [START, PERIOD, END] + x;
    var d := c + [b];
    assert PushedBack(c, b, MAXMESSAGELEN) == d;
    PollIs(c, b);
    assert d[2] in d && d[..2][1] in d[..2] && d[1] == PERIOD && d[2] == END;
    FindFirstUnique(d, PERIOD, 1);
    FindFirstUnique(d, END, 2);
    assert AtFrame(d, START, END) by { hide FindFirst; }
    hide *;
    CleanFixed(d, START, END);
    OutcomeTable(d);
  }
}
