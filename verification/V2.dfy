/**
  The framing of ZMTP 2.0 and later (ExternalLib/libzmq/src/v2_encoder.cpp, v2_decoder.cpp) as
  step machines of the incremental encoder and decoder, end to end.
 */
module V2 {
  import opened Wire
  import Dec = Decoder
  import Enc = Encoder

  // Subscriptions and cancellations are sent with a byte in front that says which they are.
  datatype Kind = Plain | Subscribe | Cancel

  datatype Message = Message(more: bool, command: bool, kind: Kind, body: seq<Byte>)

  datatype Frame = Frame(more: bool, command: bool, body: seq<Byte>)

  const UCHAR_MAX := 255

  // ---------------------------------------------------------------- encoder

  datatype EncoderStep = MessageReady | SizeReady

  function Flags(more: bool, large: bool, command: bool): Byte {
    (if more then 1 else 0) + (if large then 2 else 0) + (if command then 4 else 0)
  }

  function Prefix(k: Kind): seq<Byte> {
    match k
    case Plain => []
    case Subscribe => [1]
    case Cancel => [0]
  }

  // The large flag is decided before the size counts the prefix.
  function FlagsOf(msg: Message): Byte {
    Flags(msg.more, |msg.body| > UCHAR_MAX, msg.command)
  }

  function SizeField(msg: Message): seq<Byte> {
    var size := |msg.body| + |Prefix(msg.kind)|;
    if size > UCHAR_MAX then Put(size, 8) else [size]
  }

  function Header(msg: Message): seq<Byte> {
    [FlagsOf(msg)] + SizeField(msg) + Prefix(msg.kind)
  }

  const ENCODER := Enc.Machine(
    (s: EncoderStep, msg: Message) =>
      match s
      case MessageReady => Enc.Chunk(SizeReady, Header(msg), false)
      case SizeReady => Enc.Chunk(MessageReady, msg.body, true),
    (s: EncoderStep) => if s.MessageReady? then 1 else 0)

  // ---------------------------------------------------------------- decoder

  datatype DecoderStep =
    | FlagsReady
    | OneByteSizeReady(more: bool, command: bool)
    | EightByteSizeReady(more: bool, command: bool)
    | BodyReady(more: bool, command: bool)

  type Reply = Dec.Reply<DecoderStep, Frame>

  // `max` below zero: no limit.
  predicate SizeOk(max: int, size: nat) {
    max >= 0 ==> size <= max
  }

  function DecoderStepOn(max: int, s: DecoderStep, d: seq<Byte>): Reply {
    match s
    case FlagsReady =>
      if d == [] then Dec.Fail(s, 1)
      else if d[0] / 2 % 2 == 1 then Dec.Continue(EightByteSizeReady(d[0] % 2 == 1, d[0] / 4 % 2 == 1), 8)
      else Dec.Continue(OneByteSizeReady(d[0] % 2 == 1, d[0] / 4 % 2 == 1), 1)
    case OneByteSizeReady(more, command) => SizeKnown(max, s, more, command, Get(d))
    case EightByteSizeReady(more, command) => SizeKnown(max, s, more, command, Get(d))
    case BodyReady(more, command) => Dec.Ready(FlagsReady, 1, Frame(more, command, d))
  }

  function SizeKnown(max: int, s: DecoderStep, more: bool, command: bool, size: nat): Reply {
    if SizeOk(max, size) then Dec.Continue(BodyReady(more, command), size) else Dec.Fail(s, 0)
  }

  function DecoderOf(max: int): Dec.Machine<DecoderStep, Frame> {
    Dec.Machine((s, d) => DecoderStepOn(max, s, d), (s: DecoderStep) => if s.BodyReady? then 0 else 1)
  }

  const START := Dec.Config(FlagsReady, [], 1)

  // ---------------------------------------------------------------- round trip

  lemma MachinesFinite(max: int)
    ensures Enc.Finite(ENCODER) && Dec.Finite(DecoderOf(max))
  {
  }

  // What the other side is to get: a subscription is a one and the topic, a cancellation a zero
  // and the topic.
  function FrameOf(msg: Message): Frame {
    Frame(msg.more, msg.command,
          match msg.kind
          case Plain => msg.body
          case Subscribe => [1] + msg.body
          case Cancel => [0] + msg.body)
  }

  function FramesOf(msgs: seq<Message>): seq<Frame> {
    if msgs == [] then [] else [FrameOf(msgs[0])] + FramesOf(msgs[1..])
  }

  // Within the limit, if there is one; and a prefix makes the size of a body of 255 bytes too large
  // for the flags it was given.
  predicate Faithful(max: int, msg: Message) {
    (max < 0 || |FrameOf(msg).body| <= max) && !(msg.kind != Plain && |msg.body| == UCHAR_MAX)
  }

  // The size of a message is a size_t, with room for the prefix.
  predicate Sized(msg: Message) {
    |msg.body| + 1 < 0x1_0000_0000_0000_0000
  }

  lemma EncodedAs(msg: Message)
    ensures Enc.Finite(ENCODER) && Enc.Rest(ENCODER, MessageReady, msg) == Header(msg) + msg.body
    ensures Enc.Behind(ENCODER, MessageReady, msg) == MessageReady
  {
    MachinesFinite(0);
    assert Enc.Rest(ENCODER, SizeReady, msg) == msg.body;
  }

  // ---------------------------------------------------------------- one frame

  ghost function Feed(max: int, c: Dec.Config<DecoderStep>, d: seq<Byte>): Dec.Outcome<DecoderStep, Frame>
    requires c.want == 0 ==> c.have == []
  {
    MachinesFinite(max);
    Dec.Feed(DecoderOf(max), c, d)
  }

  // The step that waits for the size behind flags `f`, and the width of that size.
  function Sizing(f: Byte): DecoderStep {
    if f / 2 % 2 == 1 then EightByteSizeReady(f % 2 == 1, f / 4 % 2 == 1)
    else OneByteSizeReady(f % 2 == 1, f / 4 % 2 == 1)
  }

  function Width(f: Byte): nat {
    if f / 2 % 2 == 1 then 8 else 1
  }

  lemma FeedFlags(max: int, f: Byte, rest: seq<Byte>)
    ensures Feed(max, START, [f] + rest) == Feed(max, Dec.Config(Sizing(f), [], Width(f)), rest).Plus(1)
  {
    MachinesFinite(max);
    Dec.FeedBulk(DecoderOf(max), START, [f] + rest, 1);
    assert ([f] + rest)[..1] == [f] && ([f] + rest)[1..] == rest;
  }

  lemma SettleSize(max: int, f: Byte, sz: seq<Byte>)
    requires |sz| == Width(f)
    ensures Dec.Finite(DecoderOf(max))
    ensures var r, n := Dec.Settle(DecoderOf(max), Dec.Config(Sizing(f), sz, 0)), Get(sz);
            if !SizeOk(max, n) then r.signal.Err?
            else if n == 0 then r == Dec.Settled(START, Dec.Got(Frame(f % 2 == 1, f / 4 % 2 == 1, [])))
            else r == Dec.Settled(Dec.Config(BodyReady(f % 2 == 1, f / 4 % 2 == 1), [], n), Dec.Hungry)
  {
    hide Get;
    MachinesFinite(max);
  }

  // Behind the size the body is read, unless it is empty or too large.
  lemma FeedSize(max: int, f: Byte, sz: seq<Byte>, rest: seq<Byte>)
    requires |sz| == Width(f)
    ensures var o, n := Feed(max, Dec.Config(Sizing(f), [], Width(f)), sz + rest), Get(sz);
            if !SizeOk(max, n) then o.failed && o.msgs == []
            else if n == 0 then o == Feed(max, START, rest).Behind([Frame(f % 2 == 1, f / 4 % 2 == 1, [])], |sz|)
            else o == Feed(max, Dec.Config(BodyReady(f % 2 == 1, f / 4 % 2 == 1), [], n), rest).Plus(|sz|)
  {
    hide Get, Sizing, Dec.Settle, Dec.Feed, Dec.Finite;
    SettleSize(max, f, sz);
    Dec.FeedBulk(DecoderOf(max), Dec.Config(Sizing(f), [], Width(f)), sz + rest, |sz|);
    assert (sz + rest)[..|sz|] == sz && (sz + rest)[|sz|..] == rest && [] + sz == sz;
  }

  lemma FeedBody(max: int, more: bool, command: bool, body: seq<Byte>, rest: seq<Byte>)
    requires body != []
    ensures Feed(max, Dec.Config(BodyReady(more, command), [], |body|), body + rest) ==
            Feed(max, START, rest).Behind([Frame(more, command, body)], |body|)
  {
    MachinesFinite(max);
    Dec.FeedBulk(DecoderOf(max), Dec.Config(BodyReady(more, command), [], |body|), body + rest, |body|);
    assert (body + rest)[..|body|] == body && (body + rest)[|body|..] == rest && [] + body == body;
  }

  lemma FeedFrame(max: int, f: Byte, sz: seq<Byte>, body: seq<Byte>, rest: seq<Byte>)
    requires |sz| == Width(f) && Get(sz) == |body|
    ensures var o := Feed(max, START, [f] + (sz + (body + rest)));
            if SizeOk(max, |body|)
            then o == Feed(max, START, rest).Behind([Frame(f % 2 == 1, f / 4 % 2 == 1, body)], 1 + |sz| + |body|)
            else o.failed && o.msgs == []
  {
    FeedFlags(max, f, sz + (body + rest));
    FeedSize(max, f, sz, body + rest);
    if SizeOk(max, |body|) {
      if body == [] {
        assert body + rest == rest;
      } else {
        FeedBody(max, f % 2 == 1, f / 4 % 2 == 1, body, rest);
      }
    }
  }

  // ---------------------------------------------------------------- one message, many messages

  lemma FlagsBits(more: bool, large: bool, command: bool)
    ensures var f := Flags(more, large, command);
            (f % 2 == 1) == more && (f / 2 % 2 == 1) == large && (f / 4 % 2 == 1) == command
  {
  }

  lemma Layout(msg: Message, rest: seq<Byte>)
    requires Sized(msg)
    ensures Header(msg) + msg.body + rest == [FlagsOf(msg)] + (SizeField(msg) + (FrameOf(msg).body + rest))
    ensures Get(SizeField(msg)) == |FrameOf(msg).body|
  {
    var size := |msg.body| + |Prefix(msg.kind)|;
    Powers();
    if size > UCHAR_MAX { GetPut(size, 8); } else { assert [size][..0] == []; }
  }

  // The bytes of a subscription to "A", of its cancellation, of the last part of a message and of
  // one that is not, and of a command.
  lemma SmallHeaders()
    ensures Header(Message(false, false, Subscribe, [65])) + [65] == [0, 2, 1, 65]
    ensures Header(Message(false, false, Cancel, [65])) + [65] == [0, 2, 0, 65]
    ensures Header(Message(false, false, Plain, [65])) + [65] == [0, 1, 65]
    ensures Header(Message(true, false, Plain, [65])) + [65] == [1, 1, 65]
    ensures Header(Message(false, true, Plain, [65])) + [65] == [4, 1, 65]
  {
    hide Put;
  }

  lemma LargeHeader(msg: Message)
    requires !msg.more && !msg.command && msg.kind == Plain && 256 <= |msg.body| < 512
    ensures Header(msg) == [2, 0, 0, 0, 0, 0, 0, 1, |msg.body| - 256]
  {
    hide Put;
    Size512(|msg.body|);
  }

  lemma Size512(n: nat)
    requires 256 <= n < 512
    ensures Put(n, 8) == [0, 0, 0, 0, 0, 0, 1, n - 256]
  {
    assert Put(0, 6) == [0, 0, 0, 0, 0, 0] by {
      SmallSize(0);
      assert Put(0, 5) == [0, 0, 0, 0, 0];
    }
    assert Put(1, 7) == Put(0, 6) + [1];
  }

  // A message arrives as its frame, and then the rest is decoded.
  lemma FeedMessage(max: int, msg: Message, rest: seq<Byte>)
    requires Sized(msg) && Faithful(max, msg)
    ensures Feed(max, START, Header(msg) + msg.body + rest) ==
            Feed(max, START, rest).Behind([FrameOf(msg)], |Header(msg) + msg.body|)
  {
    hide Feed, Get;
    FlagsBits(msg.more, |msg.body| > UCHAR_MAX, msg.command);
    Layout(msg, rest);
    FeedFrame(max, FlagsOf(msg), SizeField(msg), FrameOf(msg).body, rest);
  }

  // Otherwise the decoder fails, or its next frame is an empty one, which is not the message's.
  lemma FeedBad(max: int, msg: Message, rest: seq<Byte>)
    requires Sized(msg) && !Faithful(max, msg)
    ensures var o := Feed(max, START, Header(msg) + msg.body + rest);
            o.msgs == [] || o.msgs[0] != FrameOf(msg)
  {
    hide Feed, Get, Put;
    var f, sz, body := FlagsOf(msg), SizeField(msg), FrameOf(msg).body;
    FlagsBits(msg.more, |msg.body| > UCHAR_MAX, msg.command);
    Layout(msg, rest);
    if msg.kind != Plain && |msg.body| == UCHAR_MAX {
      FirstByte(|body|);
      var rest' := sz[1..] + (body + rest);
      FeedFrame(max, f, [0], [], rest');
      assert [0] + ([] + rest') == sz + (body + rest);
    } else {
      FeedFrame(max, f, sz, body, rest);
    }
  }

  // Such a message.
  lemma LostSubscription()
    ensures var msg := Message(false, false, Subscribe, seq(255, _ => 65));
            Sized(msg) && Feed(-1, START, Header(msg) + msg.body).msgs != [FrameOf(msg)]
  {
    var msg := Message(false, false, Subscribe, seq(255, _ => 65));
    FeedBad(-1, msg, []);
    assert Header(msg) + msg.body + [] == Header(msg) + msg.body;
  }

  lemma FirstByte(size: nat)
    requires size == 256
    ensures Put(size, 8)[0] == 0 && Get([0]) == 0
  {
    PutAt(size, 8, 0);
    Powers();
    assert [0][..0] == [];
  }

  // Every byte stream that comes of messages is decoded into their frames, if and only if no
  // message is over the limit and none is a subscription or cancellation of 255 bytes.
  lemma {:induction false} RoundTrip(max: int, msgs: seq<Message>)
    requires forall i :: 0 <= i < |msgs| ==> Sized(msgs[i])
    ensures Enc.Finite(ENCODER)
    ensures var stream := Enc.Stream(ENCODER, MessageReady, msgs);
            var o := Feed(max, START, stream);
            && (o.msgs == FramesOf(msgs) <==> forall i :: 0 <= i < |msgs| ==> Faithful(max, msgs[i]))
            && (o.msgs == FramesOf(msgs) ==> o == Dec.Outcome(START, FramesOf(msgs), false, |stream|))
  {
    MachinesFinite(max);
    if msgs != [] {
      var msg, rest := msgs[0], Enc.Stream(ENCODER, MessageReady, msgs[1..]);
      EncodedAs(msg);
      RoundTrip(max, msgs[1..]);
      assert forall i :: 1 <= i < |msgs| ==> msgs[i] == msgs[1..][i - 1];
      assert Enc.Stream(ENCODER, MessageReady, msgs) == Header(msg) + msg.body + rest;
      if Faithful(max, msg) {
        FeedMessage(max, msg, rest);
        assert ([FrameOf(msg)] + Feed(max, START, rest).msgs)[1..] == Feed(max, START, rest).msgs;
        assert FramesOf(msgs)[1..] == FramesOf(msgs[1..]);
      } else {
        FeedBad(max, msg, rest);
        assert FramesOf(msgs)[0] == FrameOf(msg);
      }
    }
  }

  // End to end, whatever the sizes of the buffers on both sides and of the pieces in between.
  method Transmit(max: int, msgs: seq<Message>, outSize: nat, inSize: nat) returns (frames: seq<Frame>, failed: bool)
    requires outSize > 0 && inSize > 0
    requires forall i :: 0 <= i < |msgs| ==> Sized(msgs[i])
    ensures frames == FramesOf(msgs) <==> forall i :: 0 <= i < |msgs| ==> Faithful(max, msgs[i])
    ensures frames == FramesOf(msgs) ==> !failed
  {
    MachinesFinite(max);
    var e := new Enc.Encoder(ENCODER, MessageReady, outSize);
    var stream := e.SendAll(msgs);
    var d := new Dec.Decoder(DecoderOf(max), FlagsReady, 1);
    var used;
    frames, failed, used := d.Receive(stream, inSize);
    RoundTrip(max, msgs);
  }
}
