/** Messages, their byte encoding, and the length-prefixed frames that carry them over TCP. */
module Wire {
  import opened Bytes

  const TEXT_MESSAGE: byte := 1
  const EVENT_MESSAGE: byte := 2
  const SNAPSHOT_MESSAGE: byte := 3
  const CLIENT_LIST_MESSAGE: byte := 4
  const CLIENT_ID_MESSAGE: byte := 5

  datatype BaseMessage = BaseMessage(messageType: byte, senderID: byte, message: seq<byte>)

  predicate NoneEmpty(ms: seq<BaseMessage>) {
    forall i :: 0 <= i < |ms| ==> ms[i].message != []
  }

  predicate EventsCarryData(ms: seq<BaseMessage>) {
    forall i :: 0 <= i < |ms| && ms[i].messageType == EVENT_MESSAGE ==> ms[i].message != []
  }

  // ---------------------------------------------------------------- serialisation

  function Encode(m: BaseMessage): (buffer: seq<byte>)
    ensures |buffer| >= 2
  {
    [m.messageType, m.senderID] + m.message
  }

  function Decode(buffer: seq<byte>): Option<BaseMessage> {
    if |buffer| < 2 then None else Some(BaseMessage(buffer[0], buffer[1], buffer[2..]))
  }

  lemma DecodeEncode(m: BaseMessage)
    ensures Decode(Encode(m)) == Some(m)
  {
    assert Encode(m)[2..] == m.message;
  }

  lemma EncodeDecode(buffer: seq<byte>)
    ensures |buffer| >= 2 <==> Decode(buffer).Some?
    ensures |buffer| >= 2 ==> Encode(Decode(buffer).value) == buffer
  {
    if |buffer| >= 2 {
      assert buffer == [buffer[0], buffer[1]] + buffer[2..];
    }
  }

  /** Copies the message queue and drains the copy into the buffer. */
  method SerializeMessage(msg: BaseMessage) returns (buffer: seq<byte>)
    ensures buffer == Encode(msg)
  {
    buffer := [msg.messageType, msg.senderID];
    var tempQueue := msg.message;
    while tempQueue != []
      invariant buffer + tempQueue == Encode(msg)
      decreases |tempQueue|
    {
      assert tempQueue == [tempQueue[0]] + tempQueue[1..];
      buffer := buffer + [tempQueue[0]];
      tempQueue := tempQueue[1..];
    }
  }

  method DeserializeMessage(buffer: seq<byte>) returns (msg: Option<BaseMessage>)
    ensures msg == Decode(buffer)
  {
    if |buffer| < 2 {
      return None;
    }
    var queue: seq<byte> := [];
    for i := 2 to |buffer|
      invariant queue == buffer[2..i]
    {
      queue := queue + [buffer[i]];
    }
    assert queue == buffer[2..];
    return Some(BaseMessage(buffer[0], buffer[1], queue));
  }

  // ---------------------------------------------------------------- frames

  /** The 32-bit length of a buffer; the narrowing wraps. */
  function Length32(buffer: seq<byte>): u32 {
    |buffer| % U32_LIMIT
  }

  function Frame(m: BaseMessage): seq<byte> {
    Big32(Length32(Encode(m))) + Encode(m)
  }

  function Frames(ms: seq<BaseMessage>): seq<byte> {
    if ms == [] then [] else Frame(ms[0]) + Frames(ms[1..])
  }

  predicate Fits(m: BaseMessage) {
    |m.message| + 2 < U32_LIMIT
  }

  predicate AllFit(ms: seq<BaseMessage>) {
    forall i :: 0 <= i < |ms| ==> Fits(ms[i])
  }

  /** What reading one frame can lead to: a buffer, the end of the stream where a header was
      due, or the end of the stream inside a body. */
  datatype Delivery = Delivered(buffer: seq<byte>) | Closed | Broken

  function NextFrame(stream: seq<byte>): Delivery {
    if |stream| < 4 then Closed
    else if |stream| - 4 < FromBig32(stream[..4]) then Broken
    else Delivered(stream[4..4 + FromBig32(stream[..4])])
  }

  /** All messages a receive loop gets out of a byte stream. */
  function Parse(stream: seq<byte>): seq<BaseMessage>
    decreases |stream|
  {
    var next := NextFrame(stream);
    if !next.Delivered? then []
    else
      var rest := Parse(stream[4 + |next.buffer|..]);
      match Decode(next.buffer)
      case None => rest
      case Some(m) => [m] + rest
  }

  lemma ParseStep(stream: seq<byte>)
    ensures match NextFrame(stream)
            case Delivered(buffer) =>
              var rest := Parse(stream[4 + |buffer|..]);
              Parse(stream) == (match Decode(buffer) case None => rest case Some(m) => [m] + rest)
            case _ => Parse(stream) == []
  {
  }

  /** `Parse` stops for want of a header (as opposed to a body); if no header is cut, the stream ends
      between two frames. */
  predicate EndsBetweenFrames(stream: seq<byte>)
    decreases |stream|
  {
    var next := NextFrame(stream);
    if next.Delivered? then EndsBetweenFrames(stream[4 + |next.buffer|..]) else next.Closed?
  }

  /** No header of the stream is cut. */
  predicate HeadersWhole(stream: seq<byte>)
    decreases |stream|
  {
    var next := NextFrame(stream);
    match next
    case Delivered(buffer) => HeadersWhole(stream[4 + |buffer|..])
    case Broken => true
    case Closed => stream == []
  }

  lemma FrameAnatomy(header: seq<byte>, body: seq<byte>, rest: seq<byte>)
    requires |header| == 4
    ensures var stream := (header + body) + rest;
            && stream[..4] == header && |stream| == 4 + |body| + |rest|
            && stream[4..4 + |body|] == body && stream[4 + |body|..] == rest
  {
    ConcatSplits(header + body, rest);
    ConcatSplits(header, body + rest);
    ConcatSplits(body, rest);
    ConcatAssociates(header, body, rest);
  }

  /** One frame comes back unchanged exactly when its length survives the 32-bit header. */
  lemma FrameDelivered(m: BaseMessage, rest: seq<byte>)
    ensures Fits(m) ==>
              NextFrame(Frame(m) + rest) == Delivered(Encode(m)) && (Frame(m) + rest)[4 + |Encode(m)|..] == rest
    ensures NextFrame(Frame(m)) == Delivered(Encode(m)) <==> Fits(m)
  {
    var n, body := Length32(Encode(m)), Encode(m);
    FrameAnatomy(Big32(n), body, rest);
    FrameAnatomy(Big32(n), body, []);
    assert Frame(m) + [] == Frame(m);
    Big32Inverse(n);
    assert Fits(m) <==> n == |body|;
  }

  /** A frame byte by byte: the length of type, sender and payload in four bytes, most significant
      first, then these. */
  lemma FrameLayout(m: BaseMessage)
    requires Fits(m)
    ensures var f := Frame(m);
            && |f| == 6 + |m.message|
            && f[0] as int * 0x100_0000 + f[1] as int * 0x1_0000 + f[2] as int * 0x100 + f[3] == |m.message| + 2
            && f[4] == m.messageType && f[5] == m.senderID && f[6..] == m.message
  {
    Big32Places(Length32(Encode(m)));
  }

  /** What the receive loop makes of any frame, also of one too short to be a message: that is skipped. */
  lemma AnyFrameParsed(body: seq<byte>, rest: seq<byte>)
    requires |body| < U32_LIMIT
    ensures var stream := (Big32(|body|) + body) + rest;
            && Parse(stream)
               == (if |body| < 2 then [] else [BaseMessage(body[0], body[1], body[2..])]) + Parse(rest)
            && EndsBetweenFrames(stream) == EndsBetweenFrames(rest) && HeadersWhole(stream) == HeadersWhole(rest)
  {
    var stream := (Big32(|body|) + body) + rest;
    FrameAnatomy(Big32(|body|), body, rest);
    Big32Inverse(|body|);
    assert NextFrame(stream) == Delivered(body);
    ParseStep(stream);
    assert [] + Parse(rest) == Parse(rest);
  }

  lemma ParseFirst(m: BaseMessage, rest: seq<byte>)
    requires Fits(m)
    ensures Parse(Frame(m) + rest) == [m] + Parse(rest)
    ensures EndsBetweenFrames(Frame(m) + rest) == EndsBetweenFrames(rest)
    ensures HeadersWhole(Frame(m) + rest) == HeadersWhole(rest)
  {
    FrameDelivered(m, rest);
    DecodeEncode(m);
  }

  lemma {:induction false} ParseFrames(ms: seq<BaseMessage>, rest: seq<byte>)
    requires AllFit(ms)
    ensures Parse(Frames(ms) + rest) == ms + Parse(rest)
    ensures EndsBetweenFrames(Frames(ms) + rest) == EndsBetweenFrames(rest)
    ensures HeadersWhole(Frames(ms) + rest) == HeadersWhole(rest)
  {
    if ms == [] {
      assert Frames(ms) + rest == rest;
    } else {
      ConcatAssociates(Frame(ms[0]), Frames(ms[1..]), rest);
      ParseFirst(ms[0], Frames(ms[1..]) + rest);
      ParseFrames(ms[1..], rest);
      ConcatAssociates([ms[0]], ms[1..], Parse(rest));
      assert [ms[0]] + ms[1..] == ms;
    }
  }

  /** Framing is a round trip on every list of messages whose sizes fit the header. */
  lemma FramesRoundTrip(ms: seq<BaseMessage>)
    requires AllFit(ms)
    ensures Parse(Frames(ms)) == ms && EndsBetweenFrames(Frames(ms)) && HeadersWhole(Frames(ms))
  {
    ParseFrames(ms, []);
    assert Frames(ms) + [] == Frames(ms);
  }

  lemma {:induction false} FramesAppend(a: seq<BaseMessage>, b: seq<BaseMessage>)
    ensures Frames(a + b) == Frames(a) + Frames(b)
  {
    if a == [] {
      assert a + b == b;
    } else {
      assert (a + b)[1..] == a[1..] + b;
      FramesAppend(a[1..], b);
    }
  }

  lemma FramesSnoc(ms: seq<BaseMessage>, m: BaseMessage)
    ensures Frames(ms + [m]) == Frames(ms) + Frame(m)
  {
    FramesAppend(ms, [m]);
    assert [m][1..] == [];
    assert Frame(m) + [] == Frame(m);
  }

  /** How many messages lie entirely within the first `k` bytes of the frames of `ms`. */
  function WholeFrames(ms: seq<BaseMessage>, k: nat): (n: nat)
    ensures n <= |ms|
  {
    if ms == [] || k < |Frame(ms[0])| then 0 else 1 + WholeFrames(ms[1..], k - |Frame(ms[0])|)
  }

  lemma {:induction false} WholeFramesBounds(ms: seq<BaseMessage>, k: nat)
    requires k <= |Frames(ms)|
    ensures var j := WholeFrames(ms, k);
            && |Frames(ms[..j])| <= k
            && (if j < |ms| then k < |Frames(ms[..j])| + |Frame(ms[j])| else k == |Frames(ms)|)
  {
    if ms != [] && |Frame(ms[0])| <= k {
      var j := WholeFrames(ms, k);
      WholeFramesBounds(ms[1..], k - |Frame(ms[0])|);
      assert ms[..j][1..] == ms[1..][..j - 1];
    }
  }

  lemma ShortBody(header: seq<byte>, body: seq<byte>)
    requires |header| == 4 && |body| < FromBig32(header)
    ensures Parse(header + body) == [] && !EndsBetweenFrames(header + body) && HeadersWhole(header + body)
  {
    ConcatSplits(header, body);
  }

  lemma ShortHeader(stream: seq<byte>)
    requires |stream| < 4
    ensures Parse(stream) == [] && EndsBetweenFrames(stream)
    ensures HeadersWhole(stream) <==> stream == []
  {
  }

  /** The stream ends inside a frame: nothing is delivered. */
  lemma PartialFrame(m: BaseMessage, k: nat)
    requires Fits(m) && k < |Frame(m)|
    ensures Parse(Frame(m)[..k]) == []
    ensures EndsBetweenFrames(Frame(m)[..k]) <==> k < 4
    ensures HeadersWhole(Frame(m)[..k]) <==> k == 0 || k >= 4
  {
    if k < 4 {
      ShortHeader(Frame(m)[..k]);
    } else {
      var header, body := Big32(Length32(Encode(m))), Encode(m);
      PrefixOfConcat(header, body, k);
      Big32Inverse(Length32(body));
      ShortBody(header, body[..k - 4]);
    }
  }

  lemma CutBytes(ms: seq<BaseMessage>, k: nat)
    requires k <= |Frames(ms)|
    ensures var j := WholeFrames(ms, k);
            var done := Frames(ms[..j]);
            && |done| <= k
            && (if j < |ms| then k - |done| < |Frame(ms[j])| && Frames(ms)[..k] == done + Frame(ms[j])[..k - |done|]
                else Frames(ms)[..k] == done + [] && k == |done|)
  {
    var j := WholeFrames(ms, k);
    var done, later := Frames(ms[..j]), Frames(ms[j..]);
    WholeFramesBounds(ms, k);
    FramesAppend(ms[..j], ms[j..]);
    assert ms[..j] + ms[j..] == ms;
    PrefixOfConcat(done, later, k);
    if j < |ms| {
      var f, rest := Frame(ms[j]), Frames(ms[j..][1..]);
      assert later == f + rest;
      assert (f + rest)[..k - |done|] == f[..k - |done|];
    } else {
      assert ms[..j] == ms;
    }
  }

  /** A stream cut after `k` bytes yields exactly the messages whose frames arrived whole: a
      prefix of what was sent, and never a partial message. `Parse` then stops for want of a header
      exactly when fewer than four bytes follow the last whole frame, and no header is cut exactly
      when none or at least four do: where both hold, the stream ends between two frames. */
  lemma CutStream(ms: seq<BaseMessage>, k: nat)
    requires AllFit(ms) && k <= |Frames(ms)|
    ensures var j := WholeFrames(ms, k);
            && Parse(Frames(ms)[..k]) == ms[..j]
            && |Frames(ms[..j])| <= k && (j < |ms| ==> k < |Frames(ms[..j])| + |Frame(ms[j])|)
            && (EndsBetweenFrames(Frames(ms)[..k]) <==> k - |Frames(ms[..j])| < 4)
            && (HeadersWhole(Frames(ms)[..k]) <==> k == |Frames(ms[..j])| || k - |Frames(ms[..j])| >= 4)
  {
    var j := WholeFrames(ms, k);
    CutBytes(ms, k);
    var p := k - |Frames(ms[..j])|;
    if j < |ms| {
      ParseFrames(ms[..j], Frame(ms[j])[..p]);
      PartialFrame(ms[j], p);
    } else {
      ParseFrames(ms[..j], []);
    }
    assert ms[..j] + [] == ms[..j];
  }

  // ---------------------------------------------------------------- sockets

  /** One end of a connection: the bytes still to arrive before the stream ends or fails, and
      the bytes handed to `send`. */
  class Socket {
    var incoming: seq<byte>
    var outgoing: seq<byte>

    constructor (arriving: seq<byte>)
      ensures incoming == arriving && outgoing == []
    {
      incoming, outgoing := arriving, [];
    }

    method Send(data: seq<byte>)
      modifies this`outgoing
      ensures outgoing == old(outgoing) + data
    {
      outgoing := outgoing + data;
    }

    /** `recv`: any non-empty part of what was asked for, or nothing once the stream is over. */
    method Recv(max: nat) returns (data: seq<byte>)
      requires max > 0
      modifies this`incoming
      ensures |data| <= max && old(incoming) == data + incoming
      ensures data == [] <==> old(incoming) == []
    {
      if incoming == [] {
        return [];
      }
      var n: nat :| 1 <= n <= max && n <= |incoming|;
      data := incoming[..n];
      incoming := incoming[n..];
    }

    /** The header `recv`: four bytes at once, or nothing. */
    method RecvHeader() returns (data: seq<byte>)
      requires |incoming| >= 4 || incoming == []
      modifies this`incoming
      ensures old(incoming) == data + incoming
      ensures |data| == if old(incoming) == [] then 0 else 4
    {
      var n := if incoming == [] then 0 else 4;
      data := incoming[..n];
      incoming := incoming[n..];
    }

    /** Header and body, as `sendMessage` and the two server broadcasts write them. */
    method SendFrame(host: HostOrder, m: BaseMessage)
      modifies this`outgoing
      ensures outgoing == old(outgoing) + Frame(m)
    {
      var buffer := SerializeMessage(m);
      var msgSize := Htonl(host, Length32(buffer));
      LengthCrossesHosts(host, host, Length32(buffer));
      Send(Store32(host, msgSize));
      Send(buffer);
    }

    /** The body loop: asks for what is missing until it is complete or the stream is over. */
    method RecvBody(msgSize: nat) returns (buffer: seq<byte>)
      modifies this`incoming
      ensures old(incoming) == buffer + incoming
      ensures |buffer| == if |old(incoming)| < msgSize then |old(incoming)| else msgSize
    {
      buffer := [];
      while |buffer| < msgSize
        invariant |buffer| <= msgSize
        invariant old(incoming) == buffer + incoming
      {
        var data := Recv(msgSize - |buffer|);
        if data == [] { break; }
        buffer := buffer + data;
      }
    }

    /** The frame-reading part shared by the two receive loops, for every way `recv` may split
        the body. */
    method ReadFrame(host: HostOrder) returns (d: Delivery)
      requires HeadersWhole(incoming)
      modifies this`incoming
      ensures d == NextFrame(old(incoming))
      ensures incoming == if d.Delivered? then old(incoming)[4 + |d.buffer|..] else []
      ensures HeadersWhole(incoming)
    {
      var header := RecvHeader();
      if header == [] {
        return Closed;
      }
      ConcatSplits(header, incoming);
      var msgSize := Htonl(host, Load32(host, header));
      FromBig32Inverse(header);
      LengthCrossesHosts(host, host, FromBig32(header));
      var buffer := RecvBody(msgSize);
      if |buffer| < msgSize {
        return Broken;
      }
      FrameAnatomy(header, buffer, incoming);
      ConcatAssociates(header, buffer, incoming);
      return Delivered(buffer);
    }
  }
}
