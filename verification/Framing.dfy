/** gRPC length-prefixed messages. */
module Framing {
  // Source: typeway-grpc/src/framing.rs, interop/src/server.rs

  import opened Bytes

  const HEADER := 5

  /** `u32::to_be_bytes`. */
  function ToBe32(n: U32): (bs: seq<Byte>)
    ensures |bs| == 4
  {
    [n / 0x100_0000, n / 0x1_0000 % 256, n / 0x100 % 256, n % 256]
  }

  /** `u32::from_be_bytes`. */
  function FromBe32(a: Byte, b: Byte, c: Byte, d: Byte): (n: U32) {
    0x100_0000 * a + 0x1_0000 * b + 0x100 * c + d
  }

  lemma {:induction false} Be32Inverts(n: U32)
    ensures var bs := ToBe32(n); FromBe32(bs[0], bs[1], bs[2], bs[3]) == n
  {
    assert n / 0x1_0000 == n / 0x100_0000 * 0x100 + n / 0x1_0000 % 256;
    assert n / 0x100 == n / 0x1_0000 * 0x100 + n / 0x100 % 256;
  }

  /** A frame with uncompressed flag 0; the length is cast to `u32`. */
  function Frame(message: seq<Byte>): (f: seq<Byte>)
    ensures |f| == HEADER + |message|
  {
    [0] + ToBe32(WrapU32(|message|)) + message
  }

  method EncodeGrpcFrame(message: seq<Byte>) returns (frame: seq<Byte>)
    ensures frame == Frame(message)
  {
    frame := [];
    frame := frame + [0];
    frame := frame + ToBe32(WrapU32(|message|));
    frame := frame + message;
  }

  datatype FramingError = TooShort(got: nat) | CompressedNotSupported | Incomplete(expected: nat, got: nat)

  /** The declared length of a frame whose header is there. */
  function Declared(data: seq<Byte>): (n: U32)
    requires |data| >= HEADER
  {
    FromBe32(data[1], data[2], data[3], data[4])
  }

  /** `decode_grpc_frame`. */
  function DecodeFrame(data: seq<Byte>): (r: Result<seq<Byte>, FramingError>)
    ensures r.Ok? ==> |data| >= HEADER + |r.value|
  {
    if |data| < HEADER then Err(TooShort(|data|))
    else if data[0] != 0 then Err(CompressedNotSupported)
    else if |data| < HEADER + Declared(data) then Err(Incomplete(Declared(data), |data| - HEADER))
    else Ok(data[HEADER..HEADER + Declared(data)])
  }

  /** Is there a whole frame at the front? */
  predicate HasFrame(data: seq<Byte>) { |data| >= HEADER && |data| >= HEADER + Declared(data) }

  function Payload(data: seq<Byte>): (p: seq<Byte>)
    requires HasFrame(data)
  {
    data[HEADER..HEADER + Declared(data)]
  }

  function After(data: seq<Byte>): (rest: seq<Byte>)
    requires HasFrame(data)
    ensures |rest| < |data|
  {
    data[HEADER + Declared(data)..]
  }

  /** Up to the 32-bit length limit, a frame decodes to its message, whatever follows. */
  lemma {:induction false} FrameInverts(message: seq<Byte>, rest: seq<Byte>)
    requires |message| < 0x1_0000_0000
    ensures HasFrame(Frame(message) + rest) && (Frame(message) + rest)[0] == 0
    ensures Payload(Frame(message) + rest) == message && After(Frame(message) + rest) == rest
    ensures DecodeFrame(Frame(message) + rest) == Ok(message)
  {
    hide Declared, ToBe32;
    FrameHeader(message, rest);
  }

  lemma {:induction false} FrameHeader(message: seq<Byte>, rest: seq<Byte>)
    ensures |Frame(message) + rest| == HEADER + |message| + |rest|
    ensures (Frame(message) + rest)[0] == 0 && Declared(Frame(message) + rest) == WrapU32(|message|)
  {
    hide ToBe32;
    var bs := ToBe32(WrapU32(|message|));
    Be32Inverts(WrapU32(|message|));
    assert [0] + bs + message + rest == [0] + (bs + (message + rest));
  }

  /** Past the limit it decodes to a proper prefix: the round trip holds exactly below 2^32 bytes. */
  lemma {:induction false} FrameRoundTripIff(message: seq<Byte>)
    ensures DecodeFrame(Frame(message)).Ok?
    ensures DecodeFrame(Frame(message)) == Ok(message) <==> |message| < 0x1_0000_0000
  {
    FrameHeader(message, []);
    assert Frame(message) + [] == Frame(message);
    assert Frame(message)[HEADER..HEADER + |message|] == message;
  }

  // ---- many frames in one buffer ----

  datatype Split = Split(frames: seq<seq<Byte>>, trailers: Option<seq<Byte>>)

  /** `decode_grpc_frames`: only flag 0x80 is special, any other flag counts as data. */
  function SplitFrames(data: seq<Byte>): (s: Split)
    decreases |data|
  {
    if !HasFrame(data) then Split([], None)
    else if data[0] == 0x80 then Split([], Some(Payload(data)))
    else var s := SplitFrames(After(data)); Split([Payload(data)] + s.frames, s.trailers)
  }

  method DecodeGrpcFrames(data: seq<Byte>) returns (frames: seq<seq<Byte>>, trailers: Option<seq<Byte>>)
    ensures Split(frames, trailers) == SplitFrames(data)
  {
    hide HasFrame, Payload, After, FromBe32;
    frames, trailers := [], None;
    var offset := 0;
    assert data[offset..] == data;
    while offset + HEADER <= |data|
      invariant 0 <= offset <= |data|
      invariant var s := SplitFrames(data[offset..]); SplitFrames(data) == Split(frames + s.frames, s.trailers)
      decreases |data| - offset
    {
      ghost var rest := data[offset..];
      var flag := data[offset];
      var len := FromBe32(data[offset + 1], data[offset + 2], data[offset + 3], data[offset + 4]);
      FrameAt(data, offset);
      offset := offset + HEADER;
      if offset + len > |data| {
        assert frames + [] == frames;
        return;
      }
      var frame := data[offset..offset + len];
      if flag == 0x80 {
        trailers := Some(frame);
        assert frames + [] == frames;
        return;
      }
      ghost var s := SplitFrames(After(rest));
      assert frames + ([frame] + s.frames) == (frames + [frame]) + s.frames;
      frames := frames + [frame];
      offset := offset + len;
    }
    NoFrame(data, offset);
    assert frames + [] == frames;
  }

  lemma {:induction false} NoFrame(data: seq<Byte>, offset: nat)
    requires offset <= |data| < offset + HEADER
    ensures SplitFrames(data[offset..]) == Split([], None)
  {
  }

  /** The loop's offsets, seen from the unread rest. */
  lemma {:induction false} FrameAt(data: seq<Byte>, offset: nat)
    requires offset + HEADER <= |data|
    ensures var rest, len := data[offset..], FromBe32(data[offset + 1], data[offset + 2], data[offset + 3], data[offset + 4]);
            && rest[0] == data[offset] && (HasFrame(rest) <==> offset + HEADER + len <= |data|)
            && (HasFrame(rest) ==> data[offset + HEADER..offset + HEADER + len] == Payload(rest)
                                   && data[offset + HEADER + len..] == After(rest))
  {
  }

  function FrameAll(messages: seq<seq<Byte>>): (bs: seq<Byte>) {
    if messages == [] then [] else Frame(messages[0]) + FrameAll(messages[1..])
  }

  predicate AllFit(messages: seq<seq<Byte>>) {
    forall i :: 0 <= i < |messages| ==> |messages[i]| < 0x1_0000_0000
  }

  lemma {:induction false} SplitConcat(messages: seq<seq<Byte>>, tail: seq<Byte>)
    requires AllFit(messages)
    ensures var s := SplitFrames(tail);
            SplitFrames(FrameAll(messages) + tail) == Split(messages + s.frames, s.trailers)
  {
    hide Frame, HasFrame, Payload, After;
    if messages == [] {
      assert [] + tail == tail;
      assert [] + SplitFrames(tail).frames == SplitFrames(tail).frames;
    } else {
      Cut(Frame(messages[0]), FrameAll(messages[1..]), tail);
      FrameInverts(messages[0], FrameAll(messages[1..]) + tail);
      SplitConcat(messages[1..], tail);
      assert messages == [messages[0]] + messages[1..];
      assert messages + SplitFrames(tail).frames == [messages[0]] + (messages[1..] + SplitFrames(tail).frames);
    }
  }

  /** Encoded messages and a tail split into exactly the messages if and only if the tail holds no whole frame. */
  lemma {:induction false} SplitExact(messages: seq<seq<Byte>>, tail: seq<Byte>)
    requires AllFit(messages)
    ensures SplitFrames(FrameAll(messages) + tail) == Split(messages, None) <==> !HasFrame(tail)
  {
    hide HasFrame, Payload, After, FrameAll;
    SplitConcat(messages, tail);
    var s := SplitFrames(tail);
    assert s.frames == [] ==> messages + s.frames == messages;
    assert s.frames != [] ==> |messages + s.frames| > |messages|;
  }

  // ---- the bytes of a frame ----

  /** A header as the gRPC document lays it out: one flag byte, four length bytes with the highest first. */
  function Header(flag: Byte, n: U32): (h: seq<Byte>)
    ensures |h| == 5 && h[0] == flag
    ensures n == 0x100_0000 * (h[1] as int) + 0x1_0000 * (h[2] as int) + 0x100 * (h[3] as int) + h[4]
  {
    assert n / 0x1_0000 == n / 0x100_0000 * 0x100 + n / 0x1_0000 % 0x100;
    assert n / 0x100 == n / 0x1_0000 * 0x100 + n / 0x100 % 0x100;
    [flag, n / 0x100_0000, n / 0x1_0000 % 0x100, n / 0x100 % 0x100, n % 0x100]
  }

  /** The encoder writes such a header with flag 0. */
  lemma {:induction false} FrameLayout(message: seq<Byte>)
    requires |message| < 0x1_0000_0000
    ensures Frame(message) == Header(0, |message|) + message
  {
    assert WrapU32(|message|) == |message|;
  }

  lemma {:induction false} LaidOut(flag: Byte, payload: seq<Byte>, rest: seq<Byte>)
    requires |payload| < 0x1_0000_0000
    ensures var data := Header(flag, |payload|) + payload + rest;
            && HasFrame(data) && data[0] == flag && Payload(data) == payload && After(data) == rest
  {
    var h := Header(flag, |payload|);
    var data := h + payload + rest;
    assert data == h + (payload + rest);
    assert data[1] == h[1] && data[2] == h[2] && data[3] == h[3] && data[4] == h[4];
    assert data[5..5 + |payload|] == payload && data[5 + |payload|..] == rest;
  }

  /** The single-frame decoder on any laid-out frame, whatever follows, and on a cut one. */
  lemma {:induction false} DecodeLayout(flag: Byte, payload: seq<Byte>, rest: seq<Byte>, k: nat)
    requires |payload| < 0x1_0000_0000 && k < 5 + |payload|
    ensures DecodeFrame(Header(flag, |payload|) + payload + rest) == if flag == 0 then Ok(payload) else Err(CompressedNotSupported)
    ensures DecodeFrame((Header(flag, |payload|) + payload)[..k])
         == if k < 5 then Err(TooShort(k)) else if flag != 0 then Err(CompressedNotSupported)
            else Err(Incomplete(|payload|, k - 5))
  {
    LaidOut(flag, payload, rest);
    var h := Header(flag, |payload|);
    var cut := (h + payload)[..k];
    if k >= 5 { assert cut[0] == h[0] && cut[1] == h[1] && cut[2] == h[2] && cut[3] == h[3] && cut[4] == h[4]; }
  }

  /** Messages, then a frame with the trailers flag: the messages and that frame's payload, whatever follows. */
  lemma {:induction false} SplitTrailers(messages: seq<seq<Byte>>, payload: seq<Byte>, rest: seq<Byte>)
    requires AllFit(messages) && |payload| < 0x1_0000_0000
    ensures SplitFrames(FrameAll(messages) + (Header(0x80, |payload|) + payload + rest)) == Split(messages, Some(payload))
  {
    hide HasFrame, Payload, After, FrameAll, Header;
    LaidOut(0x80, payload, rest);
    var tail := Header(0x80, |payload|) + payload + rest;
    SplitConcat(messages, tail);
    assert SplitFrames(tail) == Split([], Some(payload));
    assert messages + [] == messages;
  }

  // ---- the incremental reader ----

  /** What the body yields: a data chunk, a frame that is not data, or a failure. */
  datatype BodyEvent = Chunk(data: seq<Byte>) | NotData | Failed(message: string)

  datatype ReadError = UnexpectedFlag(flag: Byte) | BodyFailed(message: string)

  /** One call of `try_take_frame`: a frame and what is left of the buffer, or a flag error that takes nothing. */
  function TryTake(buf: seq<Byte>): (r: Option<Result<(seq<Byte>, seq<Byte>), ReadError>>)
    ensures r.Some? && r.value.Ok? ==> |r.value.value.1| < |buf|
  {
    if !HasFrame(buf) then None
    else if buf[0] != 0 then Some(Err(UnexpectedFlag(buf[0])))
    else Some(Ok((Payload(buf), After(buf))))
  }

  datatype Reader = Reader(buf: seq<Byte>, done: bool, body: seq<BodyEvent>)

  datatype Taken = Taken(item: Option<Result<seq<Byte>, ReadError>>, reader: Reader)

  /** `next_frame`, over the events the body still has. */
  function NextFrame(r: Reader): (t: Taken)
    decreases |r.body|
  {
    match TryTake(r.buf)
    case Some(Ok((frame, rest))) => Taken(Some(Ok(frame)), r.(buf := rest))
    case Some(Err(e)) => Taken(Some(Err(e)), r)
    case None =>
      if r.done then Taken(None, r)
      else if r.body == [] then Taken(None, r.(done := true))
      else
        match r.body[0]
        case Chunk(data) => NextFrame(r.(buf := r.buf + data, body := r.body[1..]))
        case NotData => NextFrame(r.(body := r.body[1..]))
        case Failed(m) => Taken(Some(Err(BodyFailed(m))), r.(done := true, body := r.body[1..]))
  }

  class GrpcFrameReader {
    var buf: seq<Byte>
    var done: bool
    var body: seq<BodyEvent>

    ghost function State(): (r: Reader)
      reads this
    {
      Reader(buf, done, body)
    }

    constructor (events: seq<BodyEvent>)
      ensures State() == Reader([], false, events)
    {
      buf, done, body := [], false, events;
    }

    method TryTakeFrame() returns (r: Option<Result<seq<Byte>, ReadError>>)
      modifies this`buf
      ensures match TryTake(old(buf))
              case None => r == None && buf == old(buf)
              case Some(Err(e)) => r == Some(Err(e)) && buf == old(buf)
              case Some(Ok((frame, rest))) => r == Some(Ok(frame)) && buf == rest
    {
      if |buf| < HEADER { return None; }
      var flag := buf[0];
      var len := FromBe32(buf[1], buf[2], buf[3], buf[4]);
      if |buf| < HEADER + len { return None; }
      if flag != 0 { return Some(Err(UnexpectedFlag(flag))); }
      buf := buf[HEADER..];
      var payload := buf[..len];
      buf := buf[len..];
      assert payload == Payload(old(buf)) && buf == After(old(buf));
      return Some(Ok(payload));
    }

    method Next() returns (item: Option<Result<seq<Byte>, ReadError>>)
      modifies this
      ensures Taken(item, State()) == NextFrame(old(State()))
    {
      while true
        invariant NextFrame(State()) == NextFrame(old(State()))
        decreases !done, |body|
      {
        var frame := TryTakeFrame();
        if frame.Some? { return frame; }
        if done { return None; }
        if body == [] {
          done := true;
        } else {
          var event := body[0];
          body := body[1..];
          if event.Chunk? {
            buf := buf + event.data;
          } else if event.Failed? {
            done := true;
            return Some(Err(BodyFailed(event.message)));
          }
        }
      }
    }
  }

  // ---- chunk independence ----

  /** How a byte stream read frame by frame stops: short of a frame, or at a non-zero flag. */
  datatype Stop = Short | BadFlag(flag: Byte)

  /** The frames of a whole byte stream up to the first non-zero flag. */
  function StreamFrames(bs: seq<Byte>): (s: (seq<seq<Byte>>, Stop))
    decreases |bs|
  {
    if !HasFrame(bs) then ([], Short)
    else if bs[0] != 0 then ([], BadFlag(bs[0]))
    else var s := StreamFrames(After(bs)); ([Payload(bs)] + s.0, s.1)
  }

  /** Calling `next_frame` until it gives no frame: the frames, and the last answer. */
  function ReadAll(r: Reader): (s: (seq<seq<Byte>>, Option<ReadError>))
    decreases |r.buf| + BodySize(r.body), |r.body|
  {
    NextShrinks(r);
    var t := NextFrame(r);
    match t.item
    case None => ([], None)
    case Some(Err(e)) => ([], Some(e))
    case Some(Ok(frame)) => var s := ReadAll(t.reader); ([frame] + s.0, s.1)
  }

  function BodySize(body: seq<BodyEvent>): (n: nat) {
    if body == [] then 0 else (if body[0].Chunk? then |body[0].data| else 0) + BodySize(body[1..])
  }

  lemma {:induction false} NextShrinks(r: Reader)
    ensures var t := NextFrame(r);
            t.item.Some? && t.item.value.Ok? ==> |t.reader.buf| + BodySize(t.reader.body) < |r.buf| + BodySize(r.body)
    decreases |r.body|
  {
    hide HasFrame, TryTake;
    if TryTake(r.buf).None? && !r.done && r.body != [] {
      match r.body[0]
      case Chunk(data) => NextShrinks(r.(buf := r.buf + data, body := r.body[1..]));
      case NotData => NextShrinks(r.(body := r.body[1..]));
      case Failed(_) =>
    }
  }

  /** All bytes the body delivers, in order. */
  function Delivered(body: seq<BodyEvent>): (bs: seq<Byte>) {
    if body == [] then [] else (if body[0].Chunk? then body[0].data else []) + Delivered(body[1..])
  }

  predicate NeverFails(body: seq<BodyEvent>) { forall i :: 0 <= i < |body| ==> !body[i].Failed? }

  /** More bytes never change a frame that is already whole. */
  lemma {:induction false} TakeExtends(buf: seq<Byte>, more: seq<Byte>)
    requires HasFrame(buf)
    ensures HasFrame(buf + more) && (buf + more)[0] == buf[0]
    ensures Payload(buf + more) == Payload(buf) && After(buf + more) == After(buf) + more
  {
    assert Declared(buf + more) == Declared(buf);
  }

  /** One frame, whatever chunks it arrives in. */
  lemma {:induction false} NextIndependent(r: Reader)
    requires !r.done && NeverFails(r.body)
    ensures var all, t := r.buf + Delivered(r.body), NextFrame(r);
            match TryTake(all)
            case None => t.item == None
            case Some(Err(e)) => t.item == Some(Err(e))
            case Some(Ok((frame, rest))) =>
              && t.item == Some(Ok(frame)) && t.reader.buf + Delivered(t.reader.body) == rest
              && !t.reader.done && NeverFails(t.reader.body)
    decreases |r.body|
  {
    hide Payload, After, HasFrame;
    if HasFrame(r.buf) {
      TakeExtends(r.buf, Delivered(r.body));
    } else if r.body == [] {
      assert r.buf + [] == r.buf;
    } else {
      var next := if r.body[0].Chunk? then r.(buf := r.buf + r.body[0].data, body := r.body[1..])
                  else r.(body := r.body[1..]);
      NextIndependent(next);
      assert next.buf + Delivered(next.body) == r.buf + Delivered(r.body) by {
        if r.body[0].Chunk? { Cut(r.buf, r.body[0].data, Delivered(r.body[1..])); }
        else { assert [] + Delivered(r.body[1..]) == Delivered(r.body[1..]); }
      }
    }
  }

  /** For every split into chunks, the reader yields the frames of the concatenation up to the first bad flag. */
  lemma {:induction false} ChunkIndependence(r: Reader)
    requires !r.done && NeverFails(r.body)
    ensures var s := StreamFrames(r.buf + Delivered(r.body));
            ReadAll(r) == (s.0, match s.1 case Short => None case BadFlag(f) => Some(UnexpectedFlag(f)))
    decreases |r.buf| + BodySize(r.body)
  {
    hide NextFrame, Payload, After, Delivered, Declared;
    NextIndependent(r);
    var all := r.buf + Delivered(r.body);
    if HasFrame(all) && all[0] == 0 {
      NextShrinks(r);
      ChunkIndependence(NextFrame(r).reader);
    }
  }

  /** A flag error takes nothing from the buffer: every later call repeats it. */
  lemma {:induction false} FlagErrorSticks(r: Reader)
    requires NextFrame(r).item.Some? && NextFrame(r).item.value.Err? && NextFrame(r).item.value.error.UnexpectedFlag?
    ensures NextFrame(NextFrame(r).reader) == NextFrame(r)
    decreases |r.body|
  {
    hide HasFrame, Payload, After;
    if TryTake(r.buf).None? && !r.done && r.body != [] {
      match r.body[0]
      case Chunk(data) => FlagErrorSticks(r.(buf := r.buf + data, body := r.body[1..]));
      case NotData => FlagErrorSticks(r.(body := r.body[1..]));
      case Failed(_) =>
    }
  }

  /**
    The reader against `decode_grpc_frames` on the same bytes: the same frames when no flag is bad
    or the first bad flag is the trailers flag, and strictly fewer for any other bad flag, which
    `decode_grpc_frames` takes for data.
  */
  lemma {:induction false} ReaderAgainstSplit(bs: seq<Byte>)
    ensures var s, t := StreamFrames(bs), SplitFrames(bs);
            match s.1
            case Short => t == Split(s.0, None)
            case BadFlag(f) => if f == 0x80 then t.frames == s.0 && t.trailers.Some? else s.0 < t.frames
    decreases |bs|
  {
    hide Payload, After, Declared;
    if HasFrame(bs) && bs[0] == 0 { ReaderAgainstSplit(After(bs)); }
  }

  // ---- the client-streaming loop ----

  /** `saturating_add` on `i32`. */
  function SaturatingAdd(a: int, b: int): (s: int) {
    if a + b > 0x7FFF_FFFF then 0x7FFF_FFFF else if a + b < -0x8000_0000 then -0x8000_0000 else a + b
  }

  datatype CallError = FramingFailed(error: FramingError) | DecodeFailed(message: string)

  /** The payload size of one request message, when it has a payload; the message decoder is not part of this model. */
  type Sizer = seq<Byte> -> Result<Option<nat>, string>

  /** `streaming_input_call`, from a cursor position and a running total. */
  function Aggregate(size: Sizer, cursor: seq<Byte>, total: int): (r: Result<int, CallError>)
    decreases |cursor|
  {
    if cursor == [] then Ok(total)
    else
      match DecodeFrame(cursor)
      case Err(e) => Err(FramingFailed(e))
      case Ok(payload) =>
        match size(payload)
        case Err(m) => Err(DecodeFailed(m))
        case Ok(n) =>
          Aggregate(size, cursor[HEADER + |payload|..],
                    if n.Some? then SaturatingAdd(total, WrapI32(n.value)) else total)
  }

  method StreamingInputCall(size: Sizer, framed: seq<Byte>) returns (r: Result<int, CallError>)
    ensures r == Aggregate(size, framed, 0)
  {
    var total, cursor := 0, framed;
    while cursor != []
      invariant Aggregate(size, framed, 0) == Aggregate(size, cursor, total)
      decreases |cursor|
    {
      var frame := DecodeFrame(cursor);
      if frame.Err? { return Err(FramingFailed(frame.error)); }
      var payload := frame.value;
      var msg := size(payload);
      if msg.Err? { return Err(DecodeFailed(msg.error)); }
      if msg.value.Some? { total := SaturatingAdd(total, WrapI32(msg.value.value)); }
      cursor := cursor[HEADER + |payload|..];
    }
    r := Ok(total);
  }

  /** The true sum of the payload sizes. */
  function TotalSize(size: Sizer, messages: seq<seq<Byte>>): (n: nat) {
    if messages == [] then 0
    else (match size(messages[0]) case Ok(Some(n)) => n case _ => 0) + TotalSize(size, messages[1..])
  }

  /** The message decodes, to a payload below 2^31 bytes if to any. */
  predicate Sized(size: Sizer, message: seq<Byte>) {
    size(message).Ok? && (size(message).value.Some? ==> size(message).value.value < 0x8000_0000)
  }

  function Capped(n: nat): (r: nat) { if n > 0x7FFF_FFFF then 0x7FFF_FFFF else n }

  /** The loop over one framed message. */
  lemma {:induction false} AggregateStep(size: Sizer, m: seq<Byte>, rest: seq<Byte>, total: nat)
    requires |m| < 0x1_0000_0000 && Sized(size, m) && total <= 0x7FFF_FFFF
    ensures var n := match size(m).value case Some(n) => n case None => 0;
            Aggregate(size, Frame(m) + rest, total) == Aggregate(size, rest, Capped(total + n))
  {
    hide Frame, DecodeFrame;
    FrameInverts(m, rest);
    assert (Frame(m) + rest)[HEADER + |m|..] == rest;
  }

  /**
    On a body of whole frames whose messages decode to payloads below 2^31 bytes, the answer is the
    true total, capped at the largest `i32`.
  */
  lemma {:induction false} AggregateIsCappedSum(size: Sizer, messages: seq<seq<Byte>>, total: nat)
    requires AllFit(messages) && total <= 0x7FFF_FFFF
    requires forall i :: 0 <= i < |messages| ==> Sized(size, messages[i])
    ensures Aggregate(size, FrameAll(messages), total) == Ok(Capped(total + TotalSize(size, messages)))
    decreases |messages|
  {
    hide Frame, Sized;
    if messages != [] {
      var m := messages[0];
      AggregateStep(size, m, FrameAll(messages[1..]), total);
      var n := TotalSize(size, messages) - TotalSize(size, messages[1..]);
      SizeOne(size, messages);
      AggregateIsCappedSum(size, messages[1..], Capped(total + n));
    }
  }

  lemma {:induction false} SizeOne(size: Sizer, messages: seq<seq<Byte>>)
    requires messages != [] && Sized(size, messages[0])
    ensures var n := match size(messages[0]).value case Some(n) => n case None => 0;
            TotalSize(size, messages) == n + TotalSize(size, messages[1..])
  {
  }
}
