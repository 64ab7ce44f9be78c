/**
  Response bodies as poll-driven state machines (typeway-grpc/src/trailer_body.rs,
  interop/src/server.rs).
*/
module Bodies {
  import opened Bytes

  type Headers = map<string, seq<Byte>>

  datatype Frame = Data(data: seq<Byte>) | Trailers(headers: Headers)

  /** One answer of `poll_frame` (or of a channel): later, an item, or the end. */
  datatype Poll<+T> = Pending | Ready(item: T) | Ended

  /** The frames among the answers, in order. */
  function Frames(answers: seq<Poll<Frame>>): (fs: seq<Frame>) {
    if answers == [] then []
    else Frames(answers[..|answers| - 1]) +
         (if answers[|answers| - 1].Ready? then [answers[|answers| - 1].item] else [])
  }

  lemma {:induction false} FramesSnoc(answers: seq<Poll<Frame>>, a: Poll<Frame>)
    ensures Frames(answers + [a]) == Frames(answers) + (if a.Ready? then [a.item] else [])
  {
    assert (answers + [a])[..|answers|] == answers;
  }

  // ---- the unary body ----

  datatype Unary = Unary(data: Option<seq<Byte>>, trailers: Option<Headers>)

  function PollUnary(b: Unary): (r: (Poll<Frame>, Unary)) {
    if b.data.Some? && b.data.value != [] then (Ready(Data(b.data.value)), b.(data := None))
    else if b.trailers.Some? then (Ready(Trailers(b.trailers.value)), Unary(None, None))
    else (Ended, b.(data := None))
  }

  /** `is_end_stream`: nothing is left to take. */
  predicate UnaryIsOver(b: Unary) { b.data.None? && b.trailers.None? }

  class GrpcBody {
    var data: Option<seq<Byte>>
    var trailers: Option<Headers>

    ghost function State(): (s: Unary)
      reads this
    {
      Unary(data, trailers)
    }

    constructor WithStatus(bytes: seq<Byte>, status: Headers)
      ensures State() == Unary(Some(bytes), Some(status))
    {
      data, trailers := Some(bytes), Some(status);
    }

    constructor Error(status: Headers)
      ensures State() == Unary(None, Some(status))
    {
      data, trailers := None, Some(status);
    }

    method PollFrame() returns (r: Poll<Frame>)
      modifies this
      ensures (r, State()) == PollUnary(old(State()))
    {
      var taken := data;
      data := None;
      if taken.Some? {
        if taken.value != [] { return Ready(Data(taken.value)); }
      }
      var last := trailers;
      trailers := None;
      if last.Some? { return Ready(Trailers(last.value)); }
      return Ended;
    }

    predicate IsEndStream()
      reads this
      ensures IsEndStream() <==> UnaryIsOver(State())
    {
      data.None? && trailers.None?
    }
  }

  /** `n` polls in a row: all answers, and the body after them. */
  function PollUnaryTimes(b: Unary, n: nat): (r: (seq<Poll<Frame>>, Unary))
    ensures |r.0| == n
  {
    if n == 0 then ([], b)
    else
      var before := PollUnaryTimes(b, n - 1);
      var step := PollUnary(before.1);
      (before.0 + [step.0], step.1)
  }

  /** The frames still to come. */
  function UnaryScript(b: Unary): (fs: seq<Frame>) {
    (if b.data.Some? && b.data.value != [] then [Data(b.data.value)] else []) +
    (if b.trailers.Some? then [Trailers(b.trailers.value)] else [])
  }

  /** Non-empty data first, then the trailers, then the end for ever; nothing is lost or repeated. */
  lemma {:induction false} UnaryEmits(b: Unary, n: nat)
    ensures var fs, r := UnaryScript(b), PollUnaryTimes(b, n);
            && (forall i :: 0 <= i < n ==> r.0[i] == if i < |fs| then Ready(fs[i]) else Ended)
            && UnaryScript(r.1) == if n < |fs| then fs[n..] else []
  {
    hide UnaryScript, PollUnary;
    if n > 0 {
      UnaryEmits(b, n - 1);
      UnaryStep(PollUnaryTimes(b, n - 1).1);
    }
  }

  /** `is_end_stream` is true only when no frame remains. */
  lemma {:induction false} UnaryOver(b: Unary, n: nat)
    requires UnaryIsOver(b)
    ensures forall i :: 0 <= i < n ==> PollUnaryTimes(b, n).0[i].Ended?
  {
    UnaryEmits(b, n);
  }

  lemma {:induction false} UnaryStep(b: Unary)
    ensures var (p, c) := PollUnary(b);
            if UnaryScript(b) == [] then p.Ended? && UnaryScript(c) == []
            else p == Ready(UnaryScript(b)[0]) && UnaryScript(c) == UnaryScript(b)[1..]
  {
  }

  // ---- channels ----

  /** A bounded-buffer channel seen by its receiver: what is queued, and whether the sender is gone. */
  datatype Channel<T> = Channel(queue: seq<T>, closed: bool)

  function Recv<T>(c: Channel<T>): (r: (Poll<T>, Channel<T>)) {
    if c.queue != [] then (Ready(c.queue[0]), c.(queue := c.queue[1..]))
    else (if c.closed then Ended else Pending, c)
  }

  /** What happens next: the sender sends or goes away, or the body is polled. */
  datatype Event<T> = Sent(item: T) | Dropped | Polled

  // ---- streaming bodies ----

  /** A data frame, or the final status, already rendered as trailers. */
  datatype Item = DataItem(data: seq<Byte>) | StatusItem(trailers: Headers)

  /** `StreamingResponseBody`; `fallback` is what an unfinished stream ends with. */
  datatype Stream = Stream(receiver: Channel<Item>, done: bool, fallback: Headers)

  function PollStream(b: Stream): (r: (Poll<Frame>, Stream)) {
    if b.done then (Ended, b)
    else
      var (p, rest) := Recv(b.receiver);
      match p
      case Ready(item) =>
        if item.DataItem? then (Ready(Data(item.data)), b.(receiver := rest))
        else (Ready(Trailers(item.trailers)), b.(receiver := rest, done := true))
      case Ended => (Ready(Trailers(b.fallback)), b.(receiver := rest, done := true))
      case Pending => (Pending, b)
  }

  /** `is_end_stream`: the trailers are out. */
  predicate StreamIsOver(b: Stream) { b.done }

  class StreamingResponseBody {
    var receiver: Channel<Item>
    var done: bool
    const fallback: Headers

    ghost function State(): (s: Stream)
      reads this
    {
      Stream(receiver, done, fallback)
    }

    constructor (channel: Channel<Item>, ok: Headers)
      ensures State() == Stream(channel, false, ok)
    {
      receiver, done, fallback := channel, false, ok;
    }

    method PollFrame() returns (r: Poll<Frame>)
      modifies this
      ensures (r, State()) == PollStream(old(State()))
    {
      if done { return Ended; }
      var (p, rest) := Recv(receiver);
      receiver := rest;
      match p {
        case Ready(item) =>
          if item.DataItem? { return Ready(Data(item.data)); }
          done := true;
          return Ready(Trailers(item.trailers));
        case Ended =>
          done := true;
          return Ready(Trailers(fallback));
        case Pending => return Pending;
      }
    }

    predicate IsEndStream()
      reads this
      ensures IsEndStream() <==> StreamIsOver(State())
    {
      done
    }
  }

  /** `GrpcStreamBody` carries bytes only and a status fixed in advance. */
  class GrpcStreamBody {
    var receiver: Channel<seq<Byte>>
    var done: bool
    const status: Headers

    /** The same machine with every item a data frame and the status as its only ending. */
    ghost function State(): (s: Stream)
      reads this
    {
      Stream(Channel(AsItems(receiver.queue), receiver.closed), done, status)
    }

    constructor (channel: Channel<seq<Byte>>, trailers: Headers)
      ensures State() == Stream(Channel(AsItems(channel.queue), channel.closed), false, trailers)
    {
      receiver, done, status := channel, false, trailers;
    }

    method PollFrame() returns (r: Poll<Frame>)
      modifies this
      ensures (r, State()) == PollStream(old(State()))
    {
      if done { return Ended; }
      var (p, rest) := Recv(receiver);
      assert p.Ready? ==> AsItems(rest.queue) == AsItems(receiver.queue)[1..];
      receiver := rest;
      match p {
        case Ready(d) => return Ready(Data(d));
        case Ended =>
          done := true;
          return Ready(Trailers(status));
        case Pending => return Pending;
      }
    }

    predicate IsEndStream()
      reads this
      ensures IsEndStream() <==> StreamIsOver(State())
    {
      done
    }
  }

  function AsItems(queue: seq<seq<Byte>>): (items: seq<Item>)
    ensures |items| == |queue|
    ensures forall i :: 0 <= i < |queue| ==> items[i] == DataItem(queue[i])
  {
    seq(|queue|, i requires 0 <= i < |queue| => DataItem(queue[i]))
  }

  /** A run of the body: every answer, the body now, everything ever sent to it, and how much of it was taken. */
  datatype Run = Run(answers: seq<Poll<Frame>>, body: Stream, sent: seq<Item>, taken: nat)

  /** A sender that is gone sends nothing more. */
  function Happen(r: Run, e: Event<Item>): (s: Run) {
    match e
    case Sent(item) =>
      if r.body.receiver.closed then r
      else r.(sent := r.sent + [item],
              body := r.body.(receiver := r.body.receiver.(queue := r.body.receiver.queue + [item])))
    case Dropped => r.(body := r.body.(receiver := r.body.receiver.(closed := true)))
    case Polled =>
      var (p, b) := PollStream(r.body);
      r.(answers := r.answers + [p], body := b,
         taken := if !r.body.done && r.body.receiver.queue != [] then r.taken + 1 else r.taken)
  }

  function HappenAll(r: Run, events: seq<Event<Item>>): (s: Run)
    decreases |events|
  {
    if events == [] then r else HappenAll(Happen(r, events[0]), events[1..])
  }

  function NewStream(ok: Headers): (r: Run) { Run([], Stream(Channel([], false), false, ok), [], 0) }

  /** Data items up to the first status. */
  function DataPart(items: seq<Item>): (fs: seq<Frame>) {
    if items == [] || items[0].StatusItem? then [] else [Data(items[0].data)] + DataPart(items[1..])
  }

  /** The first status among the items. */
  function FirstStatus(items: seq<Item>): (t: Option<Headers>) {
    if items == [] then None else if items[0].StatusItem? then Some(items[0].trailers) else FirstStatus(items[1..])
  }

  predicate AllData(items: seq<Item>) { forall i :: 0 <= i < |items| ==> items[i].DataItem? }

  /** The items taken so far are the front of what was sent, and the queue is the rest. */
  ghost predicate StreamInv(r: Run) {
    && r.taken <= |r.sent| && r.body.receiver.queue == r.sent[r.taken..]
    && if !r.body.done then AllData(r.sent[..r.taken]) && Frames(r.answers) == DataPart(r.sent[..r.taken])
       else EndedInv(r)
  }

  /** The last frame was the trailers: of the status taken last, or the fallback of a closed, drained channel. */
  ghost predicate EndedInv(r: Run)
    requires r.taken <= |r.sent|
  {
    if r.taken > 0 && r.sent[r.taken - 1].StatusItem? then
      && AllData(r.sent[..r.taken - 1])
      && Frames(r.answers) == DataPart(r.sent[..r.taken - 1]) + [Trailers(r.sent[r.taken - 1].trailers)]
    else
      && r.taken == |r.sent| && r.body.receiver.closed && AllData(r.sent)
      && Frames(r.answers) == DataPart(r.sent) + [Trailers(r.body.fallback)]
  }

  lemma {:induction false} DataPartSnoc(items: seq<Item>, item: Item)
    requires AllData(items)
    ensures DataPart(items + [item]) == DataPart(items) + (if item.DataItem? then [Data(item.data)] else [])
  {
    if items == [] {
      assert ([] + [item])[1..] == [];
    } else {
      assert (items + [item])[1..] == items[1..] + [item];
      DataPartSnoc(items[1..], item);
    }
  }

  lemma {:induction false} PollKeeps(r: Run)
    requires StreamInv(r)
    ensures StreamInv(Happen(r, Polled))
  {
    hide DataPart, Frames;
    var s := Happen(r, Polled);
    FramesSnoc(r.answers, PollStream(r.body).0);
    if !r.body.done {
      if r.body.receiver.queue == [] {
        assert r.sent[..r.taken] == r.sent;
      } else {
        assert r.sent[..r.taken + 1] == r.sent[..r.taken] + [r.sent[r.taken]];
        DataPartSnoc(r.sent[..r.taken], r.sent[r.taken]);
      }
    }
  }

  lemma {:induction false} SendKeeps(r: Run, item: Item)
    requires StreamInv(r)
    ensures StreamInv(Happen(r, Sent(item))) && StreamInv(Happen(r, Dropped))
  {
    hide DataPart, Frames;
    var s := Happen(r, Sent(item));
    if !r.body.receiver.closed {
      assert s.sent[..r.taken] == r.sent[..r.taken] && s.sent[r.taken..] == r.sent[r.taken..] + [item];
      if r.taken > 0 { assert s.sent[..r.taken - 1] == r.sent[..r.taken - 1]; }
    }
  }

  lemma {:induction false} RunKeeps(r: Run, events: seq<Event<Item>>)
    requires StreamInv(r)
    ensures StreamInv(HappenAll(r, events))
    ensures HappenAll(r, events).body.fallback == r.body.fallback
    decreases |events|
  {
    hide StreamInv;
    if events != [] {
      match events[0] {
        case Polled => PollKeeps(r);
        case Sent(item) => SendKeeps(r, item);
        case Dropped => SendKeeps(r, StatusItem(map[]));
      }
      RunKeeps(Happen(r, events[0]), events[1..]);
    }
  }

  lemma {:induction false} DataPartSplits(a: seq<Item>, b: seq<Item>)
    requires AllData(a)
    ensures DataPart(a + b) == DataPart(a) + DataPart(b) && FirstStatus(a + b) == FirstStatus(b)
  {
    if a == [] {
      assert a + b == b;
    } else {
      assert (a + b)[1..] == a[1..] + b;
      DataPartSplits(a[1..], b);
    }
  }

  lemma {:induction false} NoTrailersInData(items: seq<Item>)
    ensures forall i :: 0 <= i < |DataPart(items)| ==> DataPart(items)[i].Data?
  {
    if items != [] { NoTrailersInData(items[1..]); }
  }

  /** Everything sent before the first status, in order, then one trailers frame. */
  function FullScript(items: seq<Item>, fallback: Headers): (fs: seq<Frame>) {
    DataPart(items) + [Trailers(if FirstStatus(items).Some? then FirstStatus(items).value else fallback)]
  }

  lemma {:induction false} Rejoin<T>(s: seq<T>, k: nat)
    requires k <= |s|
    ensures s[..k] + s[k..] == s
  {
  }

  lemma {:induction false} EndedScript(r: Run)
    requires StreamInv(r) && r.body.done
    ensures Frames(r.answers) == FullScript(r.sent, r.body.fallback)
  {
    if r.taken > 0 && r.sent[r.taken - 1].StatusItem? {
      var a, b := r.sent[..r.taken - 1], r.sent[r.taken - 1..];
      Rejoin(r.sent, r.taken - 1);
      DataPartSplits(a, b);
      assert DataPart(a) + [] == DataPart(a);
    } else {
      DataPartSplits(r.sent, []);
      assert r.sent + [] == r.sent;
    }
  }

  lemma {:induction false} OpenScript(r: Run)
    requires StreamInv(r) && !r.body.done
    ensures Frames(r.answers) < FullScript(r.sent, r.body.fallback)
    ensures forall i :: 0 <= i < |Frames(r.answers)| ==> Frames(r.answers)[i].Data?
  {
    var a, b := r.sent[..r.taken], r.sent[r.taken..];
    Rejoin(r.sent, r.taken);
    DataPartSplits(a, b);
    NoTrailersInData(a);
  }

  /**
    Every interleaving of sends, a drop and polls: the frames emitted are a front of "the data sent
    before the first status, in order, then exactly one trailers frame"; the body reports the end
    exactly when that whole script is out, and from then on every poll answers the end.
  */
  lemma {:induction false} StreamEmits(ok: Headers, events: seq<Event<Item>>)
    ensures var r := HappenAll(NewStream(ok), events);
            && Frames(r.answers) <= FullScript(r.sent, ok)
            && (StreamIsOver(r.body) <==> Frames(r.answers) == FullScript(r.sent, ok))
            && (!StreamIsOver(r.body) ==> forall i :: 0 <= i < |Frames(r.answers)| ==> Frames(r.answers)[i].Data?)
            && (StreamIsOver(r.body) ==> PollStream(r.body) == (Ended, r.body))
  {
    hide StreamInv, Frames, FullScript;
    var r := HappenAll(NewStream(ok), events);
    StartsRight(ok);
    RunKeeps(NewStream(ok), events);
    if r.body.done { EndedScript(r); } else { OpenScript(r); }
  }

  lemma {:induction false} StartsRight(ok: Headers)
    ensures StreamInv(NewStream(ok))
  {
  }

  /** A poll waits only when everything sent has been taken and the sender is still there. */
  lemma {:induction false} StreamWaits(ok: Headers, events: seq<Event<Item>>)
    ensures var r := HappenAll(NewStream(ok), events);
            PollStream(r.body).0.Pending? <==> !StreamIsOver(r.body) && r.taken == |r.sent| && !r.body.receiver.closed
  {
    StartsRight(ok);
    RunKeeps(NewStream(ok), events);
  }

  // ---- an extra header on the trailers of any body ----

  /** Any body, known by its answers: the `i`-th poll gives `answer(i)`; `over(i)` is `is_end_stream` before it. */
  datatype Inner = Inner(answer: nat -> Poll<Frame>, over: nat -> bool)

  /** Once it has ended it stays ended. */
  ghost predicate Fused(b: Inner) {
    forall i: nat, j: nat :: i <= j && b.answer(i).Ended? ==> b.answer(j).Ended?
  }

  datatype Wrapper = Wrapper(polls: nat, extra: Option<seq<Byte>>, sent: bool)

  /** `WithExtraTrailers::poll_frame`. */
  function PollWrapped(b: Inner, name: string, w: Wrapper): (r: (Poll<Frame>, Wrapper)) {
    var next := w.(polls := w.polls + 1);
    match b.answer(w.polls)
    case Pending => (Pending, next)
    case Ready(Data(d)) => (Ready(Data(d)), next)
    case Ready(Trailers(h)) =>
      if w.sent then (Ready(Trailers(h)), next)
      else (Ready(Trailers(if w.extra.Some? then h[name := w.extra.value] else h)), next.(extra := None, sent := true))
    case Ended =>
      if w.sent then (Ended, next)
      else if w.extra.Some? then (Ready(Trailers(map[name := w.extra.value])), next.(extra := None, sent := true))
      else (Ended, next.(sent := true))
  }

  /** `is_end_stream`: the inner body says so, and the header has gone out. */
  predicate WrapperIsOver(b: Inner, w: Wrapper) { b.over(w.polls) && w.sent }

  class WithExtraTrailers {
    const inner: Inner
    const extraName: string
    var polls: nat
    var extra: Option<seq<Byte>>
    var sentExtra: bool

    ghost function State(): (w: Wrapper)
      reads this
    {
      Wrapper(polls, extra, sentExtra)
    }

    constructor (body: Inner, name: string, value: Option<seq<Byte>>)
      ensures inner == body && extraName == name && State() == Wrapper(0, value, false)
    {
      inner, extraName := body, name;
      polls, extra, sentExtra := 0, value, false;
    }

    method PollFrame() returns (r: Poll<Frame>)
      modifies this
      ensures (r, State()) == PollWrapped(inner, extraName, old(State()))
    {
      var a := inner.answer(polls);
      polls := polls + 1;
      if a.Ready? {
        if a.item.Data? { return a; }
        var trailers := a.item.headers;
        if !sentExtra {
          var v := extra;
          extra := None;
          if v.Some? { trailers := trailers[extraName := v.value]; }
          sentExtra := true;
        }
        return Ready(Trailers(trailers));
      }
      if a.Ended? {
        if !sentExtra {
          var v := extra;
          extra := None;
          if v.Some? {
            sentExtra := true;
            return Ready(Trailers(map[extraName := v.value]));
          }
          sentExtra := true;
        }
        return Ended;
      }
      return Pending;
    }

    predicate IsEndStream()
      reads this
      ensures IsEndStream() <==> WrapperIsOver(inner, State())
    {
      inner.over(polls) && sentExtra
    }
  }

  /** The wrapper's first `n` answers, and its state after them. */
  function Wrapped(b: Inner, name: string, value: Option<seq<Byte>>, n: nat): (r: (seq<Poll<Frame>>, Wrapper))
    ensures |r.0| == n
  {
    if n == 0 then ([], Wrapper(0, value, false))
    else
      var before := Wrapped(b, name, value, n - 1);
      var step := PollWrapped(b, name, before.1);
      (before.0 + [step.0], step.1)
  }

  /** The inner body's first `n` answers. */
  function Answers(b: Inner, n: nat): (answers: seq<Poll<Frame>>)
    ensures |answers| == n
  {
    seq(n, i requires 0 <= i < n => b.answer(i))
  }

  function FirstTrailers(fs: seq<Frame>): (i: nat)
    ensures i <= |fs| && (i < |fs| ==> fs[i].Trailers?)
    ensures forall j :: 0 <= j < i ==> fs[j].Data?
  {
    if fs == [] || fs[0].Trailers? then 0 else 1 + FirstTrailers(fs[1..])
  }

  /** The frames with the header added to the first trailers, or in a trailers frame of its own at the end. */
  function AddExtra(fs: seq<Frame>, ended: bool, name: string, value: Option<seq<Byte>>): (r: seq<Frame>) {
    var i := FirstTrailers(fs);
    if value.None? then fs
    else if i < |fs| then fs[i := Trailers(fs[i].headers[name := value.value])]
    else if ended then fs + [Trailers(map[name := value.value])]
    else fs
  }

  predicate EndsWithin(b: Inner, n: nat) { exists i :: 0 <= i < n && b.answer(i).Ended? }

  lemma {:induction false} AnswersSnoc(b: Inner, n: nat)
    ensures Answers(b, n + 1) == Answers(b, n) + [b.answer(n)]
  {
  }

  lemma {:induction false} FirstTrailersSnoc(fs: seq<Frame>, f: Frame)
    ensures FirstTrailers(fs + [f])
         == if FirstTrailers(fs) < |fs| then FirstTrailers(fs) else if f.Trailers? then |fs| else |fs| + 1
  {
    var i, j := FirstTrailers(fs), FirstTrailers(fs + [f]);
    assert forall k :: 0 <= k < |fs| ==> (fs + [f])[k] == fs[k];
    assert (fs + [f])[|fs|] == f;
  }

  /** The header has gone out, or the place for it has passed. */
  ghost predicate WrapInv(b: Inner, value: Option<seq<Byte>>, n: nat, fs: seq<Frame>, w: Wrapper) {
    && w.polls == n && (w.extra == if w.sent then None else value)
    && (w.sent <==> FirstTrailers(fs) < |fs| || EndsWithin(b, n))
  }

  /**
    For any fused inner body: the same frames in the same order, with the header added to the first
    trailers frame; an inner body that ends without trailers gets one trailers frame of its own.
  */
  lemma {:induction false} ExtraOnce(b: Inner, name: string, value: Option<seq<Byte>>, n: nat)
    requires Fused(b)
    ensures var fs, r := Frames(Answers(b, n)), Wrapped(b, name, value, n);
            && Frames(r.0) == AddExtra(fs, EndsWithin(b, n), name, value)
            && WrapInv(b, value, n, fs, r.1)
  {
    hide Fused, FirstTrailers, AddExtra, PollWrapped;
    if n == 0 {
      NothingYet(b, name, value);
    } else {
      ExtraOnce(b, name, value, n - 1);
      var before, fs := Wrapped(b, name, value, n - 1), Frames(Answers(b, n - 1));
      var step := PollWrapped(b, name, before.1);
      AnswersSnoc(b, n - 1);
      FramesSnoc(Answers(b, n - 1), b.answer(n - 1));
      FramesSnoc(before.0, step.0);
      WrapStep(b, name, value, n - 1, fs, before.1);
    }
  }

  /** No trailers and no end among the first `n` answers: a header is still to go out. */
  predicate StillToGo(b: Inner, n: nat) {
    forall i :: 0 <= i < n ==> !b.answer(i).Ended? && !(b.answer(i).Ready? && b.answer(i).item.Trailers?)
  }

  /**
    Answer by answer, for any inner body: waiting is passed on, data is passed on, the header joins the first
    trailers or the first end, and every other end is an end.
  */
  lemma {:induction false} WrappedAt(b: Inner, name: string, value: Option<seq<Byte>>, n: nat)
    ensures var w, out := Wrapped(b, name, value, n).1, Wrapped(b, name, value, n + 1).0[n];
            && w.polls == n && (w.sent <==> !StillToGo(b, n)) && w.extra == (if StillToGo(b, n) then value else None)
            && out == match b.answer(n)
                      case Pending => Pending
                      case Ready(Data(d)) => Ready(Data(d))
                      case Ready(Trailers(h)) =>
                        Ready(Trailers(if StillToGo(b, n) && value.Some? then h[name := value.value] else h))
                      case Ended =>
                        if StillToGo(b, n) && value.Some? then Ready(Trailers(map[name := value.value])) else Ended
  {
    if n > 0 { WrappedAt(b, name, value, n - 1); }
  }

  /** Over a fused body the wrapper is fused: once it has ended it answers the end for ever. */
  lemma {:induction false} WrapperFused(b: Inner, name: string, value: Option<seq<Byte>>, i: nat, j: nat)
    requires Fused(b) && i <= j && Wrapped(b, name, value, i + 1).0[i].Ended?
    ensures Wrapped(b, name, value, j + 1).0[j].Ended?
  {
    hide Wrapped;
    WrappedAt(b, name, value, i);
    WrappedAt(b, name, value, j);
    assert b.answer(i).Ended? && b.answer(j).Ended?;
  }

  /** Data then one trailers frame stays data then one trailers frame, with the header in it. */
  lemma {:induction false} ExtraKeepsShape(b: Inner, name: string, value: seq<Byte>, n: nat, ds: seq<Frame>, h: Headers)
    requires Fused(b) && Frames(Answers(b, n)) == ds + [Trailers(h)]
    requires forall i :: 0 <= i < |ds| ==> ds[i].Data?
    ensures Frames(Wrapped(b, name, Some(value), n).0) == ds + [Trailers(h[name := value])]
  {
    hide Fused, Frames;
    ExtraOnce(b, name, Some(value), n);
    var fs := ds + [Trailers(h)];
    assert fs[|ds|].Trailers? && forall i :: 0 <= i < |ds| ==> fs[i] == ds[i];
    assert FirstTrailers(fs) == |ds|;
    assert fs[|ds| := Trailers(h[name := value])] == ds + [Trailers(h[name := value])];
  }

  lemma {:induction false} NothingYet(b: Inner, name: string, value: Option<seq<Byte>>)
    ensures Frames(Answers(b, 0)) == [] && AddExtra([], EndsWithin(b, 0), name, value) == []
    ensures FirstTrailers([]) == 0 && !EndsWithin(b, 0)
  {
  }

  function FrameOf(p: Poll<Frame>): (fs: seq<Frame>) { if p.Ready? then [p.item] else [] }

  lemma {:induction false} WrapStep(b: Inner, name: string, value: Option<seq<Byte>>, n: nat, fs: seq<Frame>, w: Wrapper)
    requires Fused(b) && WrapInv(b, value, n, fs, w)
    ensures var fs2, step := fs + FrameOf(b.answer(n)), PollWrapped(b, name, w);
            && AddExtra(fs, EndsWithin(b, n), name, value) + FrameOf(step.0)
               == AddExtra(fs2, EndsWithin(b, n + 1), name, value)
            && WrapInv(b, value, n + 1, fs2, step.1)
  {
    hide FirstTrailers;
    var a := b.answer(n);
    if a.Ready? {
      FirstTrailersSnoc(fs, a.item);
    } else {
      assert fs + [] == fs;
    }
  }

  /** The wrapper stays fused, and with an honest inner body never reports the end too early. */
  lemma {:induction false} WrappedEnd(b: Inner, name: string, value: Option<seq<Byte>>, n: nat, m: nat)
    requires Fused(b) && n <= m
    requires forall i: nat, j: nat :: b.over(i) && i <= j ==> !b.answer(j).Ready?
    ensures var w := Wrapped(b, name, value, n).1;
            WrapperIsOver(b, w) ==> !PollWrapped(b, name, Wrapped(b, name, value, m).1).0.Ready?
  {
    hide FirstTrailers, PollWrapped;
    ExtraOnce(b, name, value, n);
    ExtraOnce(b, name, value, m);
    SentStays(b, name, value, n, m);
    SentPasses(b, name, Wrapped(b, name, value, m).1);
  }

  lemma {:induction false} SentPasses(b: Inner, name: string, w: Wrapper)
    ensures w.sent && !b.answer(w.polls).Ready? ==> !PollWrapped(b, name, w).0.Ready?
  {
  }

  lemma {:induction false} SentStays(b: Inner, name: string, value: Option<seq<Byte>>, n: nat, m: nat)
    requires n <= m
    ensures Wrapped(b, name, value, n).1.sent ==> Wrapped(b, name, value, m).1.sent
    decreases m
  {
    if n < m { SentStays(b, name, value, n, m - 1); }
  }
}
