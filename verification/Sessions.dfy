/** Session types, and dual peers over FIFO queues. */
module Sessions {
  // Source: typeway-core/src/session.rs, typeway-server/src/typed_ws.rs

  import opened Bytes

  // ---- session types ----

  datatype Session =
    | Send(ty: string, next: Session)
    | Recv(ty: string, next: Session)
    | Offer(left: Session, right: Session)
    | Select(left: Session, right: Session)
    | End
    | Rec(body: Session)
    | Var

  /** The protocol seen from the other side. */
  function Dual(s: Session): (d: Session) {
    match s
    case Send(t, n) => Recv(t, Dual(n))
    case Recv(t, n) => Send(t, Dual(n))
    case Offer(l, r) => Select(Dual(l), Dual(r))
    case Select(l, r) => Offer(Dual(l), Dual(r))
    case End => End
    case Rec(b) => Rec(Dual(b))
    case Var => Var
  }

  lemma {:induction false} DualInvolution(s: Session)
    ensures Dual(Dual(s)) == s
  {
    match s
    case Send(_, n) => DualInvolution(n);
    case Recv(_, n) => DualInvolution(n);
    case Offer(l, r) => DualInvolution(l); DualInvolution(r);
    case Select(l, r) => DualInvolution(l); DualInvolution(r);
    case End =>
    case Rec(b) => DualInvolution(b);
    case Var =>
  }

  /** `s` with its free `Var` replaced; a nested `Rec` binds its own. */
  function Subst(s: Session, r: Session): (t: Session) {
    match s
    case Send(t, n) => Send(t, Subst(n, r))
    case Recv(t, n) => Recv(t, Subst(n, r))
    case Offer(a, b) => Offer(Subst(a, r), Subst(b, r))
    case Select(a, b) => Select(Subst(a, r), Subst(b, r))
    case End => End
    case Rec(b) => Rec(b)
    case Var => r
  }

  /** One turn of a recursive protocol written out. */
  function Unfold(s: Session): (t: Session)
    requires s.Rec?
  {
    Subst(s.body, s)
  }

  lemma {:induction false} DualSubst(s: Session, r: Session)
    ensures Dual(Subst(s, r)) == Subst(Dual(s), Dual(r))
  {
    match s
    case Send(_, n) => DualSubst(n, r);
    case Recv(_, n) => DualSubst(n, r);
    case Offer(a, b) => DualSubst(a, r); DualSubst(b, r);
    case Select(a, b) => DualSubst(a, r); DualSubst(b, r);
    case End =>
    case Rec(_) =>
    case Var =>
  }

  /** The dual of an unfolding is the unfolding of the dual. */
  lemma {:induction false} DualUnfold(s: Session)
    requires s.Rec?
    ensures Dual(Unfold(s)) == Unfold(Dual(s))
  {
    DualSubst(s.body, s);
  }

  // ---- well-formed protocols ----

  /** A body that communicates or ends before it loops. */
  predicate Guarded(b: Session) {
    match b
    case Var => false
    case Rec(c) => Guarded(c)
    case _ => true
  }

  /** Every `Var` has an enclosing `Rec`, and every `Rec` a guarded body. */
  predicate Closed(s: Session, bound: bool) {
    match s
    case Send(_, n) => Closed(n, bound)
    case Recv(_, n) => Closed(n, bound)
    case Offer(l, r) => Closed(l, bound) && Closed(r, bound)
    case Select(l, r) => Closed(l, bound) && Closed(r, bound)
    case End => true
    case Rec(b) => Guarded(b) && Closed(b, true)
    case Var => bound
  }

  lemma {:induction false} DualGuarded(b: Session)
    ensures Guarded(Dual(b)) <==> Guarded(b)
  {
    if b.Rec? { DualGuarded(b.body); }
  }

  lemma {:induction false} DualClosed(s: Session, bound: bool)
    ensures Closed(Dual(s), bound) <==> Closed(s, bound)
  {
    match s
    case Send(_, n) => DualClosed(n, bound);
    case Recv(_, n) => DualClosed(n, bound);
    case Offer(l, r) => DualClosed(l, bound); DualClosed(r, bound);
    case Select(l, r) => DualClosed(l, bound); DualClosed(r, bound);
    case End =>
    case Rec(b) => DualClosed(b, true); DualGuarded(b);
    case Var =>
  }

  // ---- one endpoint ----

  /** A channel at a protocol state, with the body of the `Rec` it entered last; or one that failed. */
  datatype Peer = Live(at: Session, env: Option<Session>) | Broken

  ghost predicate Sound(p: Peer) {
    && p.Live? && Closed(p.at, p.env.Some?)
    && (p.env.Some? ==> Guarded(p.env.value) && Closed(p.env.value, true))
  }

  /** Text frames on the wire: a serialised message, or a branch selection. */
  datatype Frame = Data(ty: string, text: string) | Choice(left: bool)

  function FrameText(f: Frame): (s: string) {
    match f
    case Data(_, text) => text
    case Choice(left) => if left then "{\"branch\":\"L\"}" else "{\"branch\":\"R\"}"
  }

  predicate Contains(s: string, t: string) {
    |s| >= |t| && (s[..|t|] == t || (s != [] && Contains(s[1..], t)))
  }

  /** The test `offer` makes: anything that does not say left is taken as right. */
  predicate SaysLeft(f: Frame) {
    Contains(FrameText(f), "\"branch\":\"L\"") || Contains(FrameText(f), "\"branch\":\"left\"")
  }

  /** `recv` and `offer` on the next frame. */
  function Take(p: Peer, f: Frame): (q: Peer)
    requires p.Live? && (p.at.Recv? || p.at.Offer?)
  {
    match p.at
    case Recv(t, n) => if f.Data? && f.ty == t then Live(n, p.env) else Broken
    case Offer(l, r) => if SaysLeft(f) then Live(l, p.env) else Live(r, p.env)
  }

  /** `enter` and `recurse`. */
  function Step(p: Peer): (q: Peer)
    requires p.Live? && (p.at.Rec? || p.at.Var?)
  {
    match p.at
    case Rec(b) => Live(b, Some(b))
    case Var => if p.env.Some? then Live(Rec(p.env.value), p.env) else Broken
  }

  /** How many `enter` and `recurse` calls come before the next communication. */
  function Delay(p: Peer): (n: nat)
    requires p.Live?
  {
    match p.at
    case Rec(b) => 1 + Layers(b)
    case Var => if p.env.Some? then 2 + Layers(p.env.value) else 0
    case _ => 0
  }

  function Layers(s: Session): (n: nat) { if s.Rec? then 1 + Layers(s.body) else 0 }

  /** The endpoint once it has made them. */
  function Settle(p: Peer): (q: Peer)
    requires p.Live?
  {
    match p.at
    case Rec(b) => Enter(b, Some(b))
    case Var => if p.env.Some? then Enter(p.env.value, p.env) else p
    case _ => p
  }

  function Enter(s: Session, env: Option<Session>): (q: Peer)
    ensures q.Live?
    decreases s
  {
    if s.Rec? then Enter(s.body, Some(s.body)) else Live(s, env)
  }

  lemma {:induction false} EnterSound(s: Session, env: Option<Session>)
    requires Sound(Live(s, env)) && Guarded(s)
    ensures Sound(Enter(s, env)) && !Enter(s, env).at.Rec? && !Enter(s, env).at.Var?
    decreases s
  {
    if s.Rec? { EnterSound(s.body, Some(s.body)); }
  }

  lemma {:induction false} SettleSound(p: Peer)
    requires Sound(p)
    ensures Sound(Settle(p)) && !Settle(p).at.Rec? && !Settle(p).at.Var?
  {
    match p.at
    case Rec(b) => EnterSound(b, Some(b));
    case Var => EnterSound(p.env.value, p.env);
    case _ =>
  }

  /** Every silent step brings the next communication one nearer, and leads to the same place. */
  lemma {:induction false} StepSettles(p: Peer)
    requires Sound(p) && (p.at.Rec? || p.at.Var?)
    ensures Sound(Step(p)) && Settle(Step(p)) == Settle(p) && Delay(Step(p)) + 1 == Delay(p)
  {
  }

  // ---- the mirror of an endpoint ----

  function DualEnv(e: Option<Session>): (d: Option<Session>) { if e.Some? then Some(Dual(e.value)) else None }

  function Mirror(p: Peer): (q: Peer)
    requires p.Live?
  {
    Live(Dual(p.at), DualEnv(p.env))
  }

  lemma {:induction false} MirrorTwice(p: Peer)
    requires p.Live?
    ensures Mirror(Mirror(p)) == p
  {
    DualInvolution(p.at);
    if p.env.Some? { DualInvolution(p.env.value); }
  }

  lemma {:induction false} EnterMirrors(s: Session, env: Option<Session>)
    ensures Enter(Dual(s), DualEnv(env)) == Mirror(Enter(s, env))
    decreases s
  {
    if s.Rec? { EnterMirrors(s.body, Some(s.body)); }
  }

  lemma {:induction false} SettleMirrors(p: Peer)
    requires p.Live?
    ensures Settle(Mirror(p)) == Mirror(Settle(p))
  {
    match p.at
    case Rec(b) => EnterMirrors(b, Some(b));
    case Var => if p.env.Some? { EnterMirrors(p.env.value, p.env); }
    case _ =>
  }

  // ---- two endpoints and two queues ----

  /** Two peers; `ab` holds what `a` sent and `b` has not received, `ba` the other way. */
  datatype Config = Config(a: Peer, b: Peer, ab: seq<Frame>, ba: seq<Frame>)

  /** What one peer does next; `Put` carries a serialised message. */
  datatype Move = Silent | Put(text: string) | Choose(left: bool) | Get

  datatype Side = A | B

  function Flip(c: Config): (d: Config) { Config(c.b, c.a, c.ba, c.ab) }

  /** Can peer `a` make this move? */
  predicate CanMove(c: Config, m: Move) {
    c.a.Live? &&
    match m
    case Silent => c.a.at.Rec? || c.a.at.Var?
    case Put(_) => c.a.at.Send?
    case Choose(_) => c.a.at.Select?
    case Get => (c.a.at.Recv? || c.a.at.Offer?) && c.ba != []
  }

  /** Peer `a` moves. */
  function MoveA(c: Config, m: Move): (d: Config)
    requires CanMove(c, m)
  {
    match m
    case Silent => c.(a := Step(c.a))
    case Put(text) => c.(a := Live(c.a.at.next, c.a.env), ab := c.ab + [Data(c.a.at.ty, text)])
    case Choose(left) =>
      c.(a := Live(if left then c.a.at.left else c.a.at.right, c.a.env), ab := c.ab + [Choice(left)])
    case Get => c.(a := Take(c.a, c.ba[0]), ba := c.ba[1..])
  }

  predicate Enabled(c: Config, side: Side, m: Move) { if side.A? then CanMove(c, m) else CanMove(Flip(c), m) }

  function Next(c: Config, side: Side, m: Move): (d: Config)
    requires Enabled(c, side, m)
  {
    if side.A? then MoveA(c, m) else Flip(MoveA(Flip(c), m))
  }

  /** `c` is reached from `start` by some interleaving of enabled moves. */
  ghost predicate Reaches(start: Config, moves: seq<(Side, Move)>, c: Config)
    decreases |moves|
  {
    if moves == [] then start == c
    else
      var (side, m) := moves[0];
      Enabled(start, side, m) && Reaches(Next(start, side, m), moves[1..], c)
  }

  function Start(s: Session): (c: Config) { Config(Live(s, None), Live(Dual(s), None), [], []) }

  // ---- the invariant ----

  /** Receiving exactly what is expected. */
  function Accept(p: Peer, f: Frame): (q: Option<Peer>) {
    if !p.Live? then None
    else if p.at.Recv? && f.Data? && f.ty == p.at.ty then Some(Live(p.at.next, p.env))
    else if p.at.Offer? && f.Choice? then Some(Live(if f.left then p.at.left else p.at.right, p.env))
    else None
  }

  /** The receiver after a whole queue of expected frames. */
  function Drain(p: Peer, q: seq<Frame>): (r: Option<Peer>)
    ensures r.Some? && p.Live? ==> r.value.Live?
    decreases |q|
  {
    if q == [] then Some(p)
    else if !p.Live? then None
    else
      match Accept(Settle(p), q[0])
      case None => None
      case Some(n) => Drain(n, q[1..])
  }

  /** Draining the queue puts the receiver exactly opposite the sender. */
  ghost predicate Opposite(receiver: Peer, q: seq<Frame>, sender: Peer) {
    && Sound(receiver) && Sound(sender)
    && Drain(receiver, q).Some?
    && Settle(Drain(receiver, q).value) == Mirror(Settle(sender))
  }

  ghost predicate Inv(c: Config) {
    (c.ba == [] && Opposite(c.b, c.ab, c.a)) || (c.ab == [] && Opposite(c.a, c.ba, c.b))
  }

  lemma {:induction false} AcceptIsTake(p: Peer, f: Frame)
    requires Accept(p, f).Some?
    ensures Take(p, f) == Accept(p, f).value
  {
    var l, r := "{\"branch\":\"L\"}", "{\"branch\":\"R\"}";
    if f.Choice? && f.left {
      assert l[1..][..12] == "\"branch\":\"L\"";
      assert Contains(l, "\"branch\":\"L\"");
    }
    if f.Choice? && !f.left { RightIsNotLeft(); }
  }

  /** The text `select_right` sends does not pass the test for left. */
  lemma {:induction false} RightIsNotLeft()
    ensures !SaysLeft(Choice(false))
  {
    hide Contains;
    var r := ['{', '\"', 'b', 'r', 'a', 'n', 'c', 'h', '\"', ':', '\"', 'R', '\"', '}'];
    assert FrameText(Choice(false)) == r;
    assert 'L' !in r && 'l' !in r;
    NotContained(r, "\"branch\":\"L\"", 10, 'L');
    NotContained(r, "\"branch\":\"left\"", 10, 'l');
  }

  lemma {:induction false} NotContained(s: string, t: string, k: nat, c: char)
    requires k < |t| && t[k] == c && c !in s
    ensures !Contains(s, t)
    decreases |s|
  {
    if |s| >= |t| {
      assert s[..|t|][k] == s[k] && s[k] in s;
      NotContained(s[1..], t, k, c);
    }
  }

  lemma {:induction false} DrainSnoc(p: Peer, q: seq<Frame>, f: Frame)
    requires Sound(p) && Drain(p, q).Some?
    ensures Sound(Drain(p, q).value)
    ensures Drain(p, q + [f]) == Accept(Settle(Drain(p, q).value), f)
    decreases |q|
  {
    if q == [] {
      assert ([] + [f])[1..] == [];
    } else {
      assert (q + [f])[1..] == q[1..] + [f];
      SettleSound(p);
      DrainSnoc(Accept(Settle(p), q[0]).value, q[1..], f);
    }
  }

  lemma {:induction false} SettledIdle(p: Peer)
    requires p.Live? && !p.at.Rec? && !p.at.Var?
    ensures Settle(p) == p
  {
  }

  lemma {:induction false} OppositeSwaps(p: Peer, q: Peer)
    requires Opposite(p, [], q)
    ensures Opposite(q, [], p)
  {
    MirrorTwice(Settle(q));
  }

  /** Sending one frame keeps the receiver opposite. */
  lemma {:induction false} SendKeeps(receiver: Peer, q: seq<Frame>, sender: Peer, f: Frame, next: Peer)
    requires Opposite(receiver, q, sender) && Settle(sender) == sender && Sound(next)
    requires Accept(Mirror(sender), f) == Some(Mirror(next))
    ensures Opposite(receiver, q + [f], next)
  {
    hide Settle, Accept, Mirror;
    DrainSnoc(receiver, q, f);
    SettleMirrors(next);
  }

  lemma {:induction false} PutKeeps(c: Config, m: Move)
    requires c.a.Live? && (m.Put? || m.Choose?) && CanMove(c, m) && c.ba == [] && Opposite(c.b, c.ab, c.a)
    ensures Inv(MoveA(c, m))
  {
    hide Settle, Drain, Opposite;
    var d := MoveA(c, m);
    assert Sound(c.a) by { OppositeIsSound(c.b, c.ab, c.a); }
    assert Sound(d.a);
    SettledIdle(c.a);
    SendKeeps(c.b, c.ab, c.a, if m.Put? then Data(c.a.at.ty, m.text) else Choice(m.left), d.a);
  }

  lemma {:induction false} OppositeIsSound(receiver: Peer, q: seq<Frame>, sender: Peer)
    requires Opposite(receiver, q, sender)
    ensures Sound(receiver) && Sound(sender)
  {
  }

  /** With something queued towards a peer, that peer is about to receive. */
  lemma {:induction false} QueuedMeansReceiving(receiver: Peer, q: seq<Frame>, sender: Peer)
    requires Opposite(receiver, q, sender) && q != []
    ensures Accept(Settle(receiver), q[0]).Some?
    ensures Opposite(Accept(Settle(receiver), q[0]).value, q[1..], sender)
  {
    SettleSound(receiver);
  }

  lemma {:induction false} SilentKeeps(c: Config)
    requires Inv(c) && CanMove(c, Silent)
    ensures Inv(MoveA(c, Silent))
  {
    hide Settle, Accept, Mirror;
    StepSettles(c.a);
  }

  lemma {:induction false} GetKeeps(c: Config)
    requires Inv(c) && CanMove(c, Get)
    ensures Inv(MoveA(c, Get)) && Accept(c.a, c.ba[0]) == Some(MoveA(c, Get).a)
  {
    hide Settle, Drain, Opposite, Take;
    QueuedMeansReceiving(c.a, c.ba, c.b);
    SettledIdle(c.a);
    AcceptIsTake(c.a, c.ba[0]);
  }

  lemma {:induction false} MoveKeeps(c: Config, m: Move)
    requires Inv(c) && CanMove(c, m)
    ensures Inv(MoveA(c, m))
  {
    hide Settle, Drain, Opposite, MoveA;
    match m
    case Silent => SilentKeeps(c);
    case Get => GetKeeps(c);
    case _ =>
      SettledIdle(c.a);
      if c.ba != [] {
        QueuedMeansReceiving(c.a, c.ba, c.b);
        assert false;
      }
      if !Opposite(c.b, c.ab, c.a) { OppositeSwaps(c.a, c.b); }
      PutKeeps(c, m);
  }

  lemma {:induction false} NextKeeps(c: Config, side: Side, m: Move)
    requires Inv(c) && Enabled(c, side, m)
    ensures Inv(Next(c, side, m))
  {
    hide Opposite, MoveA, CanMove;
    if side.A? { MoveKeeps(c, m); } else { MoveKeeps(Flip(c), m); }
  }

  lemma {:induction false} StartHolds(s: Session)
    requires Closed(s, false)
    ensures Inv(Start(s))
  {
    DualClosed(s, false);
    SettleMirrors(Live(s, None));
  }

  lemma {:induction false} ReachesKeeps(start: Config, moves: seq<(Side, Move)>, c: Config)
    requires Inv(start) && Reaches(start, moves, c)
    ensures Inv(c)
    decreases |moves|
  {
    hide Inv, Next, Enabled;
    if moves != [] {
      NextKeeps(start, moves[0].0, moves[0].1);
      ReachesKeeps(Next(start, moves[0].0, moves[0].1), moves[1..], c);
    }
  }

  // ---- safety of every run ----

  /** The head of the queue towards `a` is the message or branch `a` waits for. */
  predicate ExpectedAt(p: Peer, q: seq<Frame>) {
    q != [] && p.Live? ==>
      && (p.at.Recv? ==> q[0].Data? && q[0].ty == p.at.ty)
      && (p.at.Offer? ==> q[0].Choice?)
      && !p.at.Send? && !p.at.Select? && !p.at.End?
  }

  /** Both protocols finished, nothing in flight. */
  predicate Done(c: Config) {
    c.a.Live? && c.b.Live? && c.a.at.End? && c.b.at.End? && c.ab == [] && c.ba == []
  }

  lemma {:induction false} InvExpected(c: Config)
    requires Inv(c)
    ensures c.a.Live? && c.b.Live? && (c.ab == [] || c.ba == [])
    ensures ExpectedAt(c.a, c.ba) && ExpectedAt(c.b, c.ab)
  {
    hide Drain;
    if c.ab != [] { QueuedMeansReceiving(c.b, c.ab, c.a); }
    if c.ba != [] { QueuedMeansReceiving(c.a, c.ba, c.b); }
  }

  /**
    Every interleaving of two dual peers: neither ever fails, at most one queue holds frames, and
    whatever is in front of a receiver is the message type or the branch it is waiting for.
  */
  lemma {:induction false} SessionSafety(s: Session, moves: seq<(Side, Move)>, c: Config)
    requires Closed(s, false) && Reaches(Start(s), moves, c)
    ensures c.a.Live? && c.b.Live? && (c.ab == [] || c.ba == [])
    ensures ExpectedAt(c.a, c.ba) && ExpectedAt(c.b, c.ab)
  {
    hide Inv, Reaches, ExpectedAt;
    StartHolds(s);
    ReachesKeeps(Start(s), moves, c);
    InvExpected(c);
  }

  /** The move a peer that is not waiting can make. */
  function Ready(p: Peer): (m: Move) {
    if p.Live? && p.at.Send? then Put("") else if p.Live? && p.at.Select? then Choose(true)
    else if p.Live? && (p.at.Rec? || p.at.Var?) then Silent else Get
  }

  predicate CanActNow(c: Config) { Enabled(c, A, Ready(c.a)) || Enabled(c, B, Ready(c.b)) }

  lemma {:induction false} InvProgress(c: Config)
    requires Inv(c)
    ensures Done(c) || CanActNow(c)
  {
    InvExpected(c);
    if !CanActNow(c) {
      SettledIdle(c.a);
      SettledIdle(c.b);
      if c.ab == [] && c.ba == [] && !Opposite(c.b, [], c.a) { OppositeSwaps(c.a, c.b); }
    }
  }

  /** No deadlock: a run is stuck only when both peers have ended and both queues are empty. */
  lemma {:induction false} SessionProgress(s: Session, moves: seq<(Side, Move)>, c: Config)
    requires Closed(s, false) && Reaches(Start(s), moves, c)
    ensures Done(c) <==> forall side, m :: !Enabled(c, side, m)
  {
    hide Inv, Reaches;
    StartHolds(s);
    ReachesKeeps(Start(s), moves, c);
    InvProgress(c);
  }

  /** When one peer has ended, the other still has at most its own queue to drain, and that leads it to the end. */
  predicate OnlyDrains(p: Peer, q: seq<Frame>) {
    p.Live? && Drain(p, q).Some? && Settle(Drain(p, q).value).at.End?
  }

  lemma {:induction false} InvEnds(c: Config)
    requires Inv(c) && c.a.Live? && c.a.at.End?
    ensures c.ba == [] && OnlyDrains(c.b, c.ab)
  {
    hide Mirror;
    InvExpected(c);
    if !Opposite(c.b, c.ab, c.a) { OppositeSwaps(c.a, c.b); }
    MirrorEnd(c.a);
  }

  /** A peer that has ended owes nothing: with its own frames delivered, the other has ended too. */
  lemma {:induction false} EndTogether(s: Session, moves: seq<(Side, Move)>, c: Config)
    requires Closed(s, false) && Reaches(Start(s), moves, c)
    ensures c.a.Live? && c.a.at.End? ==> c.ba == [] && OnlyDrains(c.b, c.ab)
    ensures c.b.Live? && c.b.at.End? ==> c.ab == [] && OnlyDrains(c.a, c.ba)
  {
    hide Reaches, Opposite, OnlyDrains;
    StartHolds(s);
    ReachesKeeps(Start(s), moves, c);
    if c.a.Live? && c.a.at.End? { InvEnds(c); }
    if c.b.Live? && c.b.at.End? { InvEnds(Flip(c)); }
  }

  lemma {:induction false} MirrorEnd(p: Peer)
    requires p.Live? && p.at.End?
    ensures Mirror(Settle(p)).at.End?
  {
  }

  // ---- how long peers stay silent, and how long runs are ----

  /** `n` silent steps, or as many as there are. */
  function Spin(p: Peer, n: nat): (q: Peer)
    decreases n
  {
    if n == 0 || !(p.Live? && (p.at.Rec? || p.at.Var?)) then p else Spin(Step(p), n - 1)
  }

  /** A guarded peer communicates or ends after exactly `Delay` silent steps. */
  lemma {:induction false} SilenceEnds(p: Peer)
    requires Sound(p)
    ensures Spin(p, Delay(p)) == Settle(p) && !Settle(p).at.Rec? && !Settle(p).at.Var?
    decreases Delay(p)
  {
    SettleSound(p);
    if p.at.Rec? || p.at.Var? {
      StepSettles(p);
      SilenceEnds(Step(p));
    }
  }

  /** Without the guard it never does: entered and recursed any number of times, the peer has still nothing to say. */
  lemma {:induction false} UnguardedSpins(b: Session, p: Peer, n: nat)
    requires !Guarded(b) && p.Live? && (p.at == Rec(b) || (p.at.Var? && p.env == Some(b)))
    ensures !Closed(Rec(b), false)
    ensures Spin(p, n).Live? && (Spin(p, n).at.Rec? || Spin(p, n).at.Var?)
    decreases n
  {
    if n > 0 {
      var q := Step(p);
      assert q.Live?;
      if p.at.Var? || b.Var? { UnguardedSpins(b, q, n - 1); } else { UnguardedSpins(b.body, q, n - 1); }
    }
  }

  /** What is left of the protocol, with the loop it is in written out. */
  function Meaning(p: Peer): (s: Session)
    requires p.Live?
  {
    if p.env.Some? then Subst(p.at, Rec(p.env.value)) else p.at
  }

  /** `enter` unfolds the protocol once; `recurse` changes nothing in it. */
  lemma {:induction false} StepUnfolds(p: Peer)
    requires Sound(p) && (p.at.Rec? || p.at.Var?)
    ensures p.at.Rec? ==> Meaning(p).Rec? && Meaning(Step(p)) == Unfold(Meaning(p))
    ensures p.at.Var? ==> Meaning(Step(p)) == Meaning(p)
  {
  }

  /** A move that the protocol `s` calls for, what it puts on the wire, and the protocol it leaves. */
  predicate Follows(s: Session, m: Move, inbox: seq<Frame>, t: Session, sent: seq<Frame>) {
    match m
    case Silent => sent == [] && (t == s || (s.Rec? && t == Unfold(s)))
    case Put(text) => s.Send? && t == s.next && sent == [Data(s.ty, text)]
    case Choose(left) => s.Select? && t == (if left then s.left else s.right) && sent == [Choice(left)]
    case Get =>
      && sent == [] && inbox != []
      && match inbox[0]
         case Data(ty, _) => s.Recv? && ty == s.ty && t == s.next
         case Choice(left) => s.Offer? && t == if left then s.left else s.right
  }

  lemma {:induction false} MoveFollows(c: Config, m: Move)
    requires Inv(c) && CanMove(c, m)
    ensures var d := MoveA(c, m);
            && c.a.Live? && d.a.Live? && d.b == c.b && d.ba == (if m.Get? then c.ba[1..] else c.ba)
            && c.ab <= d.ab && Follows(Meaning(c.a), m, c.ba, Meaning(d.a), d.ab[|c.ab|..])
  {
    hide Inv, Take, Settle;
    InvExpected(c);
    match m
    case Silent =>
      assert Sound(c.a) by { InvSound(c); }
      StepUnfolds(c.a);
      assert c.ab[|c.ab|..] == [];
    case Get =>
      GetKeeps(c);
      assert c.ab[|c.ab|..] == [];
    case Put(text) => assert (c.ab + [Data(c.a.at.ty, text)])[|c.ab|..] == [Data(c.a.at.ty, text)];
    case Choose(left) => assert (c.ab + [Choice(left)])[|c.ab|..] == [Choice(left)];
  }

  lemma {:induction false} InvSound(c: Config)
    requires Inv(c)
    ensures Sound(c.a) && Sound(c.b)
  {
  }

  /**
    In every run each peer does what its own protocol says, loops written out: it sends the type that is due, goes
    on with the branch chosen, and takes the frame in front of it for what the other put there.
  */
  lemma {:induction false} PeersFollow(s: Session, moves: seq<(Side, Move)>, c: Config, side: Side, m: Move)
    requires Closed(s, false) && Reaches(Start(s), moves, c) && Enabled(c, side, m)
    ensures Meaning(Start(s).a) == s && Meaning(Start(s).b) == Dual(s)
    ensures var was, now := if side.A? then c else Flip(c), if side.A? then Next(c, side, m) else Flip(Next(c, side, m));
            && was.a.Live? && now.a.Live? && now.b == was.b && now.ba == (if m.Get? then was.ba[1..] else was.ba)
            && was.ab <= now.ab && Follows(Meaning(was.a), m, was.ba, Meaning(now.a), now.ab[|was.ab|..])
  {
    hide Inv, Reaches, Follows, Meaning, MoveA, CanMove;
    Meanings(s);
    StartHolds(s);
    ReachesKeeps(Start(s), moves, c);
    FlipInv(c);
    MoveFollows(if side.A? then c else Flip(c), m);
  }

  lemma {:induction false} Meanings(s: Session)
    ensures Meaning(Start(s).a) == s && Meaning(Start(s).b) == Dual(s)
  {
  }

  predicate Finite(s: Session) {
    match s
    case Send(_, n) => Finite(n)
    case Recv(_, n) => Finite(n)
    case Offer(l, r) => Finite(l) && Finite(r)
    case Select(l, r) => Finite(l) && Finite(r)
    case End => true
    case _ => false
  }

  /** The longest way through a finite protocol. */
  function Depth(s: Session): (n: nat) {
    match s
    case Send(_, n) => 1 + Depth(n)
    case Recv(_, n) => 1 + Depth(n)
    case Offer(l, r) => 1 + if Depth(l) > Depth(r) then Depth(l) else Depth(r)
    case Select(l, r) => 1 + if Depth(l) > Depth(r) then Depth(l) else Depth(r)
    case _ => 0
  }

  lemma {:induction false} DualDepth(s: Session)
    ensures Depth(Dual(s)) == Depth(s) && (Finite(Dual(s)) <==> Finite(s))
  {
    match s
    case Send(_, n) => DualDepth(n);
    case Recv(_, n) => DualDepth(n);
    case Offer(l, r) => DualDepth(l); DualDepth(r);
    case Select(l, r) => DualDepth(l); DualDepth(r);
    case _ =>
  }

  ghost predicate FiniteConfig(c: Config) {
    Inv(c) && c.a.Live? && c.b.Live? && Finite(c.a.at) && Finite(c.b.at)
  }

  lemma {:induction false} MoveShortens(c: Config, m: Move)
    requires FiniteConfig(c) && CanMove(c, m)
    ensures FiniteConfig(MoveA(c, m)) && Depth(MoveA(c, m).a.at) < Depth(c.a.at) && MoveA(c, m).b == c.b
  {
    hide Inv;
    MoveKeeps(c, m);
    InvExpected(MoveA(c, m));
  }

  lemma {:induction false} RunsShorten(start: Config, moves: seq<(Side, Move)>, c: Config)
    requires FiniteConfig(start) && Reaches(start, moves, c)
    ensures FiniteConfig(c)
    ensures |moves| + Depth(c.a.at) + Depth(c.b.at) <= Depth(start.a.at) + Depth(start.b.at)
    decreases |moves|
  {
    hide Inv, MoveA, CanMove;
    if moves != [] {
      var (side, m) := moves[0];
      if side.A? { MoveShortens(start, m); } else {
        assert FiniteConfig(Flip(start)) by { FlipInv(start); }
        MoveShortens(Flip(start), m);
        FlipInv(MoveA(Flip(start), m));
      }
      RunsShorten(Next(start, side, m), moves[1..], c);
    }
  }

  lemma {:induction false} FlipInv(c: Config)
    ensures Inv(Flip(c)) <==> Inv(c)
  {
    hide Opposite;
  }

  /** Every run of a protocol without loops is bounded; where it stops, both peers have ended. */
  lemma {:induction false} FiniteRunsEnd(s: Session, moves: seq<(Side, Move)>, c: Config)
    requires Closed(s, false) && Finite(s) && Reaches(Start(s), moves, c)
    ensures |moves| <= 2 * Depth(s)
    ensures (forall side, m :: !Enabled(c, side, m)) ==> Done(c)
  {
    hide Inv, Reaches, Enabled;
    StartHolds(s);
    DualDepth(s);
    RunsShorten(Start(s), moves, c);
    SessionProgress(s, moves, c);
  }
}
