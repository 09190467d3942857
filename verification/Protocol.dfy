/**
 * The replicated store as a step machine: clients (network.c), servers
 * (pps-launch-server.c) and the datagrams between them. Every call of network_get or
 * network_put is a session with a socket of its own, so a reply can only reach the session
 * whose request it answers. Datagrams may be lost, delayed and reordered, not duplicated.
 * The byte behind a request in the server's buffer is NUL (Wire.DispatchPut and
 * Wire.DispatchGet say what happens otherwise).
 */
module Protocol {
  import opened Bytes
  import opened HashTable
  import opened NodeList
  import opened Ring
  import opened Wire
  import opened Dump
  import opened Server
  import opened Network

  // ---------- state ----------

  /** The ring all clients have built, and the library functions they use. */
  datatype Config = Config(ring: seq<Node>, lib: Lib)

  datatype Call =
    | PutCall(key: CStr, value: CStr, n: nat, w: nat)
    | GetCall(key: CStr, n: nat, r: nat)

  datatype Result = Running | PutDone(code: ErrorCode) | GetDone(result: GetResult)

  /** A received reply and, for the record, the server it came from. The client does not look at it. */
  datatype Answer = Answer(server: Addr, bytes: seq<byte>)

  datatype Session = Session(call: Call, sent: nat, heard: seq<Answer>, result: Result)

  datatype Datagram =
    | Request(sid: nat, server: Addr, bytes: seq<byte>)
    | Reply(sid: nat, server: Addr, bytes: seq<byte>)

  datatype State = State(stores: map<Addr, Store>, net: multiset<Datagram>, sessions: map<nat, Session>)

  // ---------- the client ----------

  predicate Admitted(call: Call) {
    |call.key| <= MAX_MSG_ELEM_SIZE && (call.PutCall? ==> |call.value| <= MAX_MSG_ELEM_SIZE)
  }

  function Encode(call: Call): seq<byte> {
    match call
    case PutCall(k, v, _, _) => FormatPut(k, v)
    case GetCall(k, _, _) => k
  }

  function TargetsOf(cfg: Config, call: Call): seq<Addr> {
    Targets(cfg.ring, call.n, call.key, cfg.lib)
  }

  function Refused(call: Call): Result {
    if call.PutCall? then PutDone(ErrBadParameter) else GetDone(Error(ErrBadParameter))
  }

  function Payloads(heard: seq<Answer>): (payloads: seq<seq<byte>>)
    ensures |payloads| == |heard|
  {
    if heard == [] then [] else Payloads(heard[..|heard| - 1]) + [heard[|heard| - 1].bytes]
  }

  /** The result right after a reply has been received. */
  function AfterReply(call: Call, heard: seq<Answer>): Result {
    match call
    case PutCall(_, _, _, w) => if |heard| >= w then PutDone(ErrNone) else Running
    case GetCall(_, _, r) =>
      match GetRun(Payloads(heard), r)
      case Returned(v) => GetDone(Value(v))
      case Tallying(_, _) => Running
  }

  function AfterTimeOut(call: Call, heard: seq<Answer>): Result {
    match call
    case PutCall(_, _, _, _) => PutDone(ErrNetwork)
    case GetCall(_, _, r) => GetDone(GetOutcome(Payloads(heard), r))
  }

  // ---------- the server ----------

  function OpOf(bytes: seq<byte>): Op {
    Dispatch(bytes + [0], |bytes|)
  }

  /** A pair too long for a dump: the packing loop never ends, and any number of datagrams may have been sent. */
  ghost predicate Diverges(store: Store) {
    exists k :: k in store && !Fits(KvPair(k, store[k]))
  }

  ghost predicate Answers(store: Store, op: Op, store': Store, replies: seq<seq<byte>>) {
    Serves(store, op, store', replies) || (op.Dump? && store' == store && Diverges(store))
  }

  function ReplyTo(d: Datagram, replies: seq<seq<byte>>): multiset<Datagram> {
    if replies == [] then multiset{}
    else ReplyTo(d, replies[..|replies| - 1]) + multiset{Reply(d.sid, d.server, replies[|replies| - 1])}
  }

  // ---------- steps ----------

  ghost predicate Begin(cfg: Config, s: State, s': State, sid: nat, call: Call) {
    && sid !in s.sessions
    && 0 < call.n <= |Servers(cfg.ring)|
    && s' == s.(sessions := s.sessions[sid := Session(call, 0, [], if Admitted(call) then Running else Refused(call))])
  }

  ghost predicate Send(cfg: Config, s: State, s': State, sid: nat) {
    && sid in s.sessions
    && var ss := s.sessions[sid];
    && ss.result == Running && ss.sent < |TargetsOf(cfg, ss.call)|
    && s' == s.(net := s.net + multiset{Request(sid, TargetsOf(cfg, ss.call)[ss.sent], Encode(ss.call))},
                sessions := s.sessions[sid := ss.(sent := ss.sent + 1)])
  }

  ghost predicate Serve(s: State, s': State, d: Datagram, store': Store, replies: seq<seq<byte>>) {
    && d in s.net && d.Request? && d.server in s.stores
    && Answers(s.stores[d.server], OpOf(d.bytes), store', replies)
    && s' == s.(net := s.net - multiset{d} + ReplyTo(d, replies), stores := s.stores[d.server := store'])
  }

  /** The client receives only after its last request has been sent. */
  ghost predicate Receive(cfg: Config, s: State, s': State, d: Datagram) {
    && d in s.net && d.Reply? && d.sid in s.sessions
    && var ss := s.sessions[d.sid];
    && ss.result == Running && ss.sent == |TargetsOf(cfg, ss.call)|
    && var heard := ss.heard + [Answer(d.server, d.bytes)];
    && s' == s.(net := s.net - multiset{d},
                sessions := s.sessions[d.sid := ss.(heard := heard, result := AfterReply(ss.call, heard))])
  }

  ghost predicate Drop(s: State, s': State, d: Datagram) {
    d in s.net && s' == s.(net := s.net - multiset{d})
  }

  ghost predicate TimeOut(cfg: Config, s: State, s': State, sid: nat) {
    && sid in s.sessions
    && var ss := s.sessions[sid];
    && ss.result == Running && ss.sent == |TargetsOf(cfg, ss.call)|
    && s' == s.(sessions := s.sessions[sid := ss.(result := AfterTimeOut(ss.call, ss.heard))])
  }

  datatype Step =
    | BeginStep(sid: nat, call: Call)
    | SendStep(sid: nat)
    | ServeStep(d: Datagram, store: Store, replies: seq<seq<byte>>)
    | ReceiveStep(d: Datagram)
    | DropStep(d: Datagram)
    | TimeOutStep(sid: nat)

  ghost predicate NextBy(cfg: Config, s: State, s': State, step: Step) {
    match step
    case BeginStep(sid, call) => Begin(cfg, s, s', sid, call)
    case SendStep(sid) => Send(cfg, s, s', sid)
    case ServeStep(d, store, replies) => Serve(s, s', d, store, replies)
    case ReceiveStep(d) => Receive(cfg, s, s', d)
    case DropStep(d) => Drop(s, s', d)
    case TimeOutStep(sid) => TimeOut(cfg, s, s', sid)
  }

  ghost predicate Next(cfg: Config, s: State, s': State) {
    exists step :: NextBy(cfg, s, s', step)
  }

  ghost predicate Init(cfg: Config, s: State) {
    && (forall a :: a in Servers(cfg.ring) ==> a in s.stores)
    && (forall a :: a in s.stores ==> s.stores[a] == map[])
    && s.net == multiset{} && s.sessions == map[]
  }

  ghost predicate IsRun(cfg: Config, run: seq<State>) {
    && run != [] && Init(cfg, run[0])
    && forall i :: 0 <= i < |run| - 1 ==> Next(cfg, run[i], run[i + 1])
  }

  // ---------- requests on the wire ----------

  /** The one put request that a server takes for a dump request. */
  predicate IsDumpCall(call: Call) {
    call.PutCall? && call.key == [] && call.value == []
  }

  /** What a server makes of a request. */
  lemma OpOfCall(call: Call)
    ensures call.PutCall? && !IsDumpCall(call) ==> OpOf(Encode(call)) == Put(call.key, call.value)
    ensures IsDumpCall(call) ==> OpOf(Encode(call)) == Op.Dump
    ensures call.GetCall? && call.key != [] ==> OpOf(Encode(call)) == Op.Get(call.key)
    ensures call.GetCall? && call.key == [] ==> OpOf(Encode(call)) == Ping
  {
    match call
    case PutCall(k, v, _, _) => DispatchPut(k, v, [0]);
    case GetCall(k, _, _) => DispatchGet(k, [0]);
  }

  /** A session sends to the replicas of its call's key, in order. */
  lemma TargetsOfReplicas(cfg: Config, call: Call)
    requires cfg.ring != []
    ensures exists list: seq<Node> ::
      && IsReplicaList(cfg.ring, CString(cfg.lib.sha1(call.key)), call.n, list)
      && |TargetsOf(cfg, call)| == |list|
      && forall i :: 0 <= i < |list| ==> TargetsOf(cfg, call)[i] == list[i].addr
  {
    ReplicasAreList(cfg.ring, call.n, CString(cfg.lib.sha1(call.key)));
  }

  // ---------- the token invariant: one session ----------

  ghost predicate HeardFrom(ss: Session, a: Addr) {
    exists i :: 0 <= i < |ss.heard| && ss.heard[i].server == a
  }

  /** The result is the one network_put or network_get returns for the replies heard; a running call has none yet. */
  ghost predicate ResultOk(ss: Session) {
    match ss.result
    case Running =>
      && Admitted(ss.call)
      && (ss.call.PutCall? ==> AckOutcome(|ss.heard|, ss.call.w) == ErrNetwork)
      && (ss.call.GetCall? ==> GetOutcome(Payloads(ss.heard), ss.call.r).Error?)
    case PutDone(code) =>
      && ss.call.PutCall?
      && (code == if Admitted(ss.call) then AckOutcome(|ss.heard|, ss.call.w) else ErrBadParameter)
    case GetDone(result) =>
      && ss.call.GetCall?
      && (result == if Admitted(ss.call) then GetOutcome(Payloads(ss.heard), ss.call.r) else Error(ErrBadParameter))
  }

  /** Replies have come from different servers, to which requests have been sent. */
  ghost predicate SessionOk(cfg: Config, ss: Session) {
    && 0 < ss.call.n <= |Servers(cfg.ring)|
    && ss.sent <= |TargetsOf(cfg, ss.call)|
    && ResultOk(ss)
    && (!IsDumpCall(ss.call) ==>
          && (forall i :: 0 <= i < |ss.heard| ==> ss.heard[i].server in TargetsOf(cfg, ss.call)[..ss.sent])
          && (forall i, j :: 0 <= i < j < |ss.heard| ==> ss.heard[i].server != ss.heard[j].server))
  }

  /** What holds of a datagram of session `ss` of which so many copies are in flight. */
  ghost predicate DatagramOk(cfg: Config, ss: Session, copies: nat, d: Datagram) {
    && Admitted(ss.call)
    && (d.Request? ==> d.bytes == Encode(ss.call))
    && (!IsDumpCall(ss.call) ==>
          && ss.sent <= |TargetsOf(cfg, ss.call)|
          && d.server in TargetsOf(cfg, ss.call)[..ss.sent]
          && !HeardFrom(ss, d.server)
          && copies == 1)
  }

  ghost predicate CanSend(cfg: Config, ss: Session) {
    SessionOk(cfg, ss) && ss.result == Running && ss.sent < |TargetsOf(cfg, ss.call)|
  }

  lemma SessionBegins(cfg: Config, call: Call)
    requires 0 < call.n <= |Servers(cfg.ring)|
    ensures SessionOk(cfg, Session(call, 0, [], if Admitted(call) then Running else Refused(call)))
  {
  }

  lemma SessionSends(cfg: Config, ss: Session, sid: nat)
    requires CanSend(cfg, ss)
    ensures
      var ss' := ss.(sent := ss.sent + 1);
      && SessionOk(cfg, ss')
      && DatagramOk(cfg, ss', 1, Request(sid, TargetsOf(cfg, ss.call)[ss.sent], Encode(ss.call)))
  {
    hide Targets, Encode;
    TargetsDistinct(cfg.ring, ss.call.n, ss.call.key, cfg.lib);
    var targets := TargetsOf(cfg, ss.call);
    assert targets[..ss.sent + 1] == targets[..ss.sent] + [targets[ss.sent]];
  }

  lemma SendKeeps(cfg: Config, ss: Session, copies: nat, d: Datagram)
    requires CanSend(cfg, ss) && DatagramOk(cfg, ss, copies, d)
    ensures DatagramOk(cfg, ss.(sent := ss.sent + 1), copies, d)
    ensures !IsDumpCall(ss.call) ==> d.server != TargetsOf(cfg, ss.call)[ss.sent]
  {
    hide Targets, Encode;
    TargetsDistinct(cfg.ring, ss.call.n, ss.call.key, cfg.lib);
    var targets := TargetsOf(cfg, ss.call);
    assert targets[..ss.sent + 1] == targets[..ss.sent] + [targets[ss.sent]];
  }

  lemma AfterReplyOk(call: Call, heard: seq<Answer>, sent: nat)
    requires Admitted(call) && heard != []
    ensures ResultOk(Session(call, sent, heard, AfterReply(call, heard)))
  {
  }

  lemma SessionReceives(cfg: Config, ss: Session, copies: nat, d: Datagram)
    requires SessionOk(cfg, ss) && DatagramOk(cfg, ss, copies, d)
    ensures
      var heard := ss.heard + [Answer(d.server, d.bytes)];
      SessionOk(cfg, ss.(heard := heard, result := AfterReply(ss.call, heard)))
  {
    hide TargetsOf, ResultOk, AfterReply;
    var heard := ss.heard + [Answer(d.server, d.bytes)];
    AfterReplyOk(ss.call, heard, ss.sent);
    assert forall i :: 0 <= i < |ss.heard| ==> HeardFrom(ss, ss.heard[i].server);
  }

  lemma ReceiveKeeps(cfg: Config, ss: Session, a: Answer, result: Result, copies: nat, d: Datagram)
    requires DatagramOk(cfg, ss, copies, d) && (!IsDumpCall(ss.call) ==> d.server != a.server)
    ensures DatagramOk(cfg, ss.(heard := ss.heard + [a], result := result), copies, d)
  {
    hide TargetsOf, Encode;
  }

  /** The number of copies matters for no dump request, and is 1 for all others. */
  lemma AnyCopies(cfg: Config, ss: Session, m: nat, n: nat, d: Datagram)
    requires DatagramOk(cfg, ss, m, d) && n > 0
    requires !IsDumpCall(ss.call) ==> n <= m
    ensures DatagramOk(cfg, ss, n, d)
    ensures !IsDumpCall(ss.call) ==> m == n == 1
  {
    hide TargetsOf, Encode;
  }

  lemma ReplyOk(cfg: Config, ss: Session, copies: nat, d: Datagram, bytes: seq<byte>)
    requires DatagramOk(cfg, ss, copies, d)
    ensures DatagramOk(cfg, ss, copies, Reply(d.sid, d.server, bytes))
  {
    hide TargetsOf, Encode;
  }

  lemma SessionTimesOut(cfg: Config, ss: Session)
    requires SessionOk(cfg, ss) && ss.result == Running
    ensures SessionOk(cfg, ss.(result := AfterTimeOut(ss.call, ss.heard)))
  {
    hide TargetsOf;
  }

  // ---------- the token invariant: the whole state ----------

  ghost predicate SameToken(s: State, d: Datagram, e: Datagram) {
    d.sid == e.sid && d.server == e.server && d.sid in s.sessions && !IsDumpCall(s.sessions[d.sid].call)
  }

  /** A session and a server exchange at most one datagram at a time. */
  ghost predicate Inv(cfg: Config, s: State) {
    && (forall sid :: sid in s.sessions ==> SessionOk(cfg, s.sessions[sid]))
    && (forall d :: d in s.net ==> d.sid in s.sessions && DatagramOk(cfg, s.sessions[d.sid], s.net[d], d))
    && (forall d, e :: d in s.net && e in s.net && SameToken(s, d, e) ==> d == e)
  }

  lemma InvBegin(cfg: Config, s: State, s': State, sid: nat, call: Call)
    requires Inv(cfg, s) && Begin(cfg, s, s', sid, call)
    ensures Inv(cfg, s')
  {
    hide SessionOk, DatagramOk;
    SessionBegins(cfg, call);
    forall d, e | d in s'.net && e in s'.net && SameToken(s', d, e) ensures d == e {
      assert SameToken(s, d, e);
    }
  }

  lemma InvSend(cfg: Config, s: State, s': State, sid: nat)
    requires Inv(cfg, s) && Send(cfg, s, s', sid)
    ensures Inv(cfg, s')
  {
    hide SessionOk, DatagramOk, TargetsOf, Encode;
    var ss := s.sessions[sid];
    SessionSends(cfg, ss, sid);
    var sent := Request(sid, TargetsOf(cfg, ss.call)[ss.sent], Encode(ss.call));
    forall d | d in s.net && d.sid == sid
      ensures DatagramOk(cfg, s'.sessions[sid], s.net[d], d)
      ensures !IsDumpCall(ss.call) ==> d.server != sent.server
    {
      SendKeeps(cfg, ss, s.net[d], d);
    }
    AnyCopies(cfg, s'.sessions[sid], 1, s'.net[sent], sent);
    assert forall d :: d in s'.net && d != sent ==> d in s.net && s'.net[d] == s.net[d];
    forall d, e | d in s'.net && e in s'.net && SameToken(s', d, e) ensures d == e {
      if d in s.net && e in s.net {
        assert SameToken(s, d, e);
      }
    }
  }

  lemma {:induction false} ReplyToKind(d: Datagram, replies: seq<seq<byte>>)
    ensures forall e :: e in ReplyTo(d, replies) ==> e.Reply? && e.sid == d.sid && e.server == d.server
  {
    if replies != [] {
      ReplyToKind(d, replies[..|replies| - 1]);
    }
  }

  lemma ReplyToOne(d: Datagram, bytes: seq<byte>)
    ensures ReplyTo(d, [bytes]) == multiset{Reply(d.sid, d.server, bytes)}
  {
    var one: seq<seq<byte>> := [bytes];
    assert one[..0] == [];
  }

  lemma OneAnswer(call: Call, store: Store, store': Store, replies: seq<seq<byte>>)
    requires Answers(store, OpOf(Encode(call)), store', replies) && !IsDumpCall(call)
    ensures |replies| == 1
  {
    hide OpOf, Encode;
    OpOfCall(call);
  }

  lemma RequestBytes(cfg: Config, ss: Session, copies: nat, d: Datagram)
    requires DatagramOk(cfg, ss, copies, d)
    ensures Admitted(ss.call)
    ensures d.Request? ==> d.bytes == Encode(ss.call)
    ensures !IsDumpCall(ss.call) ==> d.server in TargetsOf(cfg, ss.call) && !HeardFrom(ss, d.server)
  {
    hide TargetsOf, Encode;
  }

  /** Every request but a dump is answered by one datagram. */
  lemma OneReply(cfg: Config, s: State, s': State, d: Datagram, store': Store, replies: seq<seq<byte>>)
    requires Inv(cfg, s) && Serve(s, s', d, store', replies)
    requires !IsDumpCall(s.sessions[d.sid].call)
    ensures |replies| == 1 && ReplyTo(d, replies) == multiset{Reply(d.sid, d.server, replies[0])}
  {
    hide DatagramOk, SessionOk, OpOf, Answers, Encode;
    RequestBytes(cfg, s.sessions[d.sid], s.net[d], d);
    OneAnswer(s.sessions[d.sid].call, s.stores[d.server], store', replies);
    assert replies == [replies[0]];
    ReplyToOne(d, replies[0]);
  }

  /** Serving a request other than a dump puts its reply in its place. */
  lemma ReplyInPlace(cfg: Config, s: State, s': State, d: Datagram, store': Store,
          replies: seq<seq<byte>>) returns (r: Datagram)
    requires Inv(cfg, s) && Serve(s, s', d, store', replies)
    requires !IsDumpCall(s.sessions[d.sid].call)
    ensures r.Reply? && r.sid == d.sid && r.server == d.server
    ensures d !in s'.net && s'.net[r] == 1
    ensures forall e :: e != d && e != r ==> s'.net[e] == s.net[e]
    ensures forall e :: e in s'.net && e.sid == d.sid && e.server == d.server ==> e == r
  {
    hide SessionOk, DatagramOk, Answers, OpOf, ReplyTo;
    OneReply(cfg, s, s', d, store', replies);
    AnyCopies(cfg, s.sessions[d.sid], s.net[d], 1, d);
    r := Reply(d.sid, d.server, replies[0]);
    assert SameToken(s, r, d);
    assert s'.net == s.net - multiset{d} + multiset{r};
    forall e | e in s'.net && e.sid == d.sid && e.server == d.server ensures e == r {
      assert SameToken(s, e, d);
    }
  }

  lemma ServedDatagram(cfg: Config, s: State, s': State, d: Datagram, store': Store, replies: seq<seq<byte>>,
          e: Datagram)
    requires Inv(cfg, s) && Serve(s, s', d, store', replies) && e in s'.net
    ensures e.sid in s.sessions && DatagramOk(cfg, s.sessions[e.sid], s'.net[e], e)
  {
    hide SessionOk, DatagramOk, Answers, OpOf, ReplyTo;
    ReplyToKind(d, replies);
    var ss := s.sessions[d.sid];
    if IsDumpCall(ss.call) {
      if e.sid == d.sid {
        ReplyOk(cfg, ss, s.net[d], d, e.bytes);
        AnyCopies(cfg, ss, if e in s.net then s.net[e] else s.net[d], s'.net[e], e);
      }
    } else {
      var r := ReplyInPlace(cfg, s, s', d, store', replies);
      if e == r {
        ReplyOk(cfg, ss, s.net[d], d, r.bytes);
        AnyCopies(cfg, ss, s.net[d], 1, r);
      }
    }
  }

  lemma ServedTokens(cfg: Config, s: State, s': State, d: Datagram, store': Store, replies: seq<seq<byte>>,
          e: Datagram, f: Datagram)
    requires Inv(cfg, s) && Serve(s, s', d, store', replies)
    requires e in s'.net && f in s'.net && SameToken(s', e, f)
    ensures e == f
  {
    hide SessionOk, DatagramOk, Answers, OpOf, ReplyTo;
    ReplyToKind(d, replies);
    if IsDumpCall(s.sessions[d.sid].call) {
      assert e in s.net && f in s.net && SameToken(s, e, f);
    } else {
      var r := ReplyInPlace(cfg, s, s', d, store', replies);
      assert e != r && f != r ==> e in s.net && f in s.net && SameToken(s, e, f);
    }
  }

  lemma InvServe(cfg: Config, s: State, s': State, d: Datagram, store': Store, replies: seq<seq<byte>>)
    requires Inv(cfg, s) && Serve(s, s', d, store', replies)
    ensures Inv(cfg, s')
  {
    hide SessionOk, DatagramOk, Answers, OpOf, ReplyTo, SameToken;
    forall e | e in s'.net ensures e.sid in s'.sessions && DatagramOk(cfg, s'.sessions[e.sid], s'.net[e], e) {
      ServedDatagram(cfg, s, s', d, store', replies, e);
    }
    forall e, f | e in s'.net && f in s'.net && SameToken(s', e, f) ensures e == f {
      ServedTokens(cfg, s, s', d, store', replies, e, f);
    }
  }

  lemma InvReceive(cfg: Config, s: State, s': State, d: Datagram)
    requires Inv(cfg, s) && Receive(cfg, s, s', d)
    ensures Inv(cfg, s')
  {
    hide SessionOk, DatagramOk, AfterReply, TargetsOf;
    var ss := s.sessions[d.sid];
    SessionReceives(cfg, ss, s.net[d], d);
    AnyCopies(cfg, ss, s.net[d], s.net[d], d);
    forall e | e in s'.net && e.sid == d.sid ensures DatagramOk(cfg, s'.sessions[d.sid], s'.net[e], e) {
      assert SameToken(s, d, e) ==> d == e;
      AnyCopies(cfg, ss, s.net[e], s'.net[e], e);
      ReceiveKeeps(cfg, ss, Answer(d.server, d.bytes), s'.sessions[d.sid].result, s'.net[e], e);
    }
    forall e, f | e in s'.net && f in s'.net && SameToken(s', e, f) ensures e == f {
      assert SameToken(s, e, f);
    }
  }

  lemma InvDrop(cfg: Config, s: State, s': State, d: Datagram)
    requires Inv(cfg, s) && Drop(s, s', d)
    ensures Inv(cfg, s')
  {
    hide SessionOk, DatagramOk;
    forall e | e in s'.net ensures DatagramOk(cfg, s.sessions[e.sid], s'.net[e], e) {
      AnyCopies(cfg, s.sessions[e.sid], s.net[e], s'.net[e], e);
    }
    forall e, f | e in s'.net && f in s'.net && SameToken(s', e, f) ensures e == f {
      assert SameToken(s, e, f);
    }
  }

  lemma InvTimeOut(cfg: Config, s: State, s': State, sid: nat)
    requires Inv(cfg, s) && TimeOut(cfg, s, s', sid)
    ensures Inv(cfg, s')
  {
    hide SessionOk, DatagramOk, AfterTimeOut, TargetsOf;
    var ss := s.sessions[sid];
    SessionTimesOut(cfg, ss);
    forall e | e in s'.net && e.sid == sid ensures DatagramOk(cfg, s'.sessions[sid], s'.net[e], e) {
      TimeOutKeeps(cfg, ss, AfterTimeOut(ss.call, ss.heard), s.net[e], e);
    }
    forall e, f | e in s'.net && f in s'.net && SameToken(s', e, f) ensures e == f {
      assert SameToken(s, e, f);
    }
  }

  lemma TimeOutKeeps(cfg: Config, ss: Session, result: Result, copies: nat, d: Datagram)
    requires DatagramOk(cfg, ss, copies, d)
    ensures DatagramOk(cfg, ss.(result := result), copies, d)
  {
    hide TargetsOf, Encode;
  }

  lemma InvNext(cfg: Config, s: State, s': State)
    requires Inv(cfg, s) && Next(cfg, s, s')
    ensures Inv(cfg, s')
  {
    hide Inv, Begin, Send, Serve, Receive, Drop, TimeOut;
    var step :| NextBy(cfg, s, s', step);
    match step
    case BeginStep(sid, call) => InvBegin(cfg, s, s', sid, call);
    case SendStep(sid) => InvSend(cfg, s, s', sid);
    case ServeStep(d, store, replies) => InvServe(cfg, s, s', d, store, replies);
    case ReceiveStep(d) => InvReceive(cfg, s, s', d);
    case DropStep(d) => InvDrop(cfg, s, s', d);
    case TimeOutStep(sid) => InvTimeOut(cfg, s, s', sid);
  }

  /** The invariant holds in every state of every run. */
  lemma {:induction false} InvRun(cfg: Config, run: seq<State>, i: nat)
    requires IsRun(cfg, run) && i < |run|
    ensures Inv(cfg, run[i])
  {
    if i > 0 {
      InvRun(cfg, run, i - 1);
      assert Next(cfg, run[i - 1], run[i - 1 + 1]);
      InvNext(cfg, run[i - 1], run[i]);
    }
  }
}
