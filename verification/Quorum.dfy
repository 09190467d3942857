/**
 * What reads and writes mean over whole runs: writes are applied by as many servers as
 * they report, reads return only what was written, and a read that overlaps with no other
 * write of its key returns the last successful write when the quorums intersect.
 */
module Quorum {
  import opened Bytes
  import opened HashTable
  import opened NodeList
  import opened Ring
  import opened Wire
  import opened Server
  import opened Network
  import opened Protocol

  // ---------- what one step can change ----------

  /** A session keeps its call and hears at most one more answer, from a reply that was in flight. */
  ghost predicate Evolves(net: multiset<Datagram>, sid: nat, ss: Session, ss': Session) {
    && ss'.call == ss.call
    && (ss'.heard == ss.heard ||
        exists a :: ss'.heard == ss.heard + [a] && Reply(sid, a.server, a.bytes) in net)
  }

  ghost predicate SessionsEvolve(s: State, s': State) {
    && (forall sid :: sid in s.sessions ==>
          sid in s'.sessions && Evolves(s.net, sid, s.sessions[sid], s'.sessions[sid]))
    && (forall sid :: sid in s'.sessions && sid !in s.sessions ==> s'.sessions[sid].heard == [])
  }

  /** Nothing happens at the servers. */
  ghost predicate Quiet(s: State, s': State) {
    s'.stores == s.stores && forall d :: d in s'.net && d.Reply? ==> d in s.net
  }

  lemma BeginEvolves(cfg: Config, s: State, s': State, sid: nat, call: Call)
    requires Begin(cfg, s, s', sid, call)
    ensures SessionsEvolve(s, s') && Quiet(s, s')
  {
  }

  lemma SendEvolves(cfg: Config, s: State, s': State, sid: nat)
    requires Send(cfg, s, s', sid)
    ensures SessionsEvolve(s, s') && Quiet(s, s')
  {
    hide TargetsOf, Encode;
  }

  lemma ReceiveEvolves(cfg: Config, s: State, s': State, d: Datagram)
    requires Receive(cfg, s, s', d)
    ensures SessionsEvolve(s, s') && Quiet(s, s')
  {
    hide TargetsOf, AfterReply;
    assert Evolves(s.net, d.sid, s.sessions[d.sid], s'.sessions[d.sid]) by {
      var a := Answer(d.server, d.bytes);
      assert d == Reply(d.sid, a.server, a.bytes);
    }
  }

  lemma TimeOutEvolves(cfg: Config, s: State, s': State, sid: nat)
    requires TimeOut(cfg, s, s', sid)
    ensures SessionsEvolve(s, s') && Quiet(s, s')
  {
    hide TargetsOf, AfterTimeOut;
  }

  /** Every step but a server's leaves the servers alone. */
  lemma NextEvolves(cfg: Config, s: State, s': State) returns (step: Step)
    requires Next(cfg, s, s')
    ensures SessionsEvolve(s, s')
    ensures (step.ServeStep? && Serve(s, s', step.d, step.store, step.replies)) || Quiet(s, s')
  {
    hide Begin, Send, Receive, TimeOut;
    step :| NextBy(cfg, s, s', step);
    match step
    case BeginStep(i, call) => BeginEvolves(cfg, s, s', i, call);
    case SendStep(i) => SendEvolves(cfg, s, s', i);
    case ServeStep(d, store, replies) =>
    case ReceiveStep(d) => ReceiveEvolves(cfg, s, s', d);
    case DropStep(d) =>
    case TimeOutStep(i) => TimeOutEvolves(cfg, s, s', i);
  }

  /** Sessions stay, with the same call. */
  lemma SessionsStay(cfg: Config, s: State, s': State, sid: nat)
    requires Next(cfg, s, s') && sid in s.sessions
    ensures sid in s'.sessions && s'.sessions[sid].call == s.sessions[sid].call
  {
    hide Next, Serve;
    var step := NextEvolves(cfg, s, s');
  }

  /** What the server does with a request of this call. */
  lemma ServeEffect(call: Call, store: Store, store': Store, replies: seq<seq<byte>>)
    requires Answers(store, OpOf(Encode(call)), store', replies)
    ensures store' == if call.PutCall? && !IsDumpCall(call) then store[call.key := call.value] else store
    ensures call.GetCall? && call.key != [] ==> |replies| == 1 && IsGetReply(Lookup(store, call.key), replies[0])
    ensures call.GetCall? && call.key == [] ==> replies == [[]]
  {
    hide OpOf, Encode, IsDump, Diverges;
    OpOfCall(call);
  }

  ghost predicate PutFor(s: State, d: Datagram, k: CStr, v: CStr) {
    && d.Request? && d.sid in s.sessions
    && var call := s.sessions[d.sid].call;
    && call.PutCall? && !IsDumpCall(call) && Admitted(call) && call.key == k && call.value == v
  }

  /** A store changes only by a put request that is in flight. */
  lemma StoreChange(cfg: Config, s: State, s': State, a: Addr) returns (put: Option<Datagram>)
    requires Inv(cfg, s) && Next(cfg, s, s') && a in s.stores
    ensures a in s'.stores
    ensures put.None? ==> s'.stores[a] == s.stores[a]
    ensures put.Some? ==>
      && put.value in s.net && put.value.sid in s.sessions
      && var call := s.sessions[put.value.sid].call;
      && call.PutCall? && PutFor(s, put.value, call.key, call.value)
      && s'.stores[a] == s.stores[a][call.key := call.value]
  {
    hide Next, Answers, OpOf, SessionOk, DatagramOk, SessionsEvolve, ReplyTo, Encode, TargetsOf;
    var step := NextEvolves(cfg, s, s');
    put := None;
    if s'.stores != s.stores && step.d.server == a {
      var ss := s.sessions[step.d.sid];
      RequestBytes(cfg, ss, s.net[step.d], step.d);
      ServeEffect(ss.call, s.stores[a], step.store, step.replies);
      if ss.call.PutCall? && !IsDumpCall(ss.call) {
        put := Some(step.d);
      }
    }
  }

  /** A new reply answers a request that was in flight, and tells what the server has then. */
  lemma NewReply(cfg: Config, s: State, s': State, d: Datagram)
    requires Inv(cfg, s) && Next(cfg, s, s') && d in s'.net && d !in s.net && d.Reply?
    ensures d.sid in s.sessions && d.server in s.stores && d.server in s'.stores
    ensures
      var call := s.sessions[d.sid].call;
      && Admitted(call)
      && (call.PutCall? && !IsDumpCall(call) ==> Holds(s', d.server, call.key, call.value))
      && (call.GetCall? && call.key != [] ==> IsGetReply(Lookup(s.stores[d.server], call.key), d.bytes))
      && (call.GetCall? && call.key == [] ==> d.bytes == [])
  {
    hide Next, Answers, OpOf, SessionOk, DatagramOk, SessionsEvolve, ReplyTo, IsGetReply, Encode, TargetsOf;
    var step := NextEvolves(cfg, s, s');
    var ss := s.sessions[step.d.sid];
    RequestBytes(cfg, ss, s.net[step.d], step.d);
    ServeEffect(ss.call, s.stores[step.d.server], step.store, step.replies);
    ReplyToKind(step.d, step.replies);
    if !IsDumpCall(ss.call) {
      OneReply(cfg, s, s', step.d, step.store, step.replies);
    }
  }

  /** Answer i of a session after a step was heard before, or was a reply in flight. */
  lemma NewAnswer(cfg: Config, s: State, s': State, sid: nat, i: nat)
    requires Next(cfg, s, s') && sid in s'.sessions && i < |s'.sessions[sid].heard|
    ensures sid in s.sessions && s'.sessions[sid].call == s.sessions[sid].call
    ensures
      var a := s'.sessions[sid].heard[i];
      || (i < |s.sessions[sid].heard| && a == s.sessions[sid].heard[i])
      || Reply(sid, a.server, a.bytes) in s.net
  {
    hide Next, Serve;
    var step := NextEvolves(cfg, s, s');
  }

  // ---------- no fabrication ----------

  ghost predicate Holds(s: State, a: Addr, k: CStr, v: CStr) {
    a in s.stores && k in s.stores[a] && s.stores[a][k] == v
  }

  ghost predicate Puts(ss: Session, k: CStr, v: CStr) {
    ss.call.PutCall? && Admitted(ss.call) && ss.call.key == k && ss.call.value == v
  }

  /** Some client has called network_put with this key and value. */
  ghost predicate Wrote(s: State, k: CStr, v: CStr) {
    exists sid :: sid in s.sessions && Puts(s.sessions[sid], k, v)
  }

  /** An answer to a read of k that carries a value carries one that was written to k. */
  ghost predicate Genuine(s: State, k: CStr, bytes: seq<byte>) {
    ReadReply(bytes).Some? ==> Wrote(s, k, ReadReply(bytes).value)
  }

  ghost predicate Reads(ss: Session) {
    ss.call.GetCall? && ss.call.key != []
  }

  ghost predicate Origin(s: State) {
    && (forall a, k :: a in s.stores && k in s.stores[a] ==> Wrote(s, k, s.stores[a][k]))
    && (forall d :: d in s.net && d.Reply? && d.sid in s.sessions && Reads(s.sessions[d.sid]) ==>
          Genuine(s, s.sessions[d.sid].call.key, d.bytes))
    && (forall sid, i :: sid in s.sessions && Reads(s.sessions[sid]) && 0 <= i < |s.sessions[sid].heard| ==>
          Genuine(s, s.sessions[sid].call.key, s.sessions[sid].heard[i].bytes))
  }

  lemma WroteStays(cfg: Config, s: State, s': State, k: CStr, v: CStr)
    requires Next(cfg, s, s') && Wrote(s, k, v)
    ensures Wrote(s', k, v)
  {
    hide Next, Admitted;
    var sid :| sid in s.sessions && Puts(s.sessions[sid], k, v);
    SessionsStay(cfg, s, s', sid);
    assert Puts(s'.sessions[sid], k, v);
  }

  lemma GenuineStays(cfg: Config, s: State, s': State, k: CStr, bytes: seq<byte>)
    requires Next(cfg, s, s') && Genuine(s, k, bytes)
    ensures Genuine(s', k, bytes)
  {
    hide Next, ReadReply;
    if ReadReply(bytes).Some? {
      WroteStays(cfg, s, s', k, ReadReply(bytes).value);
    }
  }

  lemma OriginOfStores(cfg: Config, s: State, s': State, a: Addr, k: CStr)
    requires Inv(cfg, s) && Origin(s) && Next(cfg, s, s') && a in s.stores && a in s'.stores && k in s'.stores[a]
    ensures Wrote(s', k, s'.stores[a][k])
  {
    hide Inv, Next, Admitted;
    var put := StoreChange(cfg, s, s', a);
    if put.Some? && s.sessions[put.value.sid].call.key == k {
      assert Puts(s.sessions[put.value.sid], k, s'.stores[a][k]);
    } else {
      assert k in s.stores[a];
    }
    WroteStays(cfg, s, s', k, s'.stores[a][k]);
  }

  lemma OriginOfReply(cfg: Config, s: State, s': State, d: Datagram)
    requires Inv(cfg, s) && Origin(s) && Next(cfg, s, s')
    requires d in s'.net && d.Reply? && d.sid in s.sessions && Reads(s.sessions[d.sid])
    ensures Genuine(s', s.sessions[d.sid].call.key, d.bytes)
  {
    hide Inv, Next, IsGetReply, ReadReply, Admitted;
    var k := s.sessions[d.sid].call.key;
    if d !in s.net {
      NewReply(cfg, s, s', d);
      var found := Lookup(s.stores[d.server], k);
      ReplyIsRead(found, d.bytes);
      if found.Some? {
        WrittenLength(s, k, found.value);
      }
    }
    GenuineStays(cfg, s, s', k, d.bytes);
  }

  lemma WrittenLength(s: State, k: CStr, v: CStr)
    requires Wrote(s, k, v)
    ensures |v| <= MAX_MSG_ELEM_SIZE
  {
  }

  lemma NoStoreAppears(cfg: Config, s: State, s': State, a: Addr)
    requires Next(cfg, s, s') && a in s'.stores
    ensures a in s.stores
  {
    hide Next, Answers, SessionsEvolve, ReplyTo;
    var step := NextEvolves(cfg, s, s');
  }

  lemma OriginNext(cfg: Config, s: State, s': State)
    requires Inv(cfg, s) && Inv(cfg, s') && Origin(s) && Next(cfg, s, s')
    ensures Origin(s')
  {
    hide Inv, Next, Genuine, Wrote;
    forall a, k | a in s'.stores && k in s'.stores[a] ensures Wrote(s', k, s'.stores[a][k]) {
      NoStoreAppears(cfg, s, s', a);
      OriginOfStores(cfg, s, s', a, k);
    }
    forall d | d in s'.net && d.Reply? && d.sid in s'.sessions && Reads(s'.sessions[d.sid])
      ensures Genuine(s', s'.sessions[d.sid].call.key, d.bytes)
    {
      ReplyHasSession(cfg, s, s', d);
      SessionsStay(cfg, s, s', d.sid);
      OriginOfReply(cfg, s, s', d);
    }
    forall sid, i | sid in s'.sessions && Reads(s'.sessions[sid]) && 0 <= i < |s'.sessions[sid].heard|
      ensures Genuine(s', s'.sessions[sid].call.key, s'.sessions[sid].heard[i].bytes)
    {
      NewAnswer(cfg, s, s', sid, i);
      var answer := s'.sessions[sid].heard[i];
      if i >= |s.sessions[sid].heard| || answer != s.sessions[sid].heard[i] {
        assert Genuine(s, s.sessions[sid].call.key, Reply(sid, answer.server, answer.bytes).bytes);
      }
      GenuineStays(cfg, s, s', s.sessions[sid].call.key, answer.bytes);
    }
  }

  /** A reply in flight belongs to a session that had begun before the step. */
  lemma ReplyHasSession(cfg: Config, s: State, s': State, d: Datagram)
    requires Inv(cfg, s) && Next(cfg, s, s') && d in s'.net && d.Reply?
    ensures d.sid in s.sessions
  {
    hide Next, SessionOk, DatagramOk, IsGetReply, Admitted;
    if d !in s.net {
      NewReply(cfg, s, s', d);
    }
  }

  lemma {:induction false} OriginRun(cfg: Config, run: seq<State>, i: nat)
    requires IsRun(cfg, run) && i < |run|
    ensures Origin(run[i])
  {
    hide Inv, Next;
    if i > 0 {
      OriginRun(cfg, run, i - 1);
      InvRun(cfg, run, i - 1);
      InvRun(cfg, run, i);
      assert Next(cfg, run[i - 1], run[i - 1 + 1]);
      OriginNext(cfg, run[i - 1], run[i]);
    }
  }

  /** A value with a vote was said by some answer. */
  lemma {:induction false} VoteWitness(heard: seq<Answer>, v: CStr) returns (i: nat)
    requires Votes(Payloads(heard), Some(v)) > 0
    ensures i < |heard| && ReadReply(heard[i].bytes) == Some(v)
  {
    var n := |heard| - 1;
    assert Payloads(heard)[..n] == Payloads(heard[..n]);
    if ReadReply(heard[n].bytes) == Some(v) {
      i := n;
    } else {
      i := VoteWitness(heard[..n], v);
    }
  }

  /** Whatever a server stores, and whatever a read of a non-empty key returns, was written to that key. */
  lemma NoFabrication(cfg: Config, run: seq<State>, i: nat)
    requires IsRun(cfg, run) && i < |run|
    ensures forall a, k :: a in run[i].stores && k in run[i].stores[a] ==> Wrote(run[i], k, run[i].stores[a][k])
    ensures forall sid, v ::
      sid in run[i].sessions && Reads(run[i].sessions[sid]) && run[i].sessions[sid].result == GetDone(Value(v)) ==>
        Wrote(run[i], run[i].sessions[sid].call.key, v)
  {
    hide Next, Wrote, ReadReply, SessionOk, DatagramOk;
    OriginRun(cfg, run, i);
    InvRun(cfg, run, i);
    var s := run[i];
    forall sid, v | sid in s.sessions && Reads(s.sessions[sid]) && s.sessions[sid].result == GetDone(Value(v))
      ensures Wrote(s, s.sessions[sid].call.key, v)
    {
      assert SessionOk(cfg, s.sessions[sid]);
      var j := ReturnedVote(cfg, s.sessions[sid], v);
      assert Genuine(s, s.sessions[sid].call.key, s.sessions[sid].heard[j].bytes);
    }
  }

  /** A read that returns a value has heard it. */
  lemma ReturnedVote(cfg: Config, ss: Session, v: CStr) returns (i: nat)
    requires SessionOk(cfg, ss) && ss.result == GetDone(Value(v))
    ensures i < |ss.heard| && ReadReply(ss.heard[i].bytes) == Some(v)
    ensures Threshold(ss.call.r).Some? && Votes(Payloads(ss.heard), Some(v)) >= Threshold(ss.call.r).value
  {
    hide GetOutcome, TargetsOf, Votes, Threshold, ReadReply;
    OutcomeByVotes(Payloads(ss.heard), ss.call.r);
    i := VoteWitness(ss.heard, v);
  }

  // ---------- a successful write has been applied ----------

  /** Since the call began, server a has had the value at some moment up to i. */
  ghost predicate HeldSince(run: seq<State>, i: nat, sid: nat, a: Addr, k: CStr, v: CStr) {
    exists j: nat :: j <= i && j < |run| && sid in run[j].sessions && Holds(run[j], a, k, v)
  }

  ghost predicate IsPut(ss: Session, k: CStr, v: CStr) {
    ss.call.PutCall? && ss.call.key == k && ss.call.value == v && !IsDumpCall(ss.call)
  }

  /** Every acknowledgement of the write, in flight or received, comes from a server that has applied it. */
  ghost predicate AcksApplied(run: seq<State>, i: nat, sid: nat, k: CStr, v: CStr)
    requires i < |run|
  {
    && (forall d :: d in run[i].net && d.Reply? && d.sid == sid ==> HeldSince(run, i, sid, d.server, k, v))
    && (sid in run[i].sessions ==>
          forall j :: 0 <= j < |run[i].sessions[sid].heard| ==>
            HeldSince(run, i, sid, run[i].sessions[sid].heard[j].server, k, v))
  }

  lemma HeldLater(run: seq<State>, i: nat, sid: nat, a: Addr, k: CStr, v: CStr)
    requires HeldSince(run, i, sid, a, k, v)
    ensures HeldSince(run, i + 1, sid, a, k, v)
  {
    hide Holds;
  }

  lemma AckInFlight(cfg: Config, run: seq<State>, i: nat, sid: nat, k: CStr, v: CStr, d: Datagram)
    requires IsRun(cfg, run) && i + 1 < |run| && AcksApplied(run, i, sid, k, v)
    requires sid in run[i].sessions && IsPut(run[i].sessions[sid], k, v)
    requires d in run[i + 1].net && d.Reply? && d.sid == sid
    ensures HeldSince(run, i + 1, sid, d.server, k, v)
  {
    hide Next, Inv, Holds, Admitted;
    assert Next(cfg, run[i], run[i + 1]);
    if d in run[i].net {
      HeldLater(run, i, sid, d.server, k, v);
    } else {
      InvRun(cfg, run, i);
      NewReply(cfg, run[i], run[i + 1], d);
      SessionsStay(cfg, run[i], run[i + 1], sid);
    }
  }

  lemma AckHeard(cfg: Config, run: seq<State>, i: nat, sid: nat, k: CStr, v: CStr, j: nat)
    requires IsRun(cfg, run) && i + 1 < |run| && AcksApplied(run, i, sid, k, v)
    requires sid in run[i + 1].sessions && j < |run[i + 1].sessions[sid].heard|
    ensures HeldSince(run, i + 1, sid, run[i + 1].sessions[sid].heard[j].server, k, v)
  {
    hide Next, Holds, HeldSince;
    assert Next(cfg, run[i], run[i + 1]);
    NewAnswer(cfg, run[i], run[i + 1], sid, j);
    var a := run[i + 1].sessions[sid].heard[j];
    if j >= |run[i].sessions[sid].heard| || a != run[i].sessions[sid].heard[j] {
      assert HeldSince(run, i, sid, Reply(sid, a.server, a.bytes).server, k, v);
    }
    HeldLater(run, i, sid, a.server, k, v);
  }

  lemma {:induction false} AcksAppliedRun(cfg: Config, run: seq<State>, i: nat, sid: nat, k: CStr, v: CStr)
    requires IsRun(cfg, run) && i < |run|
    requires sid in run[i].sessions && IsPut(run[i].sessions[sid], k, v)
    ensures AcksApplied(run, i, sid, k, v)
  {
    hide Next, Inv, HeldSince;
    if i == 0 {
    } else {
      var h := i - 1;
      assert Next(cfg, run[h], run[h + 1]);
      InvRun(cfg, run, h);
      if sid in run[h].sessions {
        SessionsStay(cfg, run[h], run[i], sid);
        AcksAppliedRun(cfg, run, h, sid, k, v);
        forall d | d in run[i].net && d.Reply? && d.sid == sid ensures HeldSince(run, i, sid, d.server, k, v) {
          AckInFlight(cfg, run, h, sid, k, v, d);
        }
        forall j | 0 <= j < |run[i].sessions[sid].heard|
          ensures HeldSince(run, i, sid, run[i].sessions[sid].heard[j].server, k, v)
        {
          AckHeard(cfg, run, h, sid, k, v, j);
        }
      } else {
        JustBegun(cfg, run[h], run[i], sid);
      }
    }
  }

  /** A session that has just begun has heard nothing, and no reply to it is in flight. */
  lemma JustBegun(cfg: Config, s: State, s': State, sid: nat)
    requires Inv(cfg, s) && Next(cfg, s, s') && sid !in s.sessions && sid in s'.sessions
    ensures s'.sessions[sid].heard == []
    ensures forall d :: d in s'.net && d.Reply? ==> d.sid != sid
  {
    hide Next, Inv, Serve;
    var step := NextEvolves(cfg, s, s');
    forall d | d in s'.net && d.Reply? ensures d.sid != sid {
      ReplyHasSession(cfg, s, s', d);
    }
  }

  function Sources(heard: seq<Answer>): set<Addr> {
    set i | 0 <= i < |heard| :: heard[i].server
  }

  lemma {:induction false} SourcesCount(heard: seq<Answer>)
    requires forall i, j :: 0 <= i < j < |heard| ==> heard[i].server != heard[j].server
    ensures |Sources(heard)| == |heard|
  {
    if heard != [] {
      var n := |heard| - 1;
      SourcesCount(heard[..n]);
      SourcesSnoc(heard, n);
      assert heard[n].server !in Sources(heard[..n]);
    }
  }

  lemma SourcesSnoc(heard: seq<Answer>, n: nat)
    requires |heard| == n + 1
    ensures Sources(heard) == Sources(heard[..n]) + {heard[n].server}
  {
    forall a ensures a in Sources(heard) <==> a in Sources(heard[..n]) + {heard[n].server} {
      if a in Sources(heard[..n]) {
        var i :| 0 <= i < n && heard[..n][i].server == a;
        assert heard[i].server == a;
      }
    }
  }

  /** Replicas of the call's key that have all applied the write since it began. */
  ghost predicate Appliers(cfg: Config, run: seq<State>, i: nat, sid: nat, call: Call, servers: set<Addr>) {
    && call.PutCall?
    && forall a :: a in servers ==> a in TargetsOf(cfg, call) && HeldSince(run, i, sid, a, call.key, call.value)
  }

  /** At least w different replicas, and at least one, have applied the write since it began. */
  ghost predicate AppliedByQuorum(cfg: Config, run: seq<State>, i: nat, sid: nat)
    requires i < |run| && sid in run[i].sessions && run[i].sessions[sid].call.PutCall?
  {
    var call := run[i].sessions[sid].call;
    exists servers :: Appliers(cfg, run, i, sid, call, servers) && |servers| >= 1 && |servers| >= call.w
  }

  lemma PutApplied(cfg: Config, run: seq<State>, i: nat, sid: nat)
    requires IsRun(cfg, run) && i < |run| && sid in run[i].sessions
    requires run[i].sessions[sid].call.PutCall? && !IsDumpCall(run[i].sessions[sid].call)
    requires run[i].sessions[sid].result == PutDone(ErrNone)
    ensures AppliedByQuorum(cfg, run, i, sid)
  {
    hide Next, TargetsOf, HeldSince;
    var ss := run[i].sessions[sid];
    InvRun(cfg, run, i);
    assert SessionOk(cfg, ss);
    AcksAppliedRun(cfg, run, i, sid, ss.call.key, ss.call.value);
    SourcesCount(ss.heard);
    forall a | a in Sources(ss.heard)
      ensures a in TargetsOf(cfg, ss.call) && HeldSince(run, i, sid, a, ss.call.key, ss.call.value)
    {
      var j :| 0 <= j < |ss.heard| && ss.heard[j].server == a;
    }
    assert Appliers(cfg, run, i, sid, ss.call, Sources(ss.heard));
  }

  // ---------- reading the last write ----------

  /** No put of another value for k is in flight. */
  ghost predicate Clean(s: State, k: CStr, v: CStr) {
    forall d :: d in s.net && d.Request? && d.sid in s.sessions ==>
      var call := s.sessions[d.sid].call;
      call.PutCall? && call.key == k ==> call.value == v
  }

  lemma HoldsStays(cfg: Config, s: State, s': State, a: Addr, k: CStr, v: CStr)
    requires Inv(cfg, s) && Next(cfg, s, s') && Clean(s, k, v) && Holds(s, a, k, v)
    ensures Holds(s', a, k, v)
  {
    hide Next, Inv, Admitted;
    var put := StoreChange(cfg, s, s', a);
  }

  /** Whatever has acknowledged write p has its value. */
  ghost predicate Acked(s: State, p: nat, k: CStr, v: CStr) {
    && (forall d :: d in s.net && d.Reply? && d.sid == p ==> Holds(s, d.server, k, v))
    && (p in s.sessions ==>
          forall j :: 0 <= j < |s.sessions[p].heard| ==> Holds(s, s.sessions[p].heard[j].server, k, v))
  }

  lemma AckedNext(cfg: Config, s: State, s': State, p: nat, k: CStr, v: CStr)
    requires Inv(cfg, s) && Next(cfg, s, s') && Clean(s, k, v)
    requires p in s'.sessions && IsPut(s'.sessions[p], k, v)
    requires p in s.sessions ==> Acked(s, p, k, v)
    ensures Acked(s', p, k, v)
  {
    hide Next, Inv, Holds, Clean, Admitted;
    if p in s.sessions {
      SessionsStay(cfg, s, s', p);
      forall d | d in s'.net && d.Reply? && d.sid == p ensures Holds(s', d.server, k, v) {
        if d in s.net {
          HoldsStays(cfg, s, s', d.server, k, v);
        } else {
          NewReply(cfg, s, s', d);
        }
      }
      forall j | 0 <= j < |s'.sessions[p].heard| ensures Holds(s', s'.sessions[p].heard[j].server, k, v) {
        NewAnswer(cfg, s, s', p, j);
        var a := s'.sessions[p].heard[j];
        if j >= |s.sessions[p].heard| || a != s.sessions[p].heard[j] {
          assert Holds(s, Reply(p, a.server, a.bytes).server, k, v);
        }
        HoldsStays(cfg, s, s', a.server, k, v);
      }
    } else {
      JustBegun(cfg, s, s', p);
    }
  }

  lemma {:induction false} AckedRun(cfg: Config, run: seq<State>, a: nat, b: nat, p: nat, k: CStr, v: CStr)
    requires IsRun(cfg, run) && a <= b < |run|
    requires p !in run[a].sessions
    requires p in run[b].sessions && IsPut(run[b].sessions[p], k, v)
    requires forall i :: a <= i <= b ==> Clean(run[i], k, v)
    ensures Acked(run[b], p, k, v)
    decreases b
  {
    hide Next, Inv, Acked, Clean;
    var h := b - 1;
    assert Next(cfg, run[h], run[h + 1]);
    InvRun(cfg, run, h);
    if p in run[h].sessions {
      SessionsStay(cfg, run[h], run[b], p);
      AckedRun(cfg, run, a, h, p, k, v);
    }
    AckedNext(cfg, run[h], run[b], p, k, v);
  }

  /** The servers have the value, and what they have told read g is that value. */
  ghost predicate Settled(s: State, servers: set<Addr>, g: nat, k: CStr, v: CStr) {
    && (forall a :: a in servers ==> Holds(s, a, k, v))
    && (forall d :: d in s.net && d.Reply? && d.sid == g && d.server in servers ==> ReadReply(d.bytes) == Some(v))
    && (g in s.sessions ==>
          forall j :: 0 <= j < |s.sessions[g].heard| && s.sessions[g].heard[j].server in servers ==>
            ReadReply(s.sessions[g].heard[j].bytes) == Some(v))
  }

  ghost predicate IsGet(ss: Session, k: CStr) {
    ss.call.GetCall? && ss.call.key == k
  }

  lemma HeldIsRead(s: State, a: Addr, k: CStr, v: CStr, bytes: seq<byte>)
    requires Holds(s, a, k, v) && |v| <= MAX_MSG_ELEM_SIZE
    requires IsGetReply(Lookup(s.stores[a], k), bytes)
    ensures ReadReply(bytes) == Some(v)
  {
    hide IsGetReply, ReadReply;
    ReplyIsRead(Some(v), bytes);
  }

  lemma SettledNext(cfg: Config, s: State, s': State, servers: set<Addr>, g: nat, k: CStr, v: CStr)
    requires Inv(cfg, s) && Next(cfg, s, s') && Clean(s, k, v) && Settled(s, servers, g, k, v)
    requires k != [] && |v| <= MAX_MSG_ELEM_SIZE
    requires g in s'.sessions ==> IsGet(s'.sessions[g], k)
    ensures Settled(s', servers, g, k, v)
  {
    hide Next, Inv, Holds, Clean, Admitted, IsGetReply, ReadReply;
    forall a | a in servers ensures Holds(s', a, k, v) {
      HoldsStays(cfg, s, s', a, k, v);
    }
    forall d | d in s'.net && d.Reply? && d.sid == g && d.server in servers ensures ReadReply(d.bytes) == Some(v) {
      if d !in s.net {
        NewReply(cfg, s, s', d);
        SessionsStay(cfg, s, s', g);
        HeldIsRead(s, d.server, k, v, d.bytes);
      }
    }
    if g in s'.sessions {
      forall j | 0 <= j < |s'.sessions[g].heard| && s'.sessions[g].heard[j].server in servers
        ensures ReadReply(s'.sessions[g].heard[j].bytes) == Some(v)
      {
        NewAnswer(cfg, s, s', g, j);
        var a := s'.sessions[g].heard[j];
        if j >= |s.sessions[g].heard| || a != s.sessions[g].heard[j] {
          assert Reply(g, a.server, a.bytes) in s.net;
        }
      }
    }
  }

  lemma {:induction false} SettledRun(cfg: Config, run: seq<State>, b: nat, c: nat, servers: set<Addr>, g: nat,
          k: CStr, v: CStr)
    requires IsRun(cfg, run) && b <= c < |run|
    requires g !in run[b].sessions && (g in run[c].sessions ==> IsGet(run[c].sessions[g], k))
    requires forall a :: a in servers ==> Holds(run[b], a, k, v)
    requires forall i :: b <= i <= c ==> Clean(run[i], k, v)
    requires k != [] && |v| <= MAX_MSG_ELEM_SIZE
    ensures Settled(run[c], servers, g, k, v)
    decreases c
  {
    hide Next, Holds, Clean, ReadReply, DatagramOk, SessionOk;
    InvRun(cfg, run, b);
    if b < c {
      var h := c - 1;
      assert Next(cfg, run[h], run[h + 1]);
      InvRun(cfg, run, h);
      if g in run[h].sessions {
        SessionsStay(cfg, run[h], run[c], g);
      }
      SettledRun(cfg, run, b, h, servers, g, k, v);
      SettledNext(cfg, run[h], run[c], servers, g, k, v);
    }
  }

  /** The servers whose answer is a given value. */
  function Voters(heard: seq<Answer>, v: CStr): set<Addr> {
    set i | 0 <= i < |heard| && ReadReply(heard[i].bytes) == Some(v) :: heard[i].server
  }

  lemma {:induction false} VotersCount(heard: seq<Answer>, v: CStr)
    requires forall i, j :: 0 <= i < j < |heard| ==> heard[i].server != heard[j].server
    ensures |Voters(heard, v)| == Votes(Payloads(heard), Some(v))
  {
    hide ReadReply;
    if heard != [] {
      var n := |heard| - 1;
      VotersCount(heard[..n], v);
      VotersSnoc(heard, n, v);
      VotesSnoc(heard, n, v);
      VotersAmong(heard[..n], v, heard[n].server);
    }
  }

  lemma VotesSnoc(heard: seq<Answer>, n: nat, v: CStr)
    requires |heard| == n + 1
    ensures Votes(Payloads(heard), Some(v)) ==
            Votes(Payloads(heard[..n]), Some(v)) + if ReadReply(heard[n].bytes) == Some(v) then 1 else 0
  {
    hide ReadReply;
    assert Payloads(heard)[..n] == Payloads(heard[..n]);
  }

  lemma VotersAmong(heard: seq<Answer>, v: CStr, a: Addr)
    requires forall i :: 0 <= i < |heard| ==> heard[i].server != a
    ensures a !in Voters(heard, v)
  {
  }

  lemma SubsetSize(a: set<Addr>, b: set<Addr>)
    requires a <= b
    ensures |a| <= |b|
  {
    assert b == a + (b - a);
  }

  lemma VotersSnoc(heard: seq<Answer>, n: nat, v: CStr)
    requires |heard| == n + 1
    ensures Voters(heard, v) == Voters(heard[..n],
      v) + if ReadReply(heard[n].bytes) == Some(v) then {heard[n].server} else {}
  {
    hide ReadReply;
    forall a ensures a in Voters(heard, v) <==>
      a in Voters(heard[..n], v) + if ReadReply(heard[n].bytes) == Some(v) then {heard[n].server} else {}
    {
      if a in Voters(heard[..n], v) {
        var i :| 0 <= i < n && ReadReply(heard[..n][i].bytes) == Some(v) && heard[..n][i].server == a;
        assert heard[i] == heard[..n][i];
      }
    }
  }

  function Max(m: nat, n: nat): nat {
    if m > n then m else n
  }

  ghost function AddrSet(addrs: seq<Addr>): (s: set<Addr>)
    ensures |s| <= |addrs|
  {
    if addrs == [] then {} else AddrSet(addrs[..|addrs| - 1]) + {addrs[|addrs| - 1]}
  }

  lemma {:induction false} AddrSetMember(addrs: seq<Addr>, a: Addr)
    ensures a in AddrSet(addrs) <==> a in addrs
  {
    if addrs != [] {
      AddrSetMember(addrs[..|addrs| - 1], a);
      assert addrs == addrs[..|addrs| - 1] + [addrs[|addrs| - 1]];
    }
  }

  /** Two sets of replicas of one key that do not meet are together no larger than the longer replica list. */
  lemma DisjointReplicas(cfg: Config, k: CStr, m: nat, n: nat, a: set<Addr>, b: set<Addr>)
    requires m <= |Servers(cfg.ring)| && n <= |Servers(cfg.ring)|
    requires forall x :: x in a ==> x in Targets(cfg.ring, m, k, cfg.lib)
    requires forall x :: x in b ==> x in Targets(cfg.ring, n, k, cfg.lib)
    requires a !! b
    ensures |a| + |b| <= Max(m, n)
  {
    hide Targets;
    var all := Targets(cfg.ring, Max(m, n), k, cfg.lib);
    TargetsPrefix(cfg.ring, m, Max(m, n), k, cfg.lib);
    TargetsPrefix(cfg.ring, n, Max(m, n), k, cfg.lib);
    TargetsDistinct(cfg.ring, Max(m, n), k, cfg.lib);
    forall x | x in a + b ensures x in AddrSet(all) {
      AddrSetMember(all, x);
    }
    SubsetSize(a + b, AddrSet(all));
    assert |a + b| == |a| + |b|;
  }

  /** From before write p until read g has returned u, no put of another value for k is in flight. */
  ghost predicate ReadAfterWrite(cfg: Config, run: seq<State>, a: nat, b: nat, c: nat, p: nat, g: nat,
                                 put: Call, get: Call, u: CStr)
  {
    && IsRun(cfg, run) && a <= b <= c < |run|
    && put.PutCall? && get.GetCall? && put.key == get.key
    && p !in run[a].sessions && p in run[b].sessions && g !in run[b].sessions && g in run[c].sessions
    && run[b].sessions[p].call == put && run[b].sessions[p].result == PutDone(ErrNone)
    && run[c].sessions[g].call == get && run[c].sessions[g].result == GetDone(Value(u))
    && forall i :: a <= i <= c ==> Clean(run[i], put.key, put.value)
  }

  /** Write quorum and read threshold overlap in the longer of the two replica lists. */
  predicate QuorumsMeet(put: Call, get: Call)
    requires put.PutCall? && get.GetCall?
  {
    Threshold(get.r).Some? ==> Threshold(get.r).value + put.w > Max(put.n, get.n)
  }

  /** The servers that acknowledged the write. */
  lemma WriteQuorum(cfg: Config, run: seq<State>, a: nat, b: nat, p: nat, put: Call) returns (servers: set<Addr>)
    requires IsRun(cfg, run) && a <= b < |run| && put.PutCall? && !IsDumpCall(put)
    requires p !in run[a].sessions && p in run[b].sessions
    requires run[b].sessions[p].call == put && run[b].sessions[p].result == PutDone(ErrNone)
    requires forall i :: a <= i <= b ==> Clean(run[i], put.key, put.value)
    ensures |servers| >= put.w && Admitted(put) && put.n <= |Servers(cfg.ring)|
    ensures forall x :: x in servers ==> x in TargetsOf(cfg, put) && Holds(run[b], x, put.key, put.value)
  {
    hide Next, TargetsOf, Holds, Clean;
    InvRun(cfg, run, b);
    var ss := run[b].sessions[p];
    assert SessionOk(cfg, ss);
    AckedRun(cfg, run, a, b, p, put.key, put.value);
    servers := Sources(ss.heard);
    SourcesCount(ss.heard);
  }

  /** The servers whose answers made the read return u. */
  lemma ReadQuorum(cfg: Config, ss: Session, u: CStr) returns (servers: set<Addr>)
    requires SessionOk(cfg, ss) && ss.result == GetDone(Value(u))
    ensures Threshold(ss.call.r).Some? && |servers| >= Threshold(ss.call.r).value
    ensures ss.call.n <= |Servers(cfg.ring)|
    ensures forall x :: x in servers ==> x in TargetsOf(cfg, ss.call)
    ensures forall x :: x in servers ==>
      (exists j :: 0 <= j < |ss.heard| && ss.heard[j].server == x && ReadReply(ss.heard[j].bytes) == Some(u))
  {
    hide TargetsOf, ReadReply, GetOutcome, Threshold;
    var i := ReturnedVote(cfg, ss, u);
    VotersCount(ss.heard, u);
    servers := Voters(ss.heard, u);
  }

  /**
   * Read your quorum: a read that begins after a write has succeeded, and returns a value,
   * returns the written value, if the quorums meet and no other value for the key is in
   * flight between the start of the write and the end of the read.
   */
  lemma ReadYourQuorum(cfg: Config, run: seq<State>, a: nat, b: nat, c: nat, p: nat, g: nat, put: Call, get: Call,
          u: CStr)
    requires ReadAfterWrite(cfg, run, a, b, c, p, g, put, get, u)
    requires put.key != [] && QuorumsMeet(put, get)
    ensures u == put.value
  {
    hide Next, TargetsOf, Holds, Clean, ReadReply, Threshold, SessionOk, DatagramOk;
    var k, v := put.key, put.value;
    var writers := WriteQuorum(cfg, run, a, b, p, put);
    SettledRun(cfg, run, b, c, writers, g, k, v);
    InvRun(cfg, run, c);
    var readers := ReadQuorum(cfg, run[c].sessions[g], u);
    if u != v {
      forall x | x in readers ensures x !in writers {
        var j :| 0 <= j < |run[c].sessions[g].heard| && run[c].sessions[g].heard[j].server == x
          && ReadReply(run[c].sessions[g].heard[j].bytes) == Some(u);
      }
      QuorumsDisjoint(cfg, put, get, writers, readers);
      assert false;
    }
  }

  lemma QuorumsDisjoint(cfg: Config, put: Call, get: Call, writers: set<Addr>, readers: set<Addr>)
    requires put.PutCall? && get.GetCall? && put.key == get.key
    requires put.n <= |Servers(cfg.ring)| && get.n <= |Servers(cfg.ring)|
    requires forall x :: x in writers ==> x in TargetsOf(cfg, put)
    requires forall x :: x in readers ==> x in TargetsOf(cfg, get)
    requires writers !! readers
    requires |writers| >= put.w && Threshold(get.r).Some? && |readers| >= Threshold(get.r).value
    ensures !QuorumsMeet(put, get)
  {
    hide Targets;
    DisjointReplicas(cfg, put.key, put.n, get.n, writers, readers);
  }
}
