/**
 * The quorum condition is exact: when write and read quorum need not meet, there is a run
 * in which a read that begins after a successful write returns an older value.
 */
module Stale {
  import opened Bytes
  import opened HashTable
  import opened NodeList
  import opened Ring
  import opened Wire
  import opened Server
  import opened Network
  import opened Protocol
  import opened Quorum
  import opened Limits

  // ---------- what phases of a call do ----------

  function After(call: Call, store: Store): Store {
    if call.PutCall? then store[call.key := call.value] else store
  }

  ghost function Applied(stores: map<Addr, Store>, addrs: seq<Addr>, call: Call): (after: map<Addr, Store>)
    ensures after.Keys == stores.Keys
  {
    if addrs == [] then stores
    else
      var before := Applied(stores, addrs[..|addrs| - 1], call);
      var a := addrs[|addrs| - 1];
      if a in before then before[a := After(call, before[a])] else before
  }

  lemma {:induction false} AppliedElsewhere(stores: map<Addr, Store>, addrs: seq<Addr>, call: Call, a: Addr)
    requires a in stores && a !in addrs
    ensures Applied(stores, addrs, call)[a] == stores[a]
  {
    if addrs != [] {
      AppliedElsewhere(stores, addrs[..|addrs| - 1], call, a);
      assert addrs[|addrs| - 1] in addrs;
    }
  }

  lemma {:induction false} AppliedThere(stores: map<Addr, Store>, addrs: seq<Addr>, call: Call, a: Addr)
    requires a in stores && a in addrs && call.PutCall?
    ensures Lookup(Applied(stores, addrs, call)[a], call.key) == Some(call.value)
  {
    var front, last := addrs[..|addrs| - 1], addrs[|addrs| - 1];
    assert addrs == front + [last];
    if a in front {
      AppliedThere(stores, front, call, a);
    }
  }

  lemma {:induction false} GetApplies(stores: map<Addr, Store>, addrs: seq<Addr>, call: Call)
    requires call.GetCall?
    ensures Applied(stores, addrs, call) == stores
  {
    if addrs != [] {
      GetApplies(stores, addrs[..|addrs| - 1], call);
    }
  }

  function RepliesFrom(sid: nat, addrs: seq<Addr>, bytes: seq<byte>): multiset<Datagram> {
    if addrs == [] then multiset{}
    else RepliesFrom(sid, addrs[..|addrs| - 1], bytes) + multiset{Reply(sid, addrs[|addrs| - 1], bytes)}
  }

  lemma {:induction false} RepliesOnly(sid: nat, addrs: seq<Addr>, bytes: seq<byte>)
    ensures forall d :: d in RepliesFrom(sid, addrs, bytes) ==> d.Reply?
  {
    if addrs != [] {
      RepliesOnly(sid, addrs[..|addrs| - 1], bytes);
    }
  }

  function AnswersFrom(addrs: seq<Addr>, bytes: seq<byte>): (heard: seq<Answer>)
    ensures |heard| == |addrs|
  {
    if addrs == [] then [] else AnswersFrom(addrs[..|addrs| - 1], bytes) + [Answer(addrs[|addrs| - 1], bytes)]
  }

  /** Nothing but replies in flight, all servers there, and the session has sent its first requests. */
  ghost predicate Ready(cfg: Config, s: State, sid: nat, call: Call, sent: nat) {
    && NoRequests(s)
    && (forall a :: a in Servers(cfg.ring) ==> a in s.stores)
    && 0 < call.n <= |Servers(cfg.ring)| && sent <= call.n
    && sid in s.sessions && s.sessions[sid] == Session(call, sent, [], Running)
  }

  lemma ReadySending(cfg: Config, s: State, sid: nat, call: Call, sent: nat)
    requires Ready(cfg, s, sid, call, sent) && sent < call.n
    ensures Sending(cfg, s, sid) && |TargetsOf(cfg, call)| == call.n
    ensures forall i, j :: 0 <= i < j < call.n ==> TargetsOf(cfg, call)[i] != TargetsOf(cfg, call)[j]
    ensures forall i :: 0 <= i < call.n ==> TargetsOf(cfg, call)[i] in s.stores
  {
    hide Targets;
    TargetsDistinct(cfg.ring, call.n, call.key, cfg.lib);
    var targets := TargetsOf(cfg, call);
    forall i | 0 <= i < call.n ensures targets[i] in s.stores {
      assert targets[i] in targets;
    }
  }

  /** Requests up to number m are sent and lost. */
  lemma {:induction false} SkipTo(cfg: Config, run: seq<State>, sid: nat, call: Call, i: nat, m: nat, k: CStr, v: CStr)
    returns (run': seq<State>)
    requires IsRun(cfg, run) && Ready(cfg, Last(run), sid, call, i) && i <= m <= call.n && Agrees(call, k, v)
    ensures Extends(cfg, run, run', k, v)
    ensures Last(run') == Last(run).(sessions := Last(run).sessions[sid := Session(call, m, [], Running)])
    ensures Ready(cfg, Last(run'), sid, call, m)
    decreases m - i
  {
    hide TargetsOf, Next, Init, Extends, Servers;
    if i == m {
      run' := run;
      ExtendsSelf(cfg, run, k, v);
    } else {
      ReadySending(cfg, Last(run), sid, call, i);
      var r := SkipOne(cfg, run, sid, k, v);
      ExtendsRuns(cfg, run, r, k, v);
      run' := SkipTo(cfg, r, sid, call, i + 1, m, k, v);
      ExtendsRuns(cfg, r, run', k, v);
      ExtendsTransitive(cfg, run, r, run', k, v);
    }
  }

  lemma ExtendsSelf(cfg: Config, run: seq<State>, k: CStr, v: CStr)
    requires IsRun(cfg, run) && NoRequests(Last(run))
    ensures Extends(cfg, run, run, k, v)
  {
    hide Next, Init;
  }

  /** The server at this address gives this answer. */
  ghost predicate Gives(stores: map<Addr, Store>, a: Addr, call: Call, bytes: seq<byte>) {
    a in stores && Answers(stores[a], OpOf(Encode(call)), After(call, stores[a]), [bytes])
  }

  /** Requests i to m - 1 are sent and served. */
  lemma {:induction false} ServeTo(cfg: Config, run: seq<State>, sid: nat, call: Call, i: nat, m: nat, bytes: seq<byte>,
                                   k: CStr, v: CStr) returns (run': seq<State>)
    requires IsRun(cfg, run) && Ready(cfg, Last(run), sid, call, i) && i <= m <= call.n && Agrees(call, k, v)
    requires |TargetsOf(cfg, call)| == call.n
    requires forall j :: i <= j < m ==> Gives(Last(run).stores, TargetsOf(cfg, call)[j], call, bytes)
    ensures Extends(cfg, run, run', k, v)
    ensures
      var s, addrs := Last(run), TargetsOf(cfg, call)[i..m];
      && Last(run') == s.(stores := Applied(s.stores, addrs, call), net := s.net + RepliesFrom(sid, addrs, bytes),
                          sessions := s.sessions[sid := Session(call, m, [], Running)])
    ensures Ready(cfg, Last(run'), sid, call, m)
    decreases m - i
  {
    hide TargetsOf, Next, Init, Extends, Servers, Answers, OpOf, Encode, Applied, RepliesFrom;
    var s := Last(run);
    var targets := TargetsOf(cfg, call);
    if i == m {
      run' := run;
      ExtendsSelf(cfg, run, k, v);
      NoPhase(s.stores, sid, targets[i..m], call, bytes);
    } else {
      var n := m - 1;
      var r := ServeTo(cfg, run, sid, call, i, n, bytes, k, v);
      ExtendsRuns(cfg, run, r, k, v);
      var a := targets[n];
      ReadySending(cfg, s, sid, call, i);
      ReadySending(cfg, Last(r), sid, call, n);
      AppliedElsewhere(s.stores, targets[i..n], call, a);
      assert Gives(s.stores, a, call, bytes);
      run' := ServeOne(cfg, r, sid, After(call, s.stores[a]), bytes, k, v);
      ExtendsRuns(cfg, r, run', k, v);
      ExtendsTransitive(cfg, run, r, run', k, v);
      assert targets[i..m][..n - i] == targets[i..n] && targets[i..m][n - i] == a;
      PhaseSnoc(s.stores, sid, targets[i..m], call, bytes, n - i);
      RepliesOnly(sid, targets[i..m], bytes);
    }
  }

  lemma NoPhase(stores: map<Addr, Store>, sid: nat, addrs: seq<Addr>, call: Call, bytes: seq<byte>)
    requires addrs == []
    ensures Applied(stores, addrs, call) == stores && RepliesFrom(sid, addrs, bytes) == multiset{}
    ensures AnswersFrom(addrs, bytes) == []
  {
  }

  lemma PhaseSnoc(stores: map<Addr, Store>, sid: nat, addrs: seq<Addr>, call: Call, bytes: seq<byte>, n: nat)
    requires |addrs| == n + 1
    ensures
      var before := Applied(stores, addrs[..n], call);
      addrs[n] in before ==> Applied(stores, addrs, call) == before[addrs[n] := After(call, before[addrs[n]])]
    ensures RepliesFrom(sid, addrs, bytes) == RepliesFrom(sid, addrs[..n], bytes) + multiset{Reply(sid, addrs[n],
      bytes)}
    ensures AnswersFrom(addrs, bytes) == AnswersFrom(addrs[..n], bytes) + [Answer(addrs[n], bytes)]
  {
    hide After;
  }

  /** The call is still running after the answers of all but the last of these servers. */
  ghost predicate RunsUntil(call: Call, addrs: seq<Addr>, bytes: seq<byte>) {
    forall j :: 0 <= j < |addrs| ==> j == 0 || AfterReply(call, AnswersFrom(addrs[..j], bytes)) == Running
  }

  /** The client receives the answers of these servers, in order. */
  lemma {:induction false} ReceiveAll(cfg: Config, run: seq<State>, sid: nat, call: Call, addrs: seq<Addr>,
          bytes: seq<byte>,
                                      k: CStr, v: CStr) returns (run': seq<State>)
    requires IsRun(cfg, run) && Ready(cfg, Last(run), sid, call, call.n) && |TargetsOf(cfg, call)| == call.n
    requires RepliesFrom(sid, addrs, bytes) <= Last(run).net
    requires RunsUntil(call, addrs, bytes)
    ensures Extends(cfg, run, run', k, v)
    ensures Last(run').stores == Last(run).stores
    ensures Last(run').net == Last(run).net - RepliesFrom(sid, addrs, bytes)
    ensures
      var heard := AnswersFrom(addrs, bytes);
      Last(run').sessions == Last(run).sessions[sid := Session(call, call.n, heard,
        if addrs == [] then Running else AfterReply(call, heard))]
    decreases |addrs|
  {
    hide TargetsOf, Next, Init, Extends, Servers, AfterReply, RepliesFrom, AnswersFrom, Applied;
    if addrs == [] {
      run' := run;
      ExtendsSelf(cfg, run, k, v);
      NoPhase(Last(run).stores, sid, addrs, call, bytes);
      assert Last(run).sessions[sid := Last(run).sessions[sid]] == Last(run).sessions;
    } else {
      var n := |addrs| - 1;
      var front := addrs[..n];
      RunsUntilFront(call, addrs, n, bytes);
      PhaseSnoc(Last(run).stores, sid, addrs, call, bytes, n);
      var r := ReceiveAll(cfg, run, sid, call, front, bytes, k, v);
      ExtendsRuns(cfg, run, r, k, v);
      var a := Answer(addrs[n], bytes);
      assert Reply(sid, a.server, a.bytes) in Last(r).net;
      run' := ReceiveOne(cfg, r, sid, a, k, v);
      ExtendsRuns(cfg, r, run', k, v);
      ExtendsTransitive(cfg, run, r, run', k, v);
      ReceivedState(Last(run), Last(r), Last(run'), sid, call, addrs, n, bytes);
    }
  }

  /** The states before, just before and after the last of the answers. */
  lemma ReceivedState(s: State, r: State, t: State, sid: nat, call: Call, addrs: seq<Addr>, n: nat, bytes: seq<byte>)
    requires |addrs| == n + 1
    requires r.net == s.net - RepliesFrom(sid, addrs[..n], bytes)
    requires r.sessions == s.sessions[sid := Session(call, call.n, AnswersFrom(addrs[..n], bytes), Running)]
    requires t.net == r.net - multiset{Reply(sid, addrs[n], bytes)}
    requires
      var heard := AnswersFrom(addrs[..n], bytes) + [Answer(addrs[n], bytes)];
      t.sessions == r.sessions[sid := Session(call, call.n, heard, AfterReply(call, heard))]
    ensures t.net == s.net - RepliesFrom(sid, addrs, bytes)
    ensures
      var heard := AnswersFrom(addrs, bytes);
      t.sessions == s.sessions[sid := Session(call, call.n, heard, AfterReply(call, heard))]
  {
    hide AfterReply, RepliesFrom, AnswersFrom, Applied;
    PhaseSnoc(s.stores, sid, addrs, call, bytes, n);
  }

  lemma RunsUntilFront(call: Call, addrs: seq<Addr>, n: nat, bytes: seq<byte>)
    requires RunsUntil(call, addrs, bytes) && |addrs| == n + 1
    ensures RunsUntil(call, addrs[..n], bytes)
    ensures n == 0 || AfterReply(call, AnswersFrom(addrs[..n], bytes)) == Running
  {
    hide AfterReply, AnswersFrom;
    assert forall j :: 0 <= j < n ==> addrs[..n][..j] == addrs[..j];
  }

  /** The requests of positions lo to hi - 1 are served, all others are lost. */
  lemma SendPhase(cfg: Config, run: seq<State>, sid: nat, call: Call, lo: nat, hi: nat, bytes: seq<byte>, k: CStr,
          v: CStr)
    returns (run': seq<State>)
    requires IsRun(cfg, run) && Ready(cfg, Last(run), sid, call, 0) && Agrees(call, k, v)
    requires lo <= hi <= call.n == |TargetsOf(cfg, call)|
    requires forall j :: lo <= j < hi ==> Gives(Last(run).stores, TargetsOf(cfg, call)[j], call, bytes)
    ensures Extends(cfg, run, run', k, v) && Ready(cfg, Last(run'), sid, call, call.n)
    ensures
      var s, addrs := Last(run), TargetsOf(cfg, call)[lo..hi];
      && Last(run').stores == Applied(s.stores, addrs, call)
      && Last(run').net == s.net + RepliesFrom(sid, addrs, bytes)
      && Last(run').sessions == s.sessions[sid := Session(call, call.n, [], Running)]
  {
    hide TargetsOf, Next, Init, Extends, Servers, Gives, RepliesFrom, Applied, Agrees;
    var r1 := SkipTo(cfg, run, sid, call, 0, lo, k, v);
    ExtendsRuns(cfg, run, r1, k, v);
    var r2 := ServeTo(cfg, r1, sid, call, lo, hi, bytes, k, v);
    ExtendsRuns(cfg, r1, r2, k, v);
    ExtendsTransitive(cfg, run, r1, r2, k, v);
    run' := SkipTo(cfg, r2, sid, call, hi, call.n, k, v);
    ExtendsRuns(cfg, r2, run', k, v);
    ExtendsTransitive(cfg, run, r2, run', k, v);
  }

  /** The call begins, the requests of positions lo to hi - 1 are served, and their answers are received. */
  lemma CallPhase(cfg: Config, run: seq<State>, sid: nat, call: Call, lo: nat, hi: nat, bytes: seq<byte>, k: CStr,
          v: CStr)
    returns (run': seq<State>)
    requires IsRun(cfg, run) && NoRequests(Last(run)) && sid !in Last(run).sessions
    requires forall a :: a in Servers(cfg.ring) ==> a in Last(run).stores
    requires 0 < call.n <= |Servers(cfg.ring)| && Admitted(call) && Agrees(call, k, v)
    requires lo < hi <= call.n == |TargetsOf(cfg, call)|
    requires forall j :: lo <= j < hi ==> Gives(Last(run).stores, TargetsOf(cfg, call)[j], call, bytes)
    requires RunsUntil(call, TargetsOf(cfg, call)[lo..hi], bytes)
    ensures Extends(cfg, run, run', k, v) && NoRequests(Last(run'))
    ensures
      var s, addrs := Last(run), TargetsOf(cfg, call)[lo..hi];
      var heard := AnswersFrom(addrs, bytes);
      && Last(run').stores == Applied(s.stores, addrs, call)
      && Last(run').sessions == s.sessions[sid := Session(call, call.n, heard, AfterReply(call, heard))]
  {
    hide TargetsOf, Next, Init, Extends, Servers, AfterReply, Gives, RunsUntil, Admitted, RepliesFrom, AnswersFrom,
      Applied, Agrees;
    var addrs := TargetsOf(cfg, call)[lo..hi];
    var r1 := BeginCall(cfg, run, sid, call, k, v);
    ExtendsRuns(cfg, run, r1, k, v);
    var r2 := SendPhase(cfg, r1, sid, call, lo, hi, bytes, k, v);
    ExtendsRuns(cfg, r1, r2, k, v);
    ExtendsTransitive(cfg, run, r1, r2, k, v);
    run' := ReceiveAll(cfg, r2, sid, call, addrs, bytes, k, v);
    ExtendsRuns(cfg, r2, run', k, v);
    ExtendsTransitive(cfg, run, r2, run', k, v);
  }

  // ---------- results of phases in which all answers are equal ----------

  lemma PutPhaseResult(call: Call, addrs: seq<Addr>, bytes: seq<byte>)
    requires call.PutCall? && |addrs| == call.w
    ensures RunsUntil(call, addrs, bytes)
    ensures AfterReply(call, AnswersFrom(addrs, bytes)) == PutDone(ErrNone)
  {
    hide AnswersFrom;
  }

  lemma {:induction false} UniformVotes(addrs: seq<Addr>, bytes: seq<byte>, u: CStr)
    requires ReadReply(bytes) == Some(u)
    ensures Votes(Payloads(AnswersFrom(addrs, bytes)), Some(u)) == |addrs|
  {
    hide ReadReply;
    if addrs != [] {
      var n := |addrs| - 1;
      UniformVotes(addrs[..n], bytes, u);
      var heard := AnswersFrom(addrs, bytes);
      assert heard[..n] == AnswersFrom(addrs[..n], bytes);
      VotesSnoc(heard, n, u);
    }
  }

  lemma UniformRun(call: Call, addrs: seq<Addr>, bytes: seq<byte>, u: CStr)
    requires call.GetCall? && ReadReply(bytes) == Some(u) && Threshold(call.r).Some?
    ensures |addrs| < Threshold(call.r).value ==> AfterReply(call, AnswersFrom(addrs, bytes)) == Running
    ensures |addrs| == Threshold(call.r).value ==> AfterReply(call, AnswersFrom(addrs, bytes)) == GetDone(Value(u))
  {
    hide ReadReply, Threshold, AnswersFrom, Payloads, Votes;
    var payloads := Payloads(AnswersFrom(addrs, bytes));
    UniformVotes(addrs, bytes, u);
    if |addrs| < Threshold(call.r).value {
      OutcomeByVotes(payloads, call.r);
      var outcome := GetOutcome(payloads, call.r);
      if outcome.Value? && outcome.value != u {
        VotesBounded(payloads, Some(u), Some(outcome.value));
      }
    } else if |addrs| == Threshold(call.r).value {
      FirstWins(payloads, [], call.r, u);
      assert payloads + [] == payloads;
    }
  }

  lemma GetPhaseResult(call: Call, addrs: seq<Addr>, bytes: seq<byte>, u: CStr)
    requires call.GetCall? && ReadReply(bytes) == Some(u)
    requires Threshold(call.r).Some? && |addrs| == Threshold(call.r).value
    ensures RunsUntil(call, addrs, bytes)
    ensures AfterReply(call, AnswersFrom(addrs, bytes)) == GetDone(Value(u))
  {
    hide AfterReply, ReadReply, Threshold, AnswersFrom;
    UniformRun(call, addrs, bytes, u);
    forall j | 0 <= j < |addrs| ensures AfterReply(call, AnswersFrom(addrs[..j], bytes)) == Running {
      UniformRun(call, addrs[..j], bytes, u);
    }
  }

  lemma PutGives(stores: map<Addr, Store>, a: Addr, call: Call)
    requires a in stores && call.PutCall? && !IsDumpCall(call)
    ensures Gives(stores, a, call, [])
  {
    hide OpOf, Encode;
    OpOfCall(call);
  }

  lemma PingGives(stores: map<Addr, Store>, a: Addr, call: Call)
    requires a in stores && call.GetCall? && call.key == []
    ensures Gives(stores, a, call, [])
  {
    hide OpOf, Encode;
    OpOfCall(call);
  }

  lemma GetGives(stores: map<Addr, Store>, a: Addr, call: Call, u: CStr, bytes: seq<byte>)
    requires a in stores && call.GetCall? && call.key != []
    requires Lookup(stores[a], call.key) == Some(u) && IsGetReply(Some(u), bytes)
    ensures Gives(stores, a, call, bytes)
  {
    hide OpOf, Encode, IsGetReply;
    OpOfCall(call);
  }

  lemma ShortReply(u: CStr) returns (bytes: seq<byte>)
    requires |u| < MAX_MSG_ELEM_SIZE
    ensures IsGetReply(Some(u), bytes) && ReadReply(bytes) == Some(u)
  {
    bytes := u + [0] + seq(MAX_MSG_ELEM_SIZE - |u| - 1, _ => 0 as byte);
    ReplyIsRead(Some(u), bytes);
  }

  // ---------- the stale read ----------

  /** What the option check makes sure of (args.c), for quorums a char can count to and enough servers. */
  ghost predicate Legal(cfg: Config, put: Call, get: Call) {
    && put.PutCall? && get.GetCall? && put.key == get.key && Admitted(put)
    && 0 < put.w <= put.n <= |Servers(cfg.ring)|
    && Threshold(get.r).Some? && Threshold(get.r).value <= get.n <= |Servers(cfg.ring)|
  }

  /** Every replica has the value u, and only replies are in flight. */
  ghost predicate AllHave(cfg: Config, s: State, k: CStr, n: nat, u: CStr) {
    && NoRequests(s) && s.sessions.Keys <= {0}
    && (forall a :: a in Servers(cfg.ring) ==> a in s.stores)
    && forall a :: a in Targets(cfg.ring, n, k, cfg.lib) ==> a in s.stores && Lookup(s.stores[a], k) == Some(u)
  }

  lemma AllTold(cfg: Config, k: CStr, n: nat, u: CStr) returns (run: seq<State>)
    requires k != [] && |k| <= MAX_MSG_ELEM_SIZE && |u| <= MAX_MSG_ELEM_SIZE
    requires 0 < n <= |Servers(cfg.ring)|
    ensures IsRun(cfg, run) && AllHave(cfg, Last(run), k, n, u)
  {
    hide TargetsOf, Targets, Next, Init, Extends, Servers, Gives, RepliesFrom, Applied;
    var call := PutCall(k, u, n, 1);
    var r0 := NoRunYet(cfg);
    InitStores(cfg, r0);
    var r1 := BeginCall(cfg, r0, 0, call, k, u);
    ExtendsRuns(cfg, r0, r1, k, u);
    ReadySending(cfg, Last(r1), 0, call, 0);
    var targets := TargetsOf(cfg, call);
    forall j | 0 <= j < n ensures Gives(Last(r1).stores, targets[j], call, []) {
      PutGives(Last(r1).stores, targets[j], call);
    }
    run := SendPhase(cfg, r1, 0, call, 0, n, [], k, u);
    ExtendsRuns(cfg, r1, run, k, u);
    assert targets[0..n] == targets == Targets(cfg.ring, n, k, cfg.lib) by {
      TargetsAre(cfg, call);
    }
    forall a | a in targets ensures a in Last(run).stores && Lookup(Last(run).stores[a], k) == Some(u) {
      AppliedThere(Last(r1).stores, targets, call, a);
    }
  }

  lemma TargetsAre(cfg: Config, call: Call)
    ensures TargetsOf(cfg, call) == Targets(cfg.ring, call.n, call.key, cfg.lib)
  {
  }

  lemma InitStores(cfg: Config, run: seq<State>)
    requires IsRun(cfg, run) && |run| == 1
    ensures forall a :: a in Servers(cfg.ring) ==> a in Last(run).stores
    ensures Last(run).sessions == map[]
  {
    hide Servers;
  }

  /** A write served by positions lo to lo + w - 1 and then a read served by positions from glo on. */
  lemma WriteThenRead(cfg: Config, run: seq<State>, put: Call, get: Call, lo: nat, glo: nat, wbytes: seq<byte>,
                      bytes: seq<byte>, u: CStr)
    returns (run': seq<State>, b: nat, c: nat)
    requires Legal(cfg, put, get) && IsRun(cfg, run) && NoRequests(Last(run)) && Last(run).sessions.Keys <= {0}
    requires forall a :: a in Servers(cfg.ring) ==> a in Last(run).stores
    requires |TargetsOf(cfg, put)| == put.n && |TargetsOf(cfg, get)| == get.n
    requires lo + put.w <= put.n && glo + Threshold(get.r).value <= get.n
    requires ReadReply(bytes) == Some(u)
    requires forall j :: lo <= j < lo + put.w ==> Gives(Last(run).stores, TargetsOf(cfg, put)[j], put, wbytes)
    requires forall j :: glo <= j < glo + Threshold(get.r).value ==>
      Gives(Applied(Last(run).stores, TargetsOf(cfg, put)[lo..lo + put.w], put), TargetsOf(cfg, get)[j], get, bytes)
    ensures ReadAfterWrite(cfg, run', |run| - 1, b, c, 1, 2, put, get, u)
  {
    hide TargetsOf, Next, Init, Servers, Extends, AfterReply, Gives, RunsUntil, RepliesFrom, AnswersFrom, Applied,
      ReadReply, Threshold, ReadAfterWrite;
    var k, v := put.key, put.value;
    var t := Threshold(get.r).value;
    PutPhaseResult(put, TargetsOf(cfg, put)[lo..lo + put.w], wbytes);
    GetPhaseResult(get, TargetsOf(cfg, get)[glo..glo + t], bytes, u);
    ThresholdPositive(get.r);
    var r1 := CallPhase(cfg, run, 1, put, lo, lo + put.w, wbytes, k, v);
    ExtendsRuns(cfg, run, r1, k, v);
    assert Last(r1).sessions[1].call == put && Last(r1).sessions[1].result == PutDone(ErrNone);
    run' := CallPhase(cfg, r1, 2, get, glo, glo + t, bytes, k, v);
    ExtendsRuns(cfg, r1, run', k, v);
    assert Last(run').sessions[2].call == get && Last(run').sessions[2].result == GetDone(Value(u));
    b, c := |r1| - 1, |run'| - 1;
    Scenario(cfg, run, r1, run', put, get, u);
  }

  lemma Scenario(cfg: Config, run: seq<State>, r1: seq<State>, r2: seq<State>, put: Call, get: Call, u: CStr)
    requires put.PutCall? && get.GetCall? && put.key == get.key
    requires run != [] && r1 != [] && r2 != []
    requires Extends(cfg, run, r1, put.key, put.value) && Extends(cfg, r1, r2, put.key, put.value)
    requires 1 !in Last(run).sessions && 2 !in Last(r1).sessions
    requires 1 in Last(r1).sessions && 2 in Last(r2).sessions
    requires Last(r1).sessions[1].call == put && Last(r1).sessions[1].result == PutDone(ErrNone)
    requires Last(r2).sessions[2].call == get && Last(r2).sessions[2].result == GetDone(Value(u))
    ensures ReadAfterWrite(cfg, r2, |run| - 1, |r1| - 1, |r2| - 1, 1, 2, put, get, u)
  {
    hide Clean, Next, Init;
    ExtendsTransitive(cfg, run, r1, r2, put.key, put.value);
    assert r2[|run| - 1] == Last(run) && r2[|r1| - 1] == Last(r1);
  }

  lemma ThresholdPositive(r: nat)
    requires Threshold(r).Some?
    ensures Threshold(r).value > 0
  {
  }

  /** Positions of a write quorum and of a read quorum that do not meet. */
  lemma DisjointWindows(put: Call, get: Call) returns (lo: nat, glo: nat)
    requires put.PutCall? && get.GetCall? && !QuorumsMeet(put, get)
    requires 0 < put.w <= put.n && Threshold(get.r).value <= get.n
    ensures lo + put.w <= put.n && glo + Threshold(get.r).value <= get.n
    ensures glo + Threshold(get.r).value <= lo || lo + put.w <= glo
  {
    hide Threshold;
    if get.n <= put.n {
      lo, glo := put.n - put.w, 0;
    } else {
      lo, glo := 0, get.n - Threshold(get.r).value;
    }
  }

  /** Both replica lists are prefixes of the longer one. */
  lemma TargetsAmong(cfg: Config, call: Call, m: nat)
    requires 0 < call.n <= m <= |Servers(cfg.ring)|
    ensures
      var all := Targets(cfg.ring, m, call.key, cfg.lib);
      && |all| == m && |TargetsOf(cfg, call)| == call.n && TargetsOf(cfg, call) <= all
      && (forall i, j :: 0 <= i < j < m ==> all[i] != all[j])
      && (forall a :: a in all ==> a in Servers(cfg.ring))
  {
    hide Targets, Servers;
    TargetsDistinct(cfg.ring, m, call.key, cfg.lib);
    TargetsDistinct(cfg.ring, call.n, call.key, cfg.lib);
    TargetsPrefix(cfg.ring, call.n, m, call.key, cfg.lib);
  }

  /** When the quorums need not meet, a read after a successful write can return the older value u. */
  lemma StaleRead(cfg: Config, put: Call, get: Call, u: CStr) returns (run: seq<State>, a: nat, b: nat, c: nat)
    requires Legal(cfg, put, get) && put.key != [] && !QuorumsMeet(put, get) && |u| < MAX_MSG_ELEM_SIZE
    ensures ReadAfterWrite(cfg, run, a, b, c, 1, 2, put, get, u)
  {
    hide TargetsOf, Targets, Next, Init, Servers, Gives, Applied, ReadReply, IsGetReply, Threshold, Clean, QuorumsMeet;
    ThresholdPositive(get.r);
    var k, m := put.key, Max(put.n, get.n);
    var before := AllTold(cfg, k, m, u);
    var s := Last(before);
    var lo, glo := DisjointWindows(put, get);
    TargetsAmong(cfg, put, m);
    TargetsAmong(cfg, get, m);
    var all := Targets(cfg.ring, m, k, cfg.lib);
    var bytes := ShortReply(u);
    var writers := TargetsOf(cfg, put)[lo..lo + put.w];
    forall j | lo <= j < lo + put.w ensures Gives(s.stores, TargetsOf(cfg, put)[j], put, []) {
      assert all[j] in all;
      PutGives(s.stores, TargetsOf(cfg, put)[j], put);
    }
    forall j | glo <= j < glo + Threshold(get.r).value
      ensures Gives(Applied(s.stores, writers, put), TargetsOf(cfg, get)[j], get, bytes)
    {
      assert all[j] in all;
      OutsideWindow(all, writers, lo, put.w, j);
      AppliedElsewhere(s.stores, writers, put, all[j]);
      GetGives(Applied(s.stores, writers, put), all[j], get, u, bytes);
    }
    a := |before| - 1;
    run, b, c := WriteThenRead(cfg, before, put, get, lo, glo, [], bytes, u);
  }

  lemma OutsideWindow(all: seq<Addr>, window: seq<Addr>, lo: nat, w: nat, j: nat)
    requires lo + w <= |all| && j < |all| && window == all[lo..lo + w] && (j < lo || lo + w <= j)
    requires forall x, y :: 0 <= x < y < |all| ==> all[x] != all[y]
    ensures all[j] !in window
  {
  }

  /** Reading the empty key after a value has been written to it returns the empty value. */
  lemma EmptyKeyMisread(cfg: Config, put: Call, get: Call) returns (run: seq<State>, a: nat, b: nat, c: nat)
    requires Legal(cfg, put, get) && put.key == [] && put.value != []
    ensures ReadAfterWrite(cfg, run, a, b, c, 1, 2, put, get, [])
  {
    hide TargetsOf, Targets, Next, Init, Servers, Gives, Applied, Threshold, Clean;
    ThresholdPositive(get.r);
    var before := NoRunYet(cfg);
    InitStores(cfg, before);
    var s := Last(before);
    TargetsAmong(cfg, put, put.n);
    TargetsAmong(cfg, get, get.n);
    forall j | 0 <= j < put.w ensures Gives(s.stores, TargetsOf(cfg, put)[j], put, []) {
      assert TargetsOf(cfg, put)[j] in Targets(cfg.ring, put.n, put.key, cfg.lib);
      PutGives(s.stores, TargetsOf(cfg, put)[j], put);
    }
    var writers := TargetsOf(cfg, put)[0..put.w];
    forall j | 0 <= j < Threshold(get.r).value
      ensures Gives(Applied(s.stores, writers, put), TargetsOf(cfg, get)[j], get, [])
    {
      assert TargetsOf(cfg, get)[j] in Targets(cfg.ring, get.n, get.key, cfg.lib);
      PingGives(Applied(s.stores, writers, put), TargetsOf(cfg, get)[j], get);
    }
    a := 0;
    run, b, c := WriteThenRead(cfg, before, put, get, 0, 0, [], [], []);
  }

  // ---------- reading the empty key ----------

  /** All a read of the empty key hears is empty datagrams. */
  ghost predicate Pinged(s: State, g: nat) {
    && (forall d :: d in s.net && d.Reply? && d.sid == g ==> d.bytes == [])
    && (g in s.sessions ==> forall j :: 0 <= j < |s.sessions[g].heard| ==> s.sessions[g].heard[j].bytes == [])
  }

  lemma {:induction false} PingedRun(cfg: Config, run: seq<State>, i: nat, g: nat)
    requires IsRun(cfg, run) && i < |run| && g in run[i].sessions && IsGet(run[i].sessions[g], [])
    ensures Pinged(run[i], g)
  {
    hide Next, Inv, Holds, IsGetReply, Admitted;
    if i > 0 {
      var h := i - 1;
      assert Next(cfg, run[h], run[h + 1]);
      InvRun(cfg, run, h);
      if g in run[h].sessions {
        SessionsStay(cfg, run[h], run[i], g);
        PingedRun(cfg, run, h, g);
        forall d | d in run[i].net && d.Reply? && d.sid == g ensures d.bytes == [] {
          if d !in run[h].net {
            NewReply(cfg, run[h], run[i], d);
          }
        }
        forall j | 0 <= j < |run[i].sessions[g].heard| ensures run[i].sessions[g].heard[j].bytes == [] {
          NewAnswer(cfg, run[h], run[i], g, j);
          var a := run[i].sessions[g].heard[j];
          assert Reply(g, a.server, a.bytes) in run[h].net ==> Reply(g, a.server, a.bytes).bytes == [];
        }
      } else {
        JustBegun(cfg, run[h], run[i], g);
      }
    }
  }

  /** A read of the empty key returns no other value than the empty one. */
  lemma EmptyKeyReads(cfg: Config, run: seq<State>, i: nat, g: nat, u: CStr)
    requires ReadReturns(cfg, run, i, g, [], u)
    ensures u == []
  {
    hide IsRun, SessionOk;
    PingedRun(cfg, run, i, g);
    InvRun(cfg, run, i);
    var j := ReturnedVote(cfg, run[i].sessions[g], u);
  }

  // ---------- the exact condition ----------

  ghost predicate ReadsLastWrite(cfg: Config, put: Call, get: Call)
    requires put.PutCall?
  {
    forall run: seq<State>, a: nat, b: nat, c: nat, p: nat, g: nat, u: CStr ::
      ReadAfterWrite(cfg, run, a, b, c, p, g, put, get, u) ==> u == put.value
  }

  /**
   * A read that begins after a successful write returns the written value, in every run in
   * which no other value for the key is in flight meanwhile, exactly when the quorums meet;
   * for the empty key, exactly when the written value is empty.
   */
  lemma ReadsLastWriteIff(cfg: Config, put: Call, get: Call)
    requires put.PutCall? && get.GetCall? && Legal(cfg, put, get)
    ensures ReadsLastWrite(cfg, put, get) <==> if put.key == [] then put.value == [] else QuorumsMeet(put, get)
  {
    hide ReadAfterWrite, QuorumsMeet;
    if put.key == [] {
      if put.value == [] {
        forall run: seq<State>, a: nat, b: nat, c: nat, p: nat, g: nat, u: CStr
          | ReadAfterWrite(cfg, run, a, b, c, p, g, put, get, u) ensures u == put.value
        {
          ReadIsReturn(cfg, run, a, b, c, p, g, put, get, u);
          EmptyKeyReads(cfg, run, c, g, u);
        }
      } else {
        var run, a, b, c := EmptyKeyMisread(cfg, put, get);
      }
    } else if QuorumsMeet(put, get) {
      forall run: seq<State>, a: nat, b: nat, c: nat, p: nat, g: nat, u: CStr
        | ReadAfterWrite(cfg, run, a, b, c, p, g, put, get, u) ensures u == put.value
      {
        ReadYourQuorum(cfg, run, a, b, c, p, g, put, get, u);
      }
    } else {
      var u: CStr := if put.value == [] then [1] else [];
      var run, a, b, c := StaleRead(cfg, put, get, u);
    }
  }

  lemma ReadIsReturn(cfg: Config, run: seq<State>, a: nat, b: nat, c: nat, p: nat, g: nat, put: Call, get: Call,
          u: CStr)
    requires ReadAfterWrite(cfg, run, a, b, c, p, g, put, get, u) && put.key == []
    ensures ReadReturns(cfg, run, c, g, [], u)
  {
    hide IsRun;
  }
}
