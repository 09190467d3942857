/**
 * Runs that show that the conditions of the quorum theorems are needed, and the theorems
 * with their exact conditions.
 */
module Limits {
  import opened Bytes
  import opened HashTable
  import opened NodeList
  import opened Ring
  import opened Wire
  import opened Dump
  import opened Server
  import opened Network
  import opened Protocol
  import opened Quorum

  // ---------- building runs ----------

  ghost function Last(run: seq<State>): State
    requires run != []
  {
    run[|run| - 1]
  }

  /** `run'` goes on from `run`, and from its last state on no put of another value for k is in flight. */
  ghost predicate Extends(cfg: Config, run: seq<State>, run': seq<State>, k: CStr, v: CStr) {
    && IsRun(cfg, run) && IsRun(cfg, run')
    && run <= run'
    && forall i :: |run| - 1 <= i < |run'| ==> Clean(run'[i], k, v)
  }

  lemma ExtendsTransitive(cfg: Config, r1: seq<State>, r2: seq<State>, r3: seq<State>, k: CStr, v: CStr)
    requires Extends(cfg, r1, r2, k, v) && Extends(cfg, r2, r3, k, v)
    ensures Extends(cfg, r1, r3, k, v)
  {
    hide Clean, Next;
    forall i | |r1| - 1 <= i < |r3| ensures Clean(r3[i], k, v) {
      if i < |r2| {
        assert r3[i] == r2[i];
      }
    }
  }

  lemma ExtendBy(cfg: Config, run: seq<State>, s': State, k: CStr, v: CStr)
    requires IsRun(cfg, run) && Next(cfg, Last(run), s') && Clean(Last(run), k, v) && Clean(s', k, v)
    ensures Extends(cfg, run, run + [s'], k, v) && Last(run + [s']) == s'
  {
    hide Clean, Next, Init;
    var run' := run + [s'];
    forall i | 0 <= i < |run'| - 1 ensures Next(cfg, run'[i], run'[i + 1]) {
      if i < |run| - 1 {
        assert Next(cfg, run[i], run[i + 1]);
      }
    }
  }

  /** Only replies are in flight. */
  ghost predicate NoRequests(s: State) {
    forall d :: d in s.net ==> d.Reply?
  }

  /** The call writes no other value than v to k. */
  predicate Agrees(call: Call, k: CStr, v: CStr) {
    call.PutCall? && call.key == k ==> call.value == v
  }

  ghost predicate Sending(cfg: Config, s: State, sid: nat) {
    && NoRequests(s) && sid in s.sessions
    && var ss := s.sessions[sid];
    && ss.result == Running && ss.sent < |TargetsOf(cfg, ss.call)|
    && TargetsOf(cfg, ss.call)[ss.sent] in s.stores
  }

  lemma BeginCall(cfg: Config, run: seq<State>, sid: nat, call: Call, k: CStr, v: CStr) returns (run': seq<State>)
    requires IsRun(cfg, run) && NoRequests(Last(run)) && sid !in Last(run).sessions
    requires 0 < call.n <= |Servers(cfg.ring)| && Admitted(call)
    ensures Extends(cfg, run, run', k, v) && |run'| == |run| + 1
    ensures Last(run') == Last(run).(sessions := Last(run).sessions[sid := Session(call, 0, [], Running)])
  {
    hide Admitted, Servers;
    var s := Last(run);
    var s' := s.(sessions := s.sessions[sid := Session(call, 0, [], Running)]);
    assert NextBy(cfg, s, s', BeginStep(sid, call));
    ExtendBy(cfg, run, s', k, v);
    run' := run + [s'];
  }

  /** The session sends its next request. */
  lemma SendOne(cfg: Config, run: seq<State>, sid: nat, k: CStr, v: CStr) returns (run': seq<State>, d: Datagram)
    requires IsRun(cfg, run) && Sending(cfg, Last(run), sid) && Agrees(Last(run).sessions[sid].call, k, v)
    ensures Extends(cfg, run, run', k, v)
    ensures
      var s, ss := Last(run), Last(run).sessions[sid];
      && d == Request(sid, TargetsOf(cfg, ss.call)[ss.sent], Encode(ss.call))
      && Last(run') == s.(net := s.net + multiset{d}, sessions := s.sessions[sid := ss.(sent := ss.sent + 1)])
  {
    hide TargetsOf, Encode;
    var s := Last(run);
    var ss := s.sessions[sid];
    d := Request(sid, TargetsOf(cfg, ss.call)[ss.sent], Encode(ss.call));
    var s' := s.(net := s.net + multiset{d}, sessions := s.sessions[sid := ss.(sent := ss.sent + 1)]);
    assert NextBy(cfg, s, s', SendStep(sid));
    ExtendBy(cfg, run, s', k, v);
    run' := run + [s'];
  }

  /** The next request is sent and lost. */
  lemma SkipOne(cfg: Config, run: seq<State>, sid: nat, k: CStr, v: CStr) returns (run': seq<State>)
    requires IsRun(cfg, run) && Sending(cfg, Last(run), sid) && Agrees(Last(run).sessions[sid].call, k, v)
    ensures Extends(cfg, run, run', k, v)
    ensures
      var s, ss := Last(run), Last(run).sessions[sid];
      Last(run') == s.(sessions := s.sessions[sid := ss.(sent := ss.sent + 1)])
  {
    hide TargetsOf, Encode, Extends, IsRun;
    var r, d := SendOne(cfg, run, sid, k, v);
    ExtendsRuns(cfg, run, r, k, v);
    var s := Last(r);
    var s' := s.(net := s.net - multiset{d});
    assert s'.net == Last(run).net;
    assert NextBy(cfg, s, s', DropStep(d));
    ExtendBy(cfg, r, s', k, v);
    run' := r + [s'];
    ExtendsTransitive(cfg, run, r, run', k, v);
  }

  lemma ExtendsRuns(cfg: Config, run: seq<State>, run': seq<State>, k: CStr, v: CStr)
    requires Extends(cfg, run, run', k, v)
    ensures IsRun(cfg, run) && IsRun(cfg, run') && run != [] && run' != []
    ensures Clean(Last(run'), k, v)
  {
    hide Clean;
  }

  /** The next request is sent and served. */
  lemma {:induction false} ServeOne(cfg: Config, run: seq<State>, sid: nat, store': Store, bytes: seq<byte>,
          k: CStr, v: CStr)
    returns (run': seq<State>)
    requires IsRun(cfg, run) && Sending(cfg, Last(run), sid) && Agrees(Last(run).sessions[sid].call, k, v)
    requires
      var ss := Last(run).sessions[sid];
      Answers(Last(run).stores[TargetsOf(cfg, ss.call)[ss.sent]], OpOf(Encode(ss.call)), store', [bytes])
    ensures Extends(cfg, run, run', k, v)
    ensures
      var s, ss := Last(run), Last(run).sessions[sid];
      var a := TargetsOf(cfg, ss.call)[ss.sent];
      Last(run') == s.(stores := s.stores[a := store'], net := s.net + multiset{Reply(sid, a, bytes)},
                       sessions := s.sessions[sid := ss.(sent := ss.sent + 1)])
  {
    hide TargetsOf, Encode, Extends, IsRun, OpOf, Answers, ReplyTo;
    var r, d := SendOne(cfg, run, sid, k, v);
    ExtendsRuns(cfg, run, r, k, v);
    var s := Last(r);
    ReplyToOne(d, bytes);
    var s' := s.(net := s.net - multiset{d} + ReplyTo(d, [bytes]), stores := s.stores[d.server := store']);
    assert s'.net == Last(run).net + multiset{Reply(sid, d.server, bytes)};
    assert NextBy(cfg, s, s', ServeStep(d, store', [bytes]));
    ExtendBy(cfg, r, s', k, v);
    run' := r + [s'];
    ExtendsTransitive(cfg, run, r, run', k, v);
  }

  /** The client receives a reply. */
  lemma ReceiveOne(cfg: Config, run: seq<State>, sid: nat, a: Answer, k: CStr, v: CStr) returns (run': seq<State>)
    requires IsRun(cfg, run) && NoRequests(Last(run)) && sid in Last(run).sessions
    requires Last(run).sessions[sid].result == Running
    requires Last(run).sessions[sid].sent == |TargetsOf(cfg, Last(run).sessions[sid].call)|
    requires Reply(sid, a.server, a.bytes) in Last(run).net
    ensures Extends(cfg, run, run', k, v)
    ensures
      var s, ss := Last(run), Last(run).sessions[sid];
      var heard := ss.heard + [a];
      Last(run') == s.(net := s.net - multiset{Reply(sid, a.server, a.bytes)},
                       sessions := s.sessions[sid := ss.(heard := heard, result := AfterReply(ss.call, heard))])
  {
    hide TargetsOf, AfterReply;
    var s, ss := Last(run), Last(run).sessions[sid];
    var d := Reply(sid, a.server, a.bytes);
    var heard := ss.heard + [Answer(d.server, d.bytes)];
    var s' := s.(net := s.net - multiset{d},
                 sessions := s.sessions[sid := ss.(heard := heard, result := AfterReply(ss.call, heard))]);
    assert NextBy(cfg, s, s', ReceiveStep(d));
    ExtendBy(cfg, run, s', k, v);
    run' := run + [s'];
  }

  ghost function EmptyStores(cfg: Config): map<Addr, Store> {
    map a | a in Servers(cfg.ring) :: map[]
  }

  /** The run before anything happens. */
  lemma NoRunYet(cfg: Config) returns (run: seq<State>)
    ensures IsRun(cfg, run) && |run| == 1 && NoRequests(Last(run))
    ensures Last(run) == State(EmptyStores(cfg), multiset{}, map[])
  {
    run := [State(EmptyStores(cfg), multiset{}, map[])];
  }

  // ---------- empty requests ----------

  lemma EmptyDump()
    ensures IsDump(map[], [[]])
  {
    var list: seq<KvPair> := [];
    assert DistinctKeys(list) && AllFit(list);
    assert Bindings(list) == map[];
    PackConserves(list);
  }

  /** Requests that are answered by an empty datagram although no server stores anything. */
  predicate EmptyRequest(call: Call) {
    && call.key == [] && call.n == 1
    && match call
       case PutCall(_, v, _, w) => v == [] && w <= 1
       case GetCall(_, _, r) => r == 1
  }

  lemma EmptyRequestServed(call: Call)
    requires EmptyRequest(call)
    ensures Answers(map[], OpOf(Encode(call)), map[], [[]])
  {
    hide Encode, OpOf, IsDump;
    OpOfCall(call);
    EmptyDump();
  }

  lemma FirstTarget(cfg: Config, call: Call)
    requires cfg.ring != [] && call.n == 1
    ensures |TargetsOf(cfg, call)| == 1
    ensures TargetsOf(cfg, call)[0] in EmptyStores(cfg) && EmptyStores(cfg)[TargetsOf(cfg, call)[0]] == map[]
  {
    hide Targets;
    var a := SomeServer(cfg);
    TargetsDistinct(cfg.ring, 1, call.key, cfg.lib);
    assert TargetsOf(cfg, call)[0] in TargetsOf(cfg, call);
  }

  /** One server answers, and the call succeeds. */
  lemma EmptyRequestSucceeds(cfg: Config, call: Call) returns (run: seq<State>)
    requires cfg.ring != [] && EmptyRequest(call)
    ensures IsRun(cfg, run) && run != []
    ensures Last(run).sessions.Keys == {0} && Last(run).sessions[0].call == call
    ensures Last(run).sessions[0].result == if call.PutCall? then PutDone(ErrNone) else GetDone(Value([]))
  {
    hide IsRun, Extends, TargetsOf, Encode, OpOf, Answers, AfterReply, EmptyStores, Servers;
    var a := SomeServer(cfg);
    FirstTarget(cfg, call);
    var t := TargetsOf(cfg, call)[0];
    run := NoRunYet(cfg);
    var r := BeginCall(cfg, run, 0, call, [], []);
    ExtendsRuns(cfg, run, r, [], []);
    EmptyRequestServed(call);
    run := ServeOne(cfg, r, 0, map[], [], [], []);
    ExtendsRuns(cfg, r, run, [], []);
    EmptyAnswer(call, Answer(t, []));
    assert Last(run).sessions[0].heard + [Answer(t, [])] == [Answer(t, [])];
    r := ReceiveOne(cfg, run, 0, Answer(t, []), [], []);
    ExtendsRuns(cfg, run, r, [], []);
    run := r;
  }

  lemma SomeServer(cfg: Config) returns (a: Addr)
    requires cfg.ring != []
    ensures a in Servers(cfg.ring) && |Servers(cfg.ring)| >= 1
  {
    a := cfg.ring[0].addr;
    assert cfg.ring[0] in cfg.ring;
    assert {a} <= Servers(cfg.ring);
    SubsetSize({a}, Servers(cfg.ring));
  }

  lemma EmptyAnswer(call: Call, a: Answer)
    requires EmptyRequest(call) && a.bytes == []
    ensures AfterReply(call, [a]) == if call.PutCall? then PutDone(ErrNone) else GetDone(Value([]))
  {
    var heard := [a];
    assert Payloads(heard[..0]) == [];
    var none: seq<seq<byte>> := [];
    assert Payloads(heard) == none + [[]];
    GetSnoc([[]], 0, 1);
  }

  // ---------- exact conditions ----------

  ghost predicate ReadReturns(cfg: Config, run: seq<State>, i: nat, sid: nat, k: CStr, v: CStr) {
    && IsRun(cfg, run) && i < |run| && sid in run[i].sessions
    && IsGet(run[i].sessions[sid], k) && run[i].sessions[sid].result == GetDone(Value(v))
  }

  /** Every read of k that returns a value returns one that was written to k. */
  ghost predicate GenuineReads(cfg: Config, k: CStr) {
    forall run: seq<State>, i: nat, sid: nat, v: CStr ::
      ReadReturns(cfg, run, i, sid, k, v) ==> Wrote(run[i], k, v)
  }

  /** Reads are genuine exactly for the keys that are not empty: reading the empty key is a ping. */
  lemma GenuineReadsIff(cfg: Config, k: CStr)
    requires cfg.ring != []
    ensures GenuineReads(cfg, k) <==> k != []
  {
    hide IsRun, Wrote;
    if k == [] {
      var call := GetCall([], 1, 1);
      var run := EmptyRequestSucceeds(cfg, call);
      NobodyWrote(Last(run), call, []);
      assert ReadReturns(cfg, run, |run| - 1, 0, k, []);
    } else {
      forall run: seq<State>, i: nat, sid: nat, v: CStr | ReadReturns(cfg, run, i, sid, k, v)
        ensures Wrote(run[i], k, v)
      {
        NoFabrication(cfg, run, i);
      }
    }
  }

  lemma NobodyWrote(s: State, call: Call, v: CStr)
    requires s.sessions.Keys == {0} && s.sessions[0].call == call && call.GetCall?
    ensures !Wrote(s, call.key, v)
  {
  }

  ghost predicate WriteSucceeds(cfg: Config, run: seq<State>, i: nat, sid: nat, k: CStr, v: CStr) {
    && IsRun(cfg, run) && i < |run| && sid in run[i].sessions
    && var call := run[i].sessions[sid].call;
    && call.PutCall? && call.key == k && call.value == v && run[i].sessions[sid].result == PutDone(ErrNone)
  }

  /** Every successful put of v to k has been applied by a write quorum. */
  ghost predicate AppliedPuts(cfg: Config, k: CStr, v: CStr) {
    forall run: seq<State>, i: nat, sid: nat ::
      WriteSucceeds(cfg, run, i, sid, k, v) ==> AppliedByQuorum(cfg, run, i, sid)
  }

  /** No server ever stores the empty value under the empty key. */
  lemma {:induction false} EmptyPairNeverHeld(cfg: Config, run: seq<State>, i: nat, a: Addr)
    requires IsRun(cfg, run) && i < |run|
    ensures !Holds(run[i], a, [], [])
  {
    hide Next, Inv;
    if i > 0 {
      var h := i - 1;
      assert Next(cfg, run[h], run[h + 1]);
      EmptyPairNeverHeld(cfg, run, h, a);
      InvRun(cfg, run, h);
      if a in run[i].stores {
        NoStoreAppears(cfg, run[h], run[i], a);
        var put := StoreChange(cfg, run[h], run[i], a);
      }
    }
  }

  lemma EmptyPutNotApplied(cfg: Config, run: seq<State>, i: nat, sid: nat)
    requires WriteSucceeds(cfg, run, i, sid, [], [])
    ensures !AppliedByQuorum(cfg, run, i, sid)
  {
    hide IsRun, TargetsOf, Holds;
    var call := run[i].sessions[sid].call;
    if AppliedByQuorum(cfg, run, i, sid) {
      var servers :| Appliers(cfg, run, i, sid, call, servers) && |servers| >= 1 && |servers| >= call.w;
      var a :| a in servers;
      assert HeldSince(run, i, sid, a, [], []);
      var j: nat :| j <= i && j < |run| && sid in run[j].sessions && Holds(run[j], a, [], []);
      EmptyPairNeverHeld(cfg, run, j, a);
    }
  }

  /** A successful put has been applied by a write quorum exactly if key and value are not both empty. */
  lemma AppliedPutsIff(cfg: Config, k: CStr, v: CStr)
    requires cfg.ring != []
    ensures AppliedPuts(cfg, k, v) <==> !(k == [] && v == [])
  {
    hide IsRun, TargetsOf, AppliedByQuorum;
    if k == [] && v == [] {
      var run := EmptyRequestSucceeds(cfg, PutCall([], [], 1, 1));
      assert WriteSucceeds(cfg, run, |run| - 1, 0, k, v);
      EmptyPutNotApplied(cfg, run, |run| - 1, 0);
    } else {
      forall run: seq<State>, i: nat, sid: nat | WriteSucceeds(cfg, run, i, sid, k, v)
        ensures AppliedByQuorum(cfg, run, i, sid)
      {
        PutApplied(cfg, run, i, sid);
      }
    }
  }
}
