/**
 * The client side of reads and writes (network.c). What the network delivers before a
 * receive times out is a parameter: the datagrams for a read, their number for a write.
 */
module Network {
  import opened Bytes
  import opened HashTable
  import opened NodeList
  import opened Ring
  import opened Wire
  import opened Server

  // ---------- the vote count of a read ----------

  /** A char as the code compares it: one signed byte. */
  function Signed(c: byte): int {
    if c < 128 then c else c - 256
  }

  /** The cast of the read quorum to a 32-bit int. */
  function ToInt(r: nat): int {
    var word := r % 0x1_0000_0000;
    if word < 0x8000_0000 then word else word - 0x1_0000_0000
  }

  /** The local table maps a value to a one-character string, its vote count. */
  datatype GetState = Tallying(tally: map<CStr, CStr>, notFound: nat) | Returned(value: CStr)

  function CountOf(tally: map<CStr, CStr>, value: CStr): byte {
    if value in tally && tally[value] != [] then tally[value][0] else 0
  }

  function CountString(c: byte): CStr {
    if c == 0 then [] else [c]
  }

  /** One received reply; after the call has returned, nothing changes. */
  function GetStep(st: GetState, reply: seq<byte>, r: nat): GetState {
    if st.Returned? then st
    else match ReadReply(reply)
      case None => st.(notFound := st.notFound + 1)
      case Some(v) =>
        var count: byte := (CountOf(st.tally, v) + 1) % 256;
        if Signed(count) >= ToInt(r) then Returned(v)
        else st.(tally := st.tally[v := CountString(count)])
  }

  function GetRun(replies: seq<seq<byte>>, r: nat): GetState {
    if replies == [] then Tallying(map[], 0)
    else GetStep(GetRun(replies[..|replies| - 1], r), replies[|replies| - 1], r)
  }

  datatype GetResult = Value(value: CStr) | Error(code: ErrorCode)

  /** The result when these replies arrive, in this order, before the time-out. */
  function GetOutcome(replies: seq<seq<byte>>, r: nat): GetResult {
    match GetRun(replies, r)
    case Returned(v) => Value(v)
    case Tallying(_, notFound) => Error(if notFound == 0 then ErrNetwork else ErrNotFound)
  }

  // ---------- what the vote count means ----------

  /** How many replies carry the value; for None, how many say not-found. */
  function Votes(replies: seq<seq<byte>>, answer: Option<CStr>): nat {
    if replies == [] then 0
    else Votes(replies[..|replies| - 1], answer) + if ReadReply(replies[|replies| - 1]) == answer then 1 else 0
  }

  /** The number of equal votes that ends a read; None if no number does. */
  function Threshold(r: nat): (t: Option<nat>)
    ensures t.Some? ==> 1 <= t.value <= 127
  {
    if ToInt(r) > 127 then None else if ToInt(r) < 1 then Some(1) else Some(ToInt(r))
  }

  /** For every quorum a char can count to, the threshold is the quorum. */
  lemma ThresholdIsQuorum(r: nat)
    requires r < 0x8000_0000
    ensures Threshold(r) == if r > 127 then None else if r == 0 then Some(1) else Some(r)
  {
  }

  /** For every other quorum the cast wraps around in 32 bits, and the threshold is the first count that is enough. */
  lemma ThresholdIsFirst(r: nat)
    ensures -0x8000_0000 <= ToInt(r) < 0x8000_0000 && (r - ToInt(r)) % 0x1_0000_0000 == 0
    ensures Threshold(r).None? <==> forall count: byte :: Signed(count) < ToInt(r)
    ensures Threshold(r).Some? ==>
      && Signed(Threshold(r).value) >= ToInt(r)
      && forall count: byte :: 1 <= count < Threshold(r).value ==> Signed(count) < ToInt(r)
  {
    var top: byte := 127;
    assert Signed(top) == 127;
    assert r - ToInt(r) == 0x1_0000_0000 * (r / 0x1_0000_0000) + (r % 0x1_0000_0000 - ToInt(r));
  }

  /**
   * While the read goes on, the table holds every value's number of votes modulo 256, and no
   * value has reached the threshold.
   */
  lemma {:induction false} TallyExact(replies: seq<seq<byte>>, r: nat, value: CStr)
    requires GetRun(replies, r).Tallying?
    ensures CountOf(GetRun(replies, r).tally, value) == Votes(replies, Some(value)) % 256
    ensures GetRun(replies, r).notFound == Votes(replies, None)
    ensures Threshold(r).Some? ==> Votes(replies, Some(value)) < Threshold(r).value
  {
    if replies != [] {
      var front := replies[..|replies| - 1];
      TallyExact(front, r, value);
      NextCount(Votes(front, Some(value)));
    }
  }

  lemma NextCount(votes: nat)
    ensures (votes % 256 + 1) % 256 == (votes + 1) % 256
    ensures votes < 127 ==> Signed((votes + 1) % 256) == votes + 1
  {
  }

  /** Value `v` is the first to get as many votes as the threshold, with reply i. */
  ghost predicate FirstToReach(replies: seq<seq<byte>>, t: nat, i: nat, v: CStr) {
    && i < |replies|
    && ReadReply(replies[i]) == Some(v)
    && Votes(replies[..i + 1], Some(v)) == t
    && forall w: CStr :: Votes(replies[..i], Some(w)) < t
  }

  lemma JustReturned(front: seq<seq<byte>>, last: seq<byte>, r: nat)
    requires GetRun(front, r).Tallying? && GetStep(GetRun(front, r), last, r).Returned?
    ensures
      var v := GetStep(GetRun(front, r), last, r).value;
      && Threshold(r).Some? && ReadReply(last) == Some(v)
      && Votes(front, Some(v)) + 1 == Threshold(r).value
      && forall w: CStr :: Votes(front, Some(w)) < Threshold(r).value
  {
    hide GetRun, Votes;
    TallyExact(front, r, ReadReply(last).value);
    forall w: CStr ensures Threshold(r).Some? ==> Votes(front, Some(w)) < Threshold(r).value {
      TallyExact(front, r, w);
    }
  }

  lemma {:induction false} ReturnedReaches(replies: seq<seq<byte>>, r: nat) returns (i: nat)
    requires GetRun(replies, r).Returned?
    ensures Threshold(r).Some? && FirstToReach(replies, Threshold(r).value, i, GetRun(replies, r).value)
  {
    hide ReadReply, Threshold;
    var front, last := replies[..|replies| - 1], replies[|replies| - 1];
    if GetRun(front, r).Returned? {
      i := ReturnedReaches(front, r);
      assert front[..i + 1] == replies[..i + 1] && front[..i] == replies[..i];
    } else {
      i := |replies| - 1;
      JustReturned(front, last, r);
      assert replies[..i + 1] == replies && replies[..i] == front;
    }
  }

  lemma {:induction false} ReturnedStays(replies: seq<seq<byte>>, r: nat, i: nat)
    requires i <= |replies| && GetRun(replies[..i], r).Returned?
    ensures GetRun(replies, r) == GetRun(replies[..i], r)
    decreases |replies|
  {
    if i == |replies| {
      assert replies[..i] == replies;
    } else {
      assert replies[..|replies| - 1][..i] == replies[..i];
      ReturnedStays(replies[..|replies| - 1], r, i);
    }
  }

  /** A value with as many votes as the threshold ends the read. */
  lemma ReachingReturns(replies: seq<seq<byte>>, r: nat, v: CStr)
    requires Threshold(r).Some? && Votes(replies, Some(v)) >= Threshold(r).value
    ensures GetRun(replies, r).Returned?
  {
    if GetRun(replies, r).Tallying? {
      TallyExact(replies, r, v);
      assert false;
    }
  }

  /** The read returns v exactly when v is the first value whose votes reach the threshold. */
  lemma ReturnsFirstToReach(replies: seq<seq<byte>>, r: nat, v: CStr)
    ensures GetOutcome(replies, r) == Value(v) <==>
            Threshold(r).Some? && exists i: nat :: FirstToReach(replies, Threshold(r).value, i, v)
  {
    if GetRun(replies, r).Returned? {
      var i := ReturnedReaches(replies, r);
    }
    if Threshold(r).Some? {
      forall i: nat | FirstToReach(replies, Threshold(r).value, i, v)
        ensures GetRun(replies, r) == Returned(v)
      {
        ReachingReturns(replies[..i + 1], r, v);
        ReturnedStays(replies, r, i + 1);
        var j := ReturnedReaches(replies[..i + 1], r);
        OnlyLastReaches(replies, i, j, Threshold(r).value, GetRun(replies[..i + 1], r).value);
      }
    }
  }

  lemma OnlyLastReaches(replies: seq<seq<byte>>, i: nat, j: nat, t: nat, v: CStr)
    requires i < |replies| && FirstToReach(replies[..i + 1], t, j, v)
    requires forall w: CStr :: Votes(replies[..i], Some(w)) < t
    ensures j == i && ReadReply(replies[i]) == Some(v)
  {
    assert replies[..i + 1][..j + 1] == replies[..j + 1];
    if j < i {
      assert replies[..i][..j + 1] == replies[..j + 1];
      VotesMonotone(replies[..i], j + 1, Some(v));
    }
  }

  lemma {:induction false} VotesMonotone(replies: seq<seq<byte>>, i: nat, answer: Option<CStr>)
    requires i <= |replies|
    ensures Votes(replies[..i], answer) <= Votes(replies, answer)
    decreases |replies|
  {
    if i == |replies| {
      assert replies[..i] == replies;
    } else {
      assert replies[..|replies| - 1][..i] == replies[..i];
      VotesMonotone(replies[..|replies| - 1], i, answer);
    }
  }

  /** A read ends with a value exactly when some value's votes reach the threshold. */
  lemma OutcomeByVotes(replies: seq<seq<byte>>, r: nat)
    ensures GetOutcome(replies, r).Value? ==>
      Threshold(r).Some? && Votes(replies, Some(GetOutcome(replies, r).value)) >= Threshold(r).value
    ensures GetOutcome(replies, r).Error? ==>
      && (forall v: CStr :: Threshold(r).Some? ==> Votes(replies, Some(v)) < Threshold(r).value)
      && GetOutcome(replies, r).code == if Votes(replies, None) == 0 then ErrNetwork else ErrNotFound
  {
    if GetRun(replies, r).Returned? {
      var i := ReturnedReaches(replies, r);
      VotesMonotone(replies, i + 1, Some(GetRun(replies, r).value));
    } else {
      forall v: CStr ensures Threshold(r).Some? ==> Votes(replies, Some(v)) < Threshold(r).value {
        TallyExact(replies, r, v);
      }
      TallyExact(replies, r, []);
    }
  }

  // ---------- order independence ----------

  ghost predicate OrderIndependent(replies: seq<seq<byte>>, r: nat) {
    forall order: seq<seq<byte>> :: multiset(order) == multiset(replies) ==>
      GetOutcome(order, r) == GetOutcome(replies, r)
  }

  /** No two values can both end the read. */
  ghost predicate OneWinner(replies: seq<seq<byte>>, r: nat) {
    Threshold(r).Some? ==>
      forall v: CStr, w: CStr ::
        Votes(replies, Some(v)) >= Threshold(r).value && Votes(replies, Some(w)) >= Threshold(r).value ==> v == w
  }

  lemma {:induction false} VotesPermute(a: seq<seq<byte>>, b: seq<seq<byte>>, answer: Option<CStr>)
    requires multiset(a) == multiset(b)
    ensures Votes(a, answer) == Votes(b, answer)
  {
    if a == [] {
      assert |b| == |multiset(b)| == 0;
    } else {
      var front, last := a[..|a| - 1], a[|a| - 1];
      assert a == front + [last];
      assert last in multiset(b);
      var i :| 0 <= i < |b| && b[i] == last;
      assert b == b[..i] + [last] + b[i + 1..];
      SameRest(front, b[..i], last, b[i + 1..]);
      VotesPermute(front, b[..i] + b[i + 1..], answer);
      VotesConcat(b[..i], b[i + 1..], answer);
      VotesConcat(b[..i] + [last], b[i + 1..], answer);
      VotesConcat(b[..i], [last], answer);
      VotesOne(last, answer);
    }
  }

  lemma VotesOne(reply: seq<byte>, answer: Option<CStr>)
    ensures Votes([reply], answer) == if ReadReply(reply) == answer then 1 else 0
  {
    var one: seq<seq<byte>> := [reply];
    assert one[..0] == [];
  }

  lemma SameRest(c: seq<seq<byte>>, a: seq<seq<byte>>, x: seq<byte>, b: seq<seq<byte>>)
    requires multiset(c + [x]) == multiset(a + [x] + b)
    ensures multiset(c) == multiset(a + b)
  {
    assert multiset(a + [x] + b) - multiset{x} == multiset(a + b);
    assert multiset(c + [x]) - multiset{x} == multiset(c);
  }

  lemma {:induction false} VotesConcat(a: seq<seq<byte>>, b: seq<seq<byte>>, answer: Option<CStr>)
    ensures Votes(a + b, answer) == Votes(a, answer) + Votes(b, answer)
  {
    if b == [] {
      assert a + b == a;
    } else {
      assert (a + b)[..|a + b| - 1] == a + b[..|b| - 1];
      VotesConcat(a, b[..|b| - 1], answer);
    }
  }

  /** An arrival order in which the replies with one answer come first. */
  lemma {:induction false} AnswersFirst(replies: seq<seq<byte>>, answer: Option<CStr>)
    returns (first: seq<seq<byte>>, rest: seq<seq<byte>>)
    ensures multiset(first + rest) == multiset(replies)
    ensures |first| == Votes(first, answer) == Votes(replies, answer)
  {
    if replies == [] {
      first, rest := [], [];
    } else {
      var front, last := replies[..|replies| - 1], replies[|replies| - 1];
      assert replies == front + [last];
      var f, g := AnswersFirst(front, answer);
      if ReadReply(last) == answer {
        first, rest := f + [last], g;
        assert first[..|f|] == f;
        assert multiset(first + rest) == multiset(f + g) + multiset{last};
      } else {
        first, rest := f, g + [last];
        assert first + rest == f + g + [last];
      }
    }
  }

  lemma {:induction false} VotesBounded(replies: seq<seq<byte>>, v: Option<CStr>, w: Option<CStr>)
    requires v != w
    ensures Votes(replies, v) + Votes(replies, w) <= |replies|
  {
    if replies != [] {
      VotesBounded(replies[..|replies| - 1], v, w);
    }
  }

  /** When the replies for v, enough of them, arrive first, v is returned. */
  lemma {:induction false} FirstWins(first: seq<seq<byte>>, rest: seq<seq<byte>>, r: nat, v: CStr)
    requires Threshold(r).Some? && |first| == Votes(first, Some(v)) >= Threshold(r).value
    ensures GetOutcome(first + rest, r) == Value(v)
  {
    ReachingReturns(first, r, v);
    var i := ReturnedReaches(first, r);
    var u := GetRun(first, r).value;
    VotesMonotone(first, i + 1, Some(u));
    if u != v {
      VotesBounded(first, Some(u), Some(v));
    }
    assert (first + rest)[..|first|] == first;
    ReturnedStays(first + rest, r, |first|);
  }

  /**
   * A read's value and error code do not depend on the order in which a given collection of
   * replies arrives exactly when at most one value has enough votes.
   */
  lemma OrderIndependentIff(replies: seq<seq<byte>>, r: nat)
    ensures OrderIndependent(replies, r) <==> OneWinner(replies, r)
  {
    if OneWinner(replies, r) {
      forall order: seq<seq<byte>> | multiset(order) == multiset(replies)
        ensures GetOutcome(order, r) == GetOutcome(replies, r)
      {
        SameOutcome(order, replies, r);
      }
    } else {
      var v: CStr, w: CStr :| v != w &&
        Votes(replies, Some(v)) >= Threshold(r).value && Votes(replies, Some(w)) >= Threshold(r).value;
      var f, g := AnswersFirst(replies, Some(v));
      var f', g' := AnswersFirst(replies, Some(w));
      FirstWins(f, g, r, v);
      FirstWins(f', g', r, w);
    }
  }

  lemma SameOutcome(a: seq<seq<byte>>, b: seq<seq<byte>>, r: nat)
    requires multiset(a) == multiset(b) && OneWinner(b, r)
    ensures GetOutcome(a, r) == GetOutcome(b, r)
  {
    OutcomeByVotes(a, r);
    OutcomeByVotes(b, r);
    VotesPermute(a, b, None);
    if GetOutcome(a, r).Value? {
      VotesPermute(a, b, Some(GetOutcome(a, r).value));
    }
    if GetOutcome(b, r).Value? {
      VotesPermute(a, b, Some(GetOutcome(b, r).value));
    }
  }

  /** With a read quorum of more than half of the replicas there is one winner. */
  lemma MajorityHasOneWinner(replies: seq<seq<byte>>, n: nat, r: nat)
    requires |replies| <= n
    requires Threshold(r).Some? ==> 2 * Threshold(r).value > n
    ensures OneWinner(replies, r)
    ensures OrderIndependent(replies, r)
  {
    forall v: CStr, w: CStr | v != w
      ensures Votes(replies, Some(v)) + Votes(replies, Some(w)) <= n
    {
      VotesBounded(replies, Some(v), Some(w));
    }
    OrderIndependentIff(replies, r);
  }

  // ---------- network.c ----------

  /** The addresses of a key's replicas, in sending order. */
  function Targets(ring: seq<Node>, n: nat, key: CStr, lib: Lib): (targets: seq<Addr>)
    ensures |targets| == |Replicas(ring, n, CString(lib.sha1(key)))|
  {
    var nodes := Replicas(ring, n, CString(lib.sha1(key)));
    seq(|nodes|, i requires 0 <= i < |nodes| => nodes[i].addr)
  }

  /** Enough different servers for every message of a request. */
  lemma TargetsDistinct(ring: seq<Node>, n: nat, key: CStr, lib: Lib)
    requires n <= |Servers(ring)|
    ensures |Targets(ring, n, key, lib)| == n == |Replicas(ring, n, CString(lib.sha1(key)))|
    ensures forall i :: 0 <= i < n ==>
      Targets(ring, n, key, lib)[i] == Replicas(ring, n, CString(lib.sha1(key)))[i].addr
    ensures forall i, j :: 0 <= i < j < n ==> Targets(ring, n, key, lib)[i] != Targets(ring, n, key, lib)[j]
    ensures forall a :: a in Targets(ring, n, key, lib) ==> a in Servers(ring)
  {
    var sha := CString(lib.sha1(key));
    ReplicasExact(ring, n, sha);
    forall a | a in Targets(ring, n, key, lib) ensures a in Servers(ring) {
      var i :| 0 <= i < n && Targets(ring, n, key, lib)[i] == a;
      assert Replicas(ring, n, sha)[i] in Replicas(ring, n, sha);
      assert a in Servers(Replicas(ring, n, sha));
    }
  }

  lemma TargetsPrefix(ring: seq<Node>, n: nat, m: nat, key: CStr, lib: Lib)
    requires n <= m
    ensures Targets(ring, n, key, lib) <= Targets(ring, m, key, lib)
  {
    PrefixMonotone(ring, n, m, CString(lib.sha1(key)));
  }

  datatype Message = Message(to: Addr, bytes: seq<byte>)

  /** Sends one request to each of the first n replicas of the key. */
  method SendToReplicas(ring: List, n: nat, key: CStr, lib: Lib, bytes: seq<byte>) returns (sent: seq<Message>)
    requires ring.Valid() && 0 < n <= |Servers(ring.Contents())|
    ensures |sent| == n == |Replicas(ring.Contents(), n, CString(lib.sha1(key)))|
    ensures forall i :: 0 <= i < n ==>
      sent[i] == Message(Replicas(ring.Contents(), n, CString(lib.sha1(key)))[i].addr, bytes)
  {
    hide Replicas, IsReplicaList, IsSuccessor, CString;
    ReplicasExact(ring.Contents(), n, CString(lib.sha1(key)));
    assert ring.size > 0;
    var nodes := RingGetNodesForKey(ring, n, key, lib);
    sent := [];
    for i := 0 to n
      invariant |sent| == i && forall j :: 0 <= j < i ==> sent[j] == Message(nodes.Contents()[j].addr, bytes)
    {
      sent := sent + [Message(nodes.nodes[i].addr, bytes)];
    }
  }

  /** Counts one vote in the local table, unless it is the one that is still missing. */
  method CountVote(table: Htable, value: CStr, r: nat) returns (enough: bool)
    requires table.Valid()
    modifies table.Repr
    ensures table.Valid() && fresh(table.Repr - old(table.Repr))
    ensures
      var count: byte := (CountOf(old(TableMap(table.Chains)), value) + 1) % 256;
      && enough == (Signed(count) >= ToInt(r))
      && (!enough ==> TableMap(table.Chains) == old(TableMap(table.Chains))[value := CountString(count)])
  {
    hide TableMap;
    var found := table.GetHtableValue(Some(value));
    var count: byte := if found.None? || found.value == [] then 0 else found.value[0];
    count := (count + 1) % 256;
    enough := Signed(count) >= ToInt(r);
    if !enough {
      var code := table.AddHtableValue(value, Some(CountString(count)));
    }
  }

  lemma GetNothing(r: nat)
    ensures GetRun([], r) == Tallying(map[], 0)
  {
  }

  lemma GetSnoc(replies: seq<seq<byte>>, i: nat, r: nat)
    requires i < |replies|
    ensures GetRun(replies[..i + 1], r) == GetStep(GetRun(replies[..i], r), replies[i], r)
  {
    assert replies[..i + 1][..i] == replies[..i];
  }

  /** The receive loop of a read; `incoming` is what arrives before the time-out. */
  method ReceiveReplies(incoming: seq<seq<byte>>, r: nat) returns (result: GetResult)
    ensures result == GetOutcome(incoming, r)
  {
    hide TableMap, GetRun;
    var table := new Htable(HTABLE_SIZE);
    EmptyTable(HTABLE_SIZE);
    GetNothing(r);
    var notFound := 0;
    for i := 0 to |incoming|
      invariant fresh(table) && table.Valid() && fresh(table.Repr)
      invariant GetRun(incoming[..i], r) == Tallying(TableMap(table.Chains), notFound)
    {
      GetSnoc(incoming, i, r);
      if incoming[i] == [0] {
        notFound := notFound + 1;
      } else {
        var enough := CountVote(table, CString(incoming[i]), r);
        if enough {
          ReturnedStays(incoming, r, i + 1);
          return Value(CString(incoming[i]));
        }
      }
    }
    assert incoming[..|incoming|] == incoming;
    result := Error(if notFound == 0 then ErrNetwork else ErrNotFound);
  }

  /** The result of a write when so many datagrams arrive before the time-out. */
  function AckOutcome(incoming: nat, w: nat): ErrorCode {
    if incoming >= 1 && incoming >= w then ErrNone else ErrNetwork
  }

  /** The receive loop of a write: any datagram counts as an acknowledgement. */
  method ReceiveAcks(incoming: nat, w: nat) returns (code: ErrorCode)
    ensures code == AckOutcome(incoming, w)
    ensures code == ErrNone <==> incoming >= 1 && incoming >= w
    ensures code != ErrNone ==> code == ErrNetwork
  {
    var success := 0;
    while success < incoming
      invariant success <= incoming && (success == 0 || success < w)
    {
      success := success + 1;
      if success >= w {
        return ErrNone;
      }
    }
    code := ErrNetwork;
  }

  method NetworkGet(ring: List, lib: Lib, key: CStr, n: nat, r: nat, incoming: seq<seq<byte>>)
    returns (result: GetResult, sent: seq<Message>)
    requires ring.Valid() && 0 < n <= |Servers(ring.Contents())|
    ensures |key| > MAX_MSG_ELEM_SIZE ==> result == Error(ErrBadParameter) && sent == []
    ensures |key| <= MAX_MSG_ELEM_SIZE ==>
      |sent| == n == |Replicas(ring.Contents(), n, CString(lib.sha1(key)))| && result == GetOutcome(incoming, r)
    ensures |key| <= MAX_MSG_ELEM_SIZE ==> forall i :: 0 <= i < n ==>
      sent[i] == Message(Replicas(ring.Contents(), n, CString(lib.sha1(key)))[i].addr, key)
  {
    hide Replicas, GetRun, CString;
    if |key| > MAX_MSG_ELEM_SIZE {
      return Error(ErrBadParameter), [];
    }
    sent := SendToReplicas(ring, n, key, lib, key);
    result := ReceiveReplies(incoming, r);
  }

  method NetworkPut(ring: List, lib: Lib, key: CStr, value: CStr, n: nat, w: nat, incoming: nat)
    returns (code: ErrorCode, sent: seq<Message>)
    requires ring.Valid() && 0 < n <= |Servers(ring.Contents())|
    ensures |key| > MAX_MSG_ELEM_SIZE || |value| > MAX_MSG_ELEM_SIZE ==> code == ErrBadParameter && sent == []
    ensures |key| <= MAX_MSG_ELEM_SIZE && |value| <= MAX_MSG_ELEM_SIZE ==>
      && |sent| == n == |Replicas(ring.Contents(), n, CString(lib.sha1(key)))|
      && code == AckOutcome(incoming, w)
      && (code == ErrNone <==> incoming >= 1 && incoming >= w)
    ensures |key| <= MAX_MSG_ELEM_SIZE && |value| <= MAX_MSG_ELEM_SIZE ==> forall i :: 0 <= i < n ==>
      sent[i] == Message(Replicas(ring.Contents(), n, CString(lib.sha1(key)))[i].addr, key + [0] + value)
  {
    hide Replicas, CString;
    if |key| > MAX_MSG_ELEM_SIZE || |value| > MAX_MSG_ELEM_SIZE {
      return ErrBadParameter, [];
    }
    var request := FormatPutRequest(key, value, -1, -1);
    CStringIs(key, key);
    CStringIs(value, value);
    assert request[..] == key + [0] + value;
    sent := SendToReplicas(ring, n, key, lib, request[..]);
    code := ReceiveAcks(incoming, w);
  }
}
