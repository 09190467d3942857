/**
 * Packing a table listing into datagrams (pps-launch-server.c).
 */
module Dump {
  import opened Bytes
  import opened HashTable
  import opened Wire

  // ---------- the packing loop as a step machine ----------

  function PairSize(kv: KvPair): nat {
    |kv.key| + 1 + |kv.value|
  }

  function PairBytes(kv: KvPair): seq<byte> {
    FormatPut(kv.key, kv.value)
  }

  /** The number of pairs, as an unsigned 32-bit big-endian number. */
  function Header(n: nat): (header: seq<byte>)
    ensures |header| == 4
  {
    [n / 256 / 256 / 256 % 256, n / 256 / 256 % 256, n / 256 % 256, n % 256]
  }

  lemma WordRemainder(n: nat, q: nat, r: nat)
    requires r < 0x1_0000_0000 && n == 0x1_0000_0000 * q + r
    ensures n % 0x1_0000_0000 == r
  {
  }

  /** The most significant byte comes first. */
  lemma HeaderBigEndian(n: nat)
    ensures 0x100_0000 * Header(n)[0] as int + 0x1_0000 * Header(n)[1] as int +
            0x100 * Header(n)[2] as int + Header(n)[3] as int == n % 0x1_0000_0000
  {
    var n1 := n / 256;
    var n2 := n1 / 256;
    var n3 := n2 / 256;
    var q := n3 / 256;
    var word := n % 256 + 256 * (n1 % 256 + 256 * (n2 % 256 + 256 * (n3 % 256)));
    assert n == 256 * n1 + n % 256 && n1 == 256 * n2 + n1 % 256;
    assert n2 == 256 * n3 + n2 % 256 && n3 == 256 * q + n3 % 256;
    WordRemainder(n, q, word);
  }

  /** `packet` is the first size_packet bytes of the packet being filled. */
  datatype PackState = PackState(counter: nat, packet: seq<byte>, sent: seq<seq<byte>>)

  const PACK_INIT := PackState(0, [], [])

  /** One turn of the loop: append a pair, or send the packet and start an empty one. */
  function PackStep(list: seq<KvPair>, st: PackState): PackState {
    if st.counter >= |list| then st
    else
      var kv := list[st.counter];
      if |st.packet| + PairSize(kv) < MAX_MSG_SIZE then
        var packet := if st.counter == 0 then Header(|list|) + PairBytes(kv) else FormatPut(st.packet, PairBytes(kv));
        st.(packet := packet, counter := st.counter + 1)
      else st.(packet := [], sent := st.sent + [st.packet])
  }

  function PackSteps(list: seq<KvPair>, st: PackState, n: nat): PackState
    decreases n
  {
    if n == 0 then st else PackSteps(list, PackStep(list, st), n - 1)
  }

  ghost predicate Terminates(list: seq<KvPair>) {
    exists n :: PackSteps(list, PACK_INIT, n).counter >= |list|
  }

  predicate Fits(kv: KvPair) {
    PairSize(kv) < MAX_MSG_SIZE
  }

  predicate AllFit(list: seq<KvPair>) {
    forall i :: 0 <= i < |list| ==> Fits(list[i])
  }

  /** Everything sent, including the final send after the loop. */
  function PackFrom(list: seq<KvPair>, st: PackState): seq<seq<byte>>
    requires AllFit(list)
    decreases |list| - st.counter, |st.packet|
  {
    if st.counter >= |list| then st.sent + [st.packet] else PackFrom(list, PackStep(list, st))
  }

  function Pack(list: seq<KvPair>): seq<seq<byte>>
    requires AllFit(list)
  {
    PackFrom(list, PACK_INIT)
  }

  lemma {:induction false} PackReaches(list: seq<KvPair>, st: PackState) returns (n: nat)
    requires AllFit(list)
    ensures PackSteps(list, st, n).counter >= |list|
    decreases |list| - st.counter, |st.packet|
  {
    if st.counter >= |list| {
      n := 0;
    } else {
      var m := PackReaches(list, PackStep(list, st));
      n := m + 1;
    }
  }

  /** The loop cannot get past a pair that does not fit an empty packet. */
  lemma {:induction false} PackStuck(list: seq<KvPair>, i: nat, st: PackState, n: nat)
    requires i < |list| && !Fits(list[i]) && st.counter <= i
    ensures PackSteps(list, st, n).counter <= i
    decreases n
  {
    hide Header, PairBytes, FormatPut;
    if n > 0 {
      PackStuck(list, i, PackStep(list, st), n - 1);
    }
  }

  /** The packing loop ends exactly when every pair, on its own, is shorter than a message. */
  lemma TerminatesIffAllFit(list: seq<KvPair>)
    ensures Terminates(list) <==> AllFit(list)
  {
    if AllFit(list) {
      var n := PackReaches(list, PACK_INIT);
    } else {
      var i :| 0 <= i < |list| && !Fits(list[i]);
      forall n: nat ensures PackSteps(list, PACK_INIT, n).counter < |list| {
        PackStuck(list, i, PACK_INIT, n);
      }
    }
  }

  /** Of the pairs a client may put, only one with key and value of maximal length does not fit. */
  lemma AdmittedPairFits(kv: KvPair)
    requires |kv.key| <= MAX_MSG_ELEM_SIZE && |kv.value| <= MAX_MSG_ELEM_SIZE
    ensures Fits(kv) <==> !(|kv.key| == MAX_MSG_ELEM_SIZE && |kv.value| == MAX_MSG_ELEM_SIZE)
  {
  }

  /** One legal put is enough to make every later dump of that server run forever. */
  lemma DumpMayDiverge()
    ensures exists kv: KvPair ::
      |kv.key| <= MAX_MSG_ELEM_SIZE && |kv.value| <= MAX_MSG_ELEM_SIZE && !Terminates([kv])
  {
    var longest := seq(MAX_MSG_ELEM_SIZE, _ => 1 as byte);
    var kv := KvPair(longest, longest);
    TerminatesIffAllFit([kv]);
    assert [kv][0] == kv && !Fits(kv);
  }

  // ---------- what the datagrams contain ----------

  /** Pairs with one NUL between key and value and one NUL between pairs. */
  function Joined(list: seq<KvPair>): seq<byte>
    requires list != []
  {
    if |list| == 1 then PairBytes(list[0]) else PairBytes(list[0]) + [0] + Joined(list[1..])
  }

  lemma {:induction false} JoinedConcat(a: seq<KvPair>, b: seq<KvPair>)
    requires a != [] && b != []
    ensures Joined(a + b) == Joined(a) + [0] + Joined(b)
  {
    if |a| == 1 {
      assert (a + b)[1..] == b;
    } else {
      assert (a + b)[1..] == a[1..] + b;
      JoinedConcat(a[1..], b);
    }
  }

  lemma {:induction false} JoinedSize(list: seq<KvPair>, kv: KvPair)
    requires list != []
    ensures |Joined(list)| >= 2 * |list| - 1
    ensures kv in list ==> PairSize(kv) <= |Joined(list)|
  {
    if |list| > 1 {
      JoinedSize(list[1..], kv);
      assert list == [list[0]] + list[1..];
    }
  }

  /** The datagram that carries pairs i to j - 1: the first starts with the header, the others with NUL. */
  function Chunk(list: seq<KvPair>, i: nat, j: nat): seq<byte>
    requires i <= j <= |list|
  {
    if i == j then [] else (if i == 0 then Header(|list|) else [0]) + Joined(list[i..j])
  }

  lemma {:induction false} ChunkSnoc(list: seq<KvPair>, i: nat, j: nat)
    requires i <= j < |list|
    ensures Chunk(list, i, j + 1) ==
            if j == 0 then Header(|list|) + PairBytes(list[j]) else FormatPut(Chunk(list, i, j), PairBytes(list[j]))
  {
    assert list[i..j + 1] == list[i..j] + [list[j]];
    if i < j {
      JoinedConcat(list[i..j], [list[j]]);
    }
  }

  ghost predicate Increasing(cuts: seq<nat>) {
    forall t, u :: 0 <= t < u < |cuts| ==> cuts[t] < cuts[u]
  }

  ghost predicate SentAt(list: seq<KvPair>, sent: seq<seq<byte>>, cuts: seq<nat>, t: nat)
    requires t < |sent| && t + 1 < |cuts|
  {
    && cuts[t] <= cuts[t + 1] <= |list|
    && sent[t] == Chunk(list, cuts[t], cuts[t + 1]) && Roomy(list, cuts[t], cuts[t + 1])
  }

  /** Every pair from i to j - 1 leaves room when it is appended to a datagram that starts with pair i. */
  ghost predicate Roomy(list: seq<KvPair>, i: nat, j: nat)
    requires i <= j <= |list|
  {
    forall k :: i <= k < j ==> |Chunk(list, i, k)| + PairSize(list[k]) < MAX_MSG_SIZE
  }

  /** The pair that starts datagram t had no room in the datagram before. */
  ghost predicate NoRoom(list: seq<KvPair>, sent: seq<seq<byte>>, cuts: seq<nat>, t: nat)
    requires 0 < t <= |sent| && t < |cuts| && cuts[t] < |list|
  {
    |sent[t - 1]| + PairSize(list[cuts[t]]) >= MAX_MSG_SIZE
  }

  /** `cuts` says with which pairs the datagrams sent so far and the current packet start. */
  ghost predicate Packing(list: seq<KvPair>, st: PackState, cuts: seq<nat>) {
    && |cuts| == |st.sent| + 1 && cuts[0] == 0 && Increasing(cuts)
    && (forall t :: 0 <= t < |cuts| ==> cuts[t] < |list|)
    && cuts[|cuts| - 1] <= st.counter <= |list|
    && (forall t :: 0 <= t < |st.sent| ==> SentAt(list, st.sent, cuts, t))
    && (forall t :: 0 < t <= |st.sent| ==> NoRoom(list, st.sent, cuts, t))
    && st.packet == Chunk(list, cuts[|cuts| - 1], st.counter)
    && Roomy(list, cuts[|cuts| - 1], st.counter)
  }

  /** The datagrams carry the pairs in order, each whole pair in one datagram, as many in each as have room. */
  ghost predicate Splits(list: seq<KvPair>, sent: seq<seq<byte>>, cuts: seq<nat>) {
    && |cuts| == |sent| + 1 && cuts[0] == 0 && cuts[|sent|] == |list| && Increasing(cuts)
    && (forall t :: 0 <= t < |cuts| ==> cuts[t] <= |list|)
    && (forall t :: 0 <= t < |sent| ==> SentAt(list, sent, cuts, t))
    && (forall t :: 0 < t < |sent| ==> NoRoom(list, sent, cuts, t))
  }

  lemma PackingFlush(list: seq<KvPair>, st: PackState, cuts: seq<nat>)
    requires Packing(list, st, cuts) && st.counter < |list| && st.packet != []
    requires |st.packet| + PairSize(list[st.counter]) >= MAX_MSG_SIZE
    ensures Packing(list, st.(packet := [], sent := st.sent + [st.packet]), cuts + [st.counter])
  {
    var n := |cuts|;
    var cuts', sent' := cuts + [st.counter], st.sent + [st.packet];
    forall t | 0 <= t < |sent'| ensures SentAt(list, sent', cuts', t) {
      if t < n - 1 {
        assert SentAt(list, st.sent, cuts, t);
      }
    }
    forall t | 0 < t <= |sent'| ensures NoRoom(list, sent', cuts', t) {
      if t < n {
        assert NoRoom(list, st.sent, cuts, t);
      }
    }
  }

  lemma PackingAppend(list: seq<KvPair>, st: PackState, cuts: seq<nat>)
    requires Packing(list, st, cuts) && st.counter < |list|
    requires |st.packet| + PairSize(list[st.counter]) < MAX_MSG_SIZE
    ensures Packing(list, st.(packet := Chunk(list, cuts[|cuts| - 1], st.counter + 1), counter := st.counter + 1), cuts)
  {
    hide Chunk, PairSize, SentAt, NoRoom, Increasing;
  }

  lemma PackingStep(list: seq<KvPair>, st: PackState, cuts: seq<nat>) returns (cuts': seq<nat>)
    requires AllFit(list) && Packing(list, st, cuts) && st.counter < |list|
    ensures Packing(list, PackStep(list, st), cuts')
    ensures PackStep(list, st).counter == |list| ==> cuts'[|cuts'| - 1] < |list|
  {
    hide Chunk, SentAt, NoRoom, Increasing, Roomy;
    if |st.packet| + PairSize(list[st.counter]) < MAX_MSG_SIZE {
      ChunkSnoc(list, cuts[|cuts| - 1], st.counter);
      PackingAppend(list, st, cuts);
      cuts' := cuts;
    } else {
      PackingFlush(list, st, cuts);
      cuts' := cuts + [st.counter];
    }
  }

  lemma {:induction false} PackFromSplits(list: seq<KvPair>, st: PackState, cuts: seq<nat>) returns (all: seq<nat>)
    requires AllFit(list) && Packing(list, st, cuts)
    requires st.counter == |list| ==> cuts[|cuts| - 1] < |list|
    ensures Splits(list, PackFrom(list, st), all)
    decreases |list| - st.counter, |st.packet|
  {
    if st.counter == |list| {
      all := cuts + [st.counter];
      var sent := st.sent + [st.packet];
      forall t | 0 <= t < |sent| ensures SentAt(list, sent, all, t) {
        if t < |st.sent| {
          assert SentAt(list, st.sent, cuts, t);
        }
      }
      forall t | 0 < t < |sent| ensures NoRoom(list, sent, all, t) {
        assert NoRoom(list, st.sent, cuts, t);
      }
    } else {
      var cuts' := PackingStep(list, st, cuts);
      all := PackFromSplits(list, PackStep(list, st), cuts');
    }
  }

  lemma PackSplits(list: seq<KvPair>) returns (cuts: seq<nat>)
    requires AllFit(list) && list != []
    ensures Splits(list, Pack(list), cuts)
    ensures forall t :: 0 < t < |Pack(list)| ==>
      cuts[t] < |list| && |Pack(list)[t - 1]| + PairSize(list[cuts[t]]) >= MAX_MSG_SIZE
  {
    cuts := PackFromSplits(list, PACK_INIT, [0]);
    forall t | 0 < t < |Pack(list)|
      ensures cuts[t] < |list| && |Pack(list)[t - 1]| + PairSize(list[cuts[t]]) >= MAX_MSG_SIZE
    {
      assert NoRoom(list, Pack(list), cuts, t);
    }
  }

  /** Two ways to split the list into datagrams cut it in the same places. */
  lemma {:induction false} SameCuts(list: seq<KvPair>, a: seq<seq<byte>>, b: seq<seq<byte>>, x: seq<nat>, y: seq<nat>,
                                    t: nat)
    requires Splits(list, a, x) && Splits(list, b, y) && t <= |a|
    ensures t <= |b| && x[..t + 1] == y[..t + 1] && a[..t] == b[..t]
  {
    hide Chunk, PairSize;
    if t > 0 {
      SameCuts(list, a, b, x, y, t - 1);
      assert x[t - 1] == x[..t][t - 1] == y[..t][t - 1] == y[t - 1];
      assert SentAt(list, a, x, t - 1) && x[t - 1] < x[t];
      CutReached(list, a, b, x, y, t - 1);
      CutReached(list, b, a, y, x, t - 1);
      assert SentAt(list, b, y, t - 1);
      assert x[..t + 1] == x[..t] + [x[t]] && y[..t + 1] == y[..t] + [y[t]];
      assert a[..t] == a[..t - 1] + [a[t - 1]] && b[..t] == b[..t - 1] + [b[t - 1]];
    }
  }

  /** A datagram of one split is no longer than the one of another that starts with the same pair. */
  lemma CutReached(list: seq<KvPair>, a: seq<seq<byte>>, b: seq<seq<byte>>, x: seq<nat>, y: seq<nat>, t: nat)
    requires Splits(list, a, x) && Splits(list, b, y) && t < |a| && t < |b| && x[t] == y[t]
    ensures x[t + 1] <= y[t + 1]
  {
    hide Chunk, PairSize;
    var c := y[t + 1];
    assert SentAt(list, a, x, t) && SentAt(list, b, y, t);
    assert t + 1 < |b| ==> NoRoom(list, b, y, t + 1);
    assert y[t] < c;
  }

  /** The datagrams of a dump are the one way to split the list. */
  lemma PackIsSplit(list: seq<KvPair>, sent: seq<seq<byte>>)
    requires AllFit(list) && list != []
    ensures sent == Pack(list) <==> exists cuts :: Splits(list, sent, cuts)
  {
    hide Splits;
    var x := PackSplits(list);
    forall y | Splits(list, sent, y) ensures sent == Pack(list) {
      SameCuts(list, sent, Pack(list), y, x, |sent|);
      SameCuts(list, Pack(list), sent, x, y, |Pack(list)|);
      assert sent[..|sent|] == sent && Pack(list)[..|Pack(list)|] == Pack(list);
    }
  }

  // ---------- conservation ----------

  function Concat(datagrams: seq<seq<byte>>): seq<byte> {
    if datagrams == [] then [] else Concat(datagrams[..|datagrams| - 1]) + datagrams[|datagrams| - 1]
  }

  lemma ConcatSnoc(datagrams: seq<seq<byte>>, t: nat)
    requires t < |datagrams|
    ensures Concat(datagrams[..t + 1]) == Concat(datagrams[..t]) + datagrams[t]
  {
    assert datagrams[..t + 1][..t] == datagrams[..t];
  }

  /** Header and pairs before cut t + 1, from header and pairs before cut t and the datagram in between. */
  lemma ChunkAppends(list: seq<KvPair>, i: nat, j: nat)
    requires 0 < i < j <= |list|
    ensures Header(|list|) + Joined(list[..i]) + Chunk(list, i, j) == Header(|list|) + Joined(list[..j])
  {
    assert list[..j] == list[..i] + list[i..j];
    JoinedConcat(list[..i], list[i..j]);
    Regroup(Header(|list|), Joined(list[..i]), [0], Joined(list[i..j]));
  }

  lemma {:induction false} ConcatSplits(list: seq<KvPair>, sent: seq<seq<byte>>, cuts: seq<nat>, t: nat)
    requires Splits(list, sent, cuts) && t < |sent|
    ensures cuts[t + 1] > 0
    ensures Concat(sent[..t + 1]) == Header(|list|) + Joined(list[..cuts[t + 1]])
  {
    assert SentAt(list, sent, cuts, t) && cuts[t] < cuts[t + 1];
    ConcatSnoc(sent, t);
    if t == 0 {
      assert sent[..0] == [];
      assert list[0..cuts[1]] == list[..cuts[1]];
    } else {
      ConcatSplits(list, sent, cuts, t - 1);
      ChunkAppends(list, cuts[t], cuts[t + 1]);
    }
  }

  lemma Regroup(a: seq<byte>, b: seq<byte>, c: seq<byte>, d: seq<byte>)
    ensures a + b + (c + d) == a + (b + c + d)
  {
  }

  /**
   * Whatever the split points, the datagrams of a non-empty table concatenate to the count
   * followed by all keys and values, separated by NULs. An empty table sends one empty datagram.
   */
  lemma {:induction false} PackConserves(list: seq<KvPair>)
    requires AllFit(list)
    ensures list == [] ==> Pack(list) == [[]]
    ensures list != [] ==> Concat(Pack(list)) == Header(|list|) + Joined(list)
  {
    if list != [] {
      var cuts := PackSplits(list);
      var n := |Pack(list)|;
      assert n > 0;
      ConcatSplits(list, Pack(list), cuts, n - 1);
      assert Pack(list)[..n] == Pack(list) && list[..|list|] == list;
    }
  }

  // ---------- datagram sizes ----------

  /** The first pair leaves room for the header. */
  predicate HeaderFits(list: seq<KvPair>) {
    list != [] ==> 4 + PairSize(list[0]) <= MAX_MSG_SIZE
  }

  ghost predicate Bounded(list: seq<KvPair>, st: PackState) {
    && |st.packet| <= MAX_MSG_SIZE
    && (forall t :: 0 <= t < |st.sent| ==> |st.sent[t]| <= MAX_MSG_SIZE)
    && (st.counter == 0 ==> st.packet == [])
  }

  lemma {:induction false} PackFromBounded(list: seq<KvPair>, st: PackState)
    requires AllFit(list) && HeaderFits(list) && Bounded(list, st)
    ensures forall d :: d in PackFrom(list, st) ==> |d| <= MAX_MSG_SIZE
    decreases |list| - st.counter, |st.packet|
  {
    if st.counter < |list| {
      PackFromBounded(list, PackStep(list, st));
    }
  }

  /** Every datagram fits a message exactly when the first pair leaves room for the header. */
  lemma PackBoundedIff(list: seq<KvPair>)
    requires AllFit(list)
    ensures (forall d :: d in Pack(list) ==> |d| <= MAX_MSG_SIZE) <==> HeaderFits(list)
  {
    if HeaderFits(list) {
      PackFromBounded(list, PACK_INIT);
    } else {
      var cuts := PackSplits(list);
      var first := Pack(list)[0];
      assert SentAt(list, Pack(list), cuts, 0);
      assert first in Pack(list);
      var segment := list[..cuts[1]];
      assert first == Header(|list|) + Joined(segment);
      JoinedSize(segment, list[0]);
      assert segment[0] in segment;
    }
  }

  lemma {:induction false} PackFromOne(list: seq<KvPair>, st: PackState)
    requires AllFit(list) && list != [] && st.counter <= |list| && st.sent == []
    requires st.packet == Chunk(list, 0, st.counter)
    requires 4 + |Joined(list)| <= MAX_MSG_SIZE
    ensures PackFrom(list, st) == [Chunk(list, 0, |list|)]
    decreases |list| - st.counter
  {
    hide Joined;
    if st.counter < |list| {
      var c := st.counter;
      ChunkSnoc(list, 0, c);
      JoinedPrefixSize(list, c + 1);
      PackFromOne(list, PackStep(list, st));
    }
  }

  lemma JoinedPrefixSize(list: seq<KvPair>, c: nat)
    requires 0 < c <= |list|
    ensures |Joined(list[..c])| <= |Joined(list)|
  {
    if c < |list| {
      assert list == list[..c] + list[c..];
      JoinedConcat(list[..c], list[c..]);
    } else {
      assert list[..c] == list;
    }
  }

  /** A non-empty table takes one datagram exactly when header and pairs fit one message. */
  lemma OnePacketIff(list: seq<KvPair>)
    requires AllFit(list) && HeaderFits(list) && list != []
    ensures |Pack(list)| == 1 <==> 4 + |Joined(list)| <= MAX_MSG_SIZE
    ensures |Pack(list)| == 1 ==> Pack(list) == [Header(|list|) + Joined(list)]
  {
    assert list[..|list|] == list;
    if 4 + |Joined(list)| <= MAX_MSG_SIZE {
      PackFromOne(list, PACK_INIT);
    }
    if |Pack(list)| == 1 {
      var cuts := PackSplits(list);
      PackBoundedIff(list);
      assert SentAt(list, Pack(list), cuts, 0);
      assert Pack(list)[0] in Pack(list);
    }
  }

  // ---------- the loop of the server ----------

  /** Appends a pair to the packet, behind the header if it is the first. */
  method AppendPair(packet: seq<byte>, first: bool, header: seq<byte>, kv: KvPair) returns (longer: seq<byte>)
    ensures longer == if first then header + PairBytes(kv) else FormatPut(packet, PairBytes(kv))
  {
    CStringIs(kv.value, kv.value);
    if first {
      var request := FormatPutRequest(header + kv.key, kv.value, |header + kv.key|, -1);
      assert (header + kv.key)[..|header + kv.key|] == header + kv.key;
      longer := request[..];
      assert longer == header + PairBytes(kv);
    } else {
      CStringIs(kv.key, kv.key);
      var request := FormatPutRequest(kv.key, kv.value, -1, -1);
      assert request[..] == PairBytes(kv) && packet[..|packet|] == packet;
      assert PairBytes(kv)[..PairSize(kv)] == PairBytes(kv);
      var joined := FormatPutRequest(packet, request[..], |packet|, PairSize(kv));
      longer := joined[..];
    }
  }

  /** The datagrams a dump sends. The loop ends only for lists whose pairs all fit. */
  method SendDump(list: array<KvPair>) returns (sent: seq<seq<byte>>)
    requires AllFit(list[..])
    ensures sent == Pack(list[..])
    ensures list.Length == 0 ==> sent == [[]]
    ensures list.Length > 0 ==> exists cuts :: Splits(list[..], sent, cuts)
  {
    hide Splits;
    ghost var pairs := list[..];
    var counter, packet := 0, [];
    var header := Header(list.Length);
    sent := [];
    while counter < list.Length
      invariant counter <= list.Length
      invariant PackFrom(pairs, PackState(counter, packet, sent)) == Pack(pairs)
      decreases list.Length - counter, |packet|
    {
      ghost var st := PackState(counter, packet, sent);
      assert Fits(pairs[counter]);
      if |packet| + PairSize(list[counter]) < MAX_MSG_SIZE {
        packet := AppendPair(packet, counter == 0, header, list[counter]);
        counter := counter + 1;
      } else {
        sent := sent + [packet];
        packet := [];
      }
      assert PackState(counter, packet, sent) == PackStep(pairs, st);
    }
    sent := sent + [packet];
    if list.Length > 0 {
      ghost var cuts := PackSplits(pairs);
    }
  }
}
