/**
 * The consistent-hashing ring (ring.c): which servers hold a key.
 */
module Ring {
  import opened Bytes
  import opened NodeList

  // ---------- specification ----------

  /** The first node whose digest is not below `sha`, or the ring's size if there is none. */
  function FirstAtLeast(ring: seq<Node>, sha: CStr): (i: nat)
    ensures i <= |ring|
    ensures forall j :: 0 <= j < i ==> Precedes(ring[j].sha, sha)
    ensures i < |ring| ==> !Precedes(ring[i].sha, sha)
    ensures forall j :: 0 <= j < i ==> StrCmp(sha, ring[j].sha) > 0
    ensures i < |ring| ==> StrCmp(sha, ring[i].sha) <= 0
  {
    if ring == [] then 0
    else
      StrCmpLexicographic(sha, ring[0].sha);
      if StrCmp(sha, ring[0].sha) <= 0 then 0
      else
        var i := FirstAtLeast(ring[1..], sha);
        assert ring == [ring[0]] + ring[1..];
        i + 1
  }

  /** Node p is the first whose digest does not come before `sha`, or the first of all if every digest does. */
  ghost predicate IsSuccessor(ring: seq<Node>, sha: CStr, p: nat) {
    && p < |ring|
    && if forall j :: 0 <= j < |ring| ==> Precedes(ring[j].sha, sha)
       then p == 0
       else !Precedes(ring[p].sha, sha) && forall j :: 0 <= j < p ==> Precedes(ring[j].sha, sha)
  }

  /** Where the search for a key stops: past the last digest it wraps to the first node. */
  function Start(ring: seq<Node>, sha: CStr): (i: nat)
    ensures i < |ring| || i == 0
    ensures ring != [] ==> IsSuccessor(ring, sha, i)
  {
    var i := FirstAtLeast(ring, sha);
    if i == |ring| then 0 else i
  }

  function Walk(ring: seq<Node>, sha: CStr): seq<Node> {
    var i := Start(ring, sha);
    ring[i..] + ring[..i]
  }

  /** The first virtual node of every server on the walk, in walk order. */
  function FirstByServer(walk: seq<Node>): seq<Node> {
    if walk == [] then []
    else
      var front := FirstByServer(walk[..|walk| - 1]);
      var last := walk[|walk| - 1];
      if Listed(front, last.addr) then front else front + [last]
  }

  predicate Listed(nodes: seq<Node>, addr: Addr) {
    exists n :: n in nodes && n.addr == addr
  }

  /** All servers of the ring in the order in which they are tried for a key. */
  function Preference(ring: seq<Node>, sha: CStr): seq<Node> {
    FirstByServer(Walk(ring, sha))
  }

  function Take(nodes: seq<Node>, n: nat): seq<Node> {
    if n <= |nodes| then nodes[..n] else nodes
  }

  function Replicas(ring: seq<Node>, n: nat, sha: CStr): seq<Node> {
    Take(Preference(ring, sha), n)
  }

  ghost predicate DistinctServers(nodes: seq<Node>) {
    forall i, j :: 0 <= i < j < |nodes| ==> nodes[i].addr != nodes[j].addr
  }

  // ---------- the walk is exact ----------

  lemma {:induction false} FirstByServerFacts(walk: seq<Node>)
    ensures Servers(FirstByServer(walk)) == Servers(walk)
    ensures DistinctServers(FirstByServer(walk))
    ensures forall n :: n in FirstByServer(walk) ==> n in walk
  {
    hide Servers, Listed, DistinctServers;
    if walk == [] {
      NoServers();
    } else {
      var front := walk[..|walk| - 1];
      var last := walk[|walk| - 1];
      FirstByServerFacts(front);
      assert walk == front + [last];
      ServersConcat(front, [last]);
      ServersConcat(FirstByServer(front), [last]);
      ListedServers(FirstByServer(front), last.addr);
      OneServer(last);
      DistinctSnoc(FirstByServer(front), last);
    }
  }

  lemma NoServers()
    ensures DistinctServers([]) && Servers([]) == {}
  {
  }

  lemma OneServer(n: Node)
    ensures Servers([n]) == {n.addr}
  {
    assert n in [n];
  }

  lemma DistinctSnoc(nodes: seq<Node>, last: Node)
    requires DistinctServers(nodes)
    ensures !Listed(nodes, last.addr) ==> DistinctServers(nodes + [last])
  {
  }

  lemma ServersConcat(a: seq<Node>, b: seq<Node>)
    ensures Servers(a + b) == Servers(a) + Servers(b)
  {
    forall addr ensures addr in Servers(a + b) <==> addr in Servers(a) + Servers(b) {
      ListedServers(a, addr);
      ListedServers(b, addr);
      ListedServers(a + b, addr);
    }
  }

  lemma ListedServers(nodes: seq<Node>, addr: Addr)
    ensures Listed(nodes, addr) <==> addr in Servers(nodes)
  {
  }

  lemma {:induction false} FirstByServerPrefix(walk: seq<Node>, c: nat)
    requires c <= |walk|
    ensures FirstByServer(walk[..c]) <= FirstByServer(walk)
    decreases |walk|
  {
    if c == |walk| {
      assert walk[..c] == walk;
    } else {
      var front := walk[..|walk| - 1];
      assert front[..c] == walk[..c];
      FirstByServerPrefix(front, c);
    }
  }

  /** A node enters the list exactly when it is its server's first on the walk, and keeps its place. */
  lemma FirstOccurrences(walk: seq<Node>, q: nat)
    requires q < |walk|
    ensures
      var place := |FirstByServer(walk[..q])|;
      if walk[q].addr in Servers(walk[..q])
      then FirstByServer(walk[..q + 1]) == FirstByServer(walk[..q])
      else place < |FirstByServer(walk)| && FirstByServer(walk)[place] == walk[q]
  {
    FirstByServerFacts(walk[..q]);
    ListedServers(FirstByServer(walk[..q]), walk[q].addr);
    FirstByServerPrefix(walk, q + 1);
    assert walk[..q + 1][..q] == walk[..q];
  }

  // ---------- replica lists without the walk ----------

  /** The node k steps clockwise of node p. */
  function Clockwise(ring: seq<Node>, p: nat, k: nat): Node
    requires p < |ring| && k < |ring|
  {
    if p + k < |ring| then ring[p + k] else ring[p + k - |ring|]
  }

  ghost predicate InOrder(places: seq<nat>) {
    forall i, j :: 0 <= i < j < |places| ==> places[i] < places[j]
  }

  /** The server of the node q steps from p is listed from a node no farther away. */
  ghost predicate Covered(ring: seq<Node>, p: nat, list: seq<Node>, places: seq<nat>, q: nat)
    requires p < |ring| && q < |ring| && |places| == |list|
  {
    exists i :: 0 <= i < |list| && places[i] <= q && list[i].addr == Clockwise(ring, p, q).addr
  }

  /** `list` is complete, and ends before the node q steps away. */
  ghost predicate FullBefore(places: seq<nat>, wanted: nat, q: nat) {
    |places| == wanted && forall i :: 0 <= i < |places| ==> places[i] < q
  }

  /** The listed nodes are on different servers, stand in the given clockwise places, and pass over no new server. */
  ghost predicate FirstsFrom(ring: seq<Node>, p: nat, wanted: nat, list: seq<Node>, places: seq<nat>)
    requires p < |ring|
  {
    && |places| == |list| <= wanted
    && InOrder(places) && DistinctServers(list)
    && (forall i :: 0 <= i < |list| ==> places[i] < |ring| && list[i] == Clockwise(ring, p, places[i]))
    && forall q :: 0 <= q < |ring| ==> Covered(ring, p, list, places, q) || FullBefore(places, wanted, q)
  }

  /** Clockwise from the key's digest, the first `wanted` nodes that are on new servers. */
  ghost predicate IsReplicaList(ring: seq<Node>, sha: CStr, wanted: nat, list: seq<Node>) {
    exists p: nat, places: seq<nat> ::
      p < |ring| && IsSuccessor(ring, sha, p) && FirstsFrom(ring, p, wanted, list, places)
  }

  /** Where on the walk the first node of every server is. */
  ghost predicate FirstPlaces(walk: seq<Node>, list: seq<Node>, places: seq<nat>) {
    && |places| == |list| && InOrder(places)
    && (forall i :: 0 <= i < |list| ==> places[i] < |walk| && list[i] == walk[places[i]])
    && forall q :: 0 <= q < |walk| ==> PlacedBy(walk, list, places, q)
  }

  ghost predicate PlacedBy(walk: seq<Node>, list: seq<Node>, places: seq<nat>, q: nat)
    requires |places| == |list| && q < |walk|
  {
    exists i :: 0 <= i < |list| && places[i] <= q && list[i].addr == walk[q].addr
  }

  lemma PlacesSeen(front: seq<Node>, last: Node, list: seq<Node>, places: seq<nat>)
    requires FirstPlaces(front, list, places) && Listed(list, last.addr)
    ensures FirstPlaces(front + [last], list, places)
  {
    forall q | 0 <= q <= |front| ensures PlacedBy(front + [last], list, places, q) {
      if q < |front| {
        assert PlacedBy(front, list, places, q);
      } else {
        var n :| n in list && n.addr == last.addr;
        var i :| 0 <= i < |list| && list[i] == n;
        assert places[i] <= q;
      }
    }
  }

  lemma PlacesNew(front: seq<Node>, last: Node, list: seq<Node>, places: seq<nat>)
    requires FirstPlaces(front, list, places)
    ensures FirstPlaces(front + [last], list + [last], places + [|front|])
  {
    var list', places' := list + [last], places + [|front|];
    forall q | 0 <= q <= |front| ensures PlacedBy(front + [last], list', places', q) {
      if q < |front| {
        assert PlacedBy(front, list, places, q);
        var i :| 0 <= i < |list| && places[i] <= q && list[i].addr == front[q].addr;
        assert list'[i] == list[i] && places'[i] == places[i];
      } else {
        assert list'[|list|] == last && places'[|list|] == q;
      }
    }
  }

  lemma {:induction false} PlacesOnWalk(walk: seq<Node>) returns (places: seq<nat>)
    ensures FirstPlaces(walk, FirstByServer(walk), places)
  {
    hide FirstPlaces, Listed;
    if walk == [] {
      places := [];
      NoPlaces();
    } else {
      var front, last := walk[..|walk| - 1], walk[|walk| - 1];
      assert walk == front + [last];
      var before := PlacesOnWalk(front);
      var list := FirstByServer(front);
      if Listed(list, last.addr) {
        places := before;
        PlacesSeen(front, last, list, before);
      } else {
        places := before + [|front|];
        PlacesNew(front, last, list, before);
      }
    }
  }

  lemma NoPlaces()
    ensures FirstPlaces([], [], [])
  {
  }

  ghost predicate IsRound(walk: seq<Node>, ring: seq<Node>, p: nat)
    requires p < |ring|
  {
    |walk| == |ring| && forall q :: 0 <= q < |ring| ==> walk[q] == Clockwise(ring, p, q)
  }

  lemma WalkIsRound(ring: seq<Node>, sha: CStr)
    requires ring != []
    ensures IsRound(Walk(ring, sha), ring, Start(ring, sha))
  {
  }

  lemma CoveredOrFull(walk: seq<Node>, ring: seq<Node>, p: nat, all: seq<Node>, places: seq<nat>, n: nat, wanted: nat,
                      q: nat)
    requires p < |ring| && q < |ring| && IsRound(walk, ring, p) && FirstPlaces(walk, all, places)
    requires n <= |all| && n <= wanted && (n < |all| ==> n == wanted)
    ensures Covered(ring, p, all[..n], places[..n], q) || FullBefore(places[..n], wanted, q)
  {
    assert PlacedBy(walk, all, places, q);
    var i :| 0 <= i < |all| && places[i] <= q && all[i].addr == walk[q].addr;
    if i < n {
      assert all[..n][i] == all[i] && places[..n][i] == places[i];
    }
  }

  lemma TakenFirsts(walk: seq<Node>, ring: seq<Node>, p: nat, all: seq<Node>, places: seq<nat>, n: nat, wanted: nat)
    requires p < |ring| && IsRound(walk, ring, p) && FirstPlaces(walk, all, places) && DistinctServers(all)
    requires n <= |all| && n <= wanted && (n < |all| ==> n == wanted)
    ensures FirstsFrom(ring, p, wanted, all[..n], places[..n])
  {
    hide PlacedBy, Covered, FullBefore;
    forall q | 0 <= q < |ring|
      ensures Covered(ring, p, all[..n], places[..n], q) || FullBefore(places[..n], wanted, q)
    {
      CoveredOrFull(walk, ring, p, all, places, n, wanted, q);
    }
  }

  lemma ReplicasAreList(ring: seq<Node>, wanted: nat, sha: CStr)
    requires ring != []
    ensures IsReplicaList(ring, sha, wanted, Replicas(ring, wanted, sha))
  {
    hide Walk, FirstByServer, FirstsFrom, FirstPlaces, IsSuccessor, IsRound, DistinctServers;
    var walk, p := Walk(ring, sha), Start(ring, sha);
    WalkIsRound(ring, sha);
    var all := FirstByServer(walk);
    var places := PlacesOnWalk(walk);
    FirstByServerFacts(walk);
    assert |places| == |all| by { PlacesLength(walk, all, places); }
    var n := if wanted <= |all| then wanted else |all|;
    assert all[..|all|] == all;
    TakenFirsts(walk, ring, p, all, places, n, wanted);
  }

  lemma PlacesLength(walk: seq<Node>, list: seq<Node>, places: seq<nat>)
    requires FirstPlaces(walk, list, places)
    ensures |places| == |list|
  {
  }

  /** There is one such list. */
  lemma {:induction false} SamePlaces(ring: seq<Node>, p: nat, wanted: nat, a: seq<Node>, b: seq<Node>,
                                      x: seq<nat>, y: seq<nat>, i: nat)
    requires p < |ring| && FirstsFrom(ring, p, wanted, a, x) && FirstsFrom(ring, p, wanted, b, y)
    requires i <= |a|
    ensures i <= |b| && x[..i] == y[..i] && a[..i] == b[..i]
  {
    if i > 0 {
      SamePlaces(ring, p, wanted, a, b, x, y, i - 1);
      NextPlace(ring, p, wanted, a, b, x, y, i - 1);
      NextPlace(ring, p, wanted, b, a, y, x, i - 1);
      assert x[..i] == x[..i - 1] + [x[i - 1]] && a[..i] == a[..i - 1] + [a[i - 1]];
      assert y[..i] == y[..i - 1] + [y[i - 1]] && b[..i] == b[..i - 1] + [b[i - 1]];
    }
  }

  /** Of two lists that agree so far, the other one has its next node, and not farther away. */
  lemma NextPlace(ring: seq<Node>, p: nat, wanted: nat, a: seq<Node>, b: seq<Node>, x: seq<nat>, y: seq<nat>, i: nat)
    requires p < |ring| && FirstsFrom(ring, p, wanted, a, x) && FirstsFrom(ring, p, wanted, b, y)
    requires i < |a| && i <= |b| && x[..i] == y[..i] && a[..i] == b[..i]
    ensures i < |b| && y[i] <= x[i]
  {
    var q := x[i];
    forall j | 0 <= j < i ensures a[j] == b[j] {
      assert a[..i][j] == b[..i][j];
    }
    if Covered(ring, p, b, y, q) {
      var j :| 0 <= j < |b| && y[j] <= q && b[j].addr == Clockwise(ring, p, q).addr;
      assert j >= i;
    }
  }

  /** Being such a list decides which list it is. */
  lemma IsReplicaListIff(ring: seq<Node>, wanted: nat, sha: CStr, list: seq<Node>)
    requires ring != []
    ensures IsReplicaList(ring, sha, wanted, list) <==> list == Replicas(ring, wanted, sha)
  {
    hide FirstsFrom, IsSuccessor;
    ReplicasAreList(ring, wanted, sha);
    if IsReplicaList(ring, sha, wanted, list) {
      var p: nat, x: seq<nat> :|
        p < |ring| && IsSuccessor(ring, sha, p) && FirstsFrom(ring, p, wanted, list, x);
      var other := Replicas(ring, wanted, sha);
      var p': nat, y: seq<nat> :|
        p' < |ring| && IsSuccessor(ring, sha, p') && FirstsFrom(ring, p', wanted, other, y);
      OneSuccessor(ring, sha, p, p');
      SamePlaces(ring, p, wanted, list, other, x, y, |list|);
      SamePlaces(ring, p, wanted, other, list, y, x, |other|);
      assert list[..|list|] == list && other[..|other|] == other;
    }
  }

  /** The first replica is the key's successor. */
  lemma FirstReplica(ring: seq<Node>, sha: CStr, wanted: nat, list: seq<Node>)
    requires IsReplicaList(ring, sha, wanted, list) && wanted > 0
    ensures exists p: nat :: IsSuccessor(ring, sha, p) && list != [] && list[0] == ring[p]
  {
    hide IsSuccessor;
    var p: nat, places: seq<nat> :|
      p < |ring| && IsSuccessor(ring, sha, p) && FirstsFrom(ring, p, wanted, list, places);
    assert Covered(ring, p, list, places, 0) || FullBefore(places, wanted, 0);
    assert list != [] && list[0] == Clockwise(ring, p, places[0]);
    assert places[0] == 0;
  }

  lemma OneSuccessor(ring: seq<Node>, sha: CStr, p: nat, p': nat)
    requires IsSuccessor(ring, sha, p) && IsSuccessor(ring, sha, p')
    ensures p == p' < |ring|
  {
    hide Precedes;
  }

  lemma WalkServers(ring: seq<Node>, sha: CStr)
    ensures Servers(Walk(ring, sha)) == Servers(ring)
  {
    var i := Start(ring, sha);
    assert ring == ring[..i] + ring[i..];
    ServersConcat(ring[..i], ring[i..]);
    ServersConcat(ring[i..], ring[..i]);
  }

  lemma {:induction false} DistinctCount(nodes: seq<Node>)
    requires DistinctServers(nodes)
    ensures |Servers(nodes)| == |nodes|
  {
    if nodes != [] {
      var head, rest := nodes[0], nodes[1..];
      DistinctRest(nodes);
      DistinctCount(rest);
      assert nodes == [head] + rest;
      ServersConcat([head], rest);
      OneServer(head);
    }
  }

  lemma DistinctRest(nodes: seq<Node>)
    requires DistinctServers(nodes) && nodes != []
    ensures DistinctServers(nodes[1..]) && nodes[0].addr !in Servers(nodes[1..])
  {
  }

  /** As many replicas as wanted or as there are servers, all on different servers. */
  lemma ReplicasExact(ring: seq<Node>, n: nat, sha: CStr)
    ensures DistinctServers(Replicas(ring, n, sha))
    ensures Servers(Replicas(ring, n, sha)) <= Servers(ring)
    ensures |Replicas(ring, n, sha)| == |Servers(Replicas(ring, n, sha))|
    ensures |Replicas(ring, n, sha)| == if n <= |Servers(ring)| then n else |Servers(ring)|
  {
    var all := Preference(ring, sha);
    FirstByServerFacts(Walk(ring, sha));
    WalkServers(ring, sha);
    DistinctCount(all);
    DistinctCount(Replicas(ring, n, sha));
    assert forall a :: a in Servers(Replicas(ring, n, sha)) ==> a in Servers(all);
  }

  /** Clients with different numbers of replicas agree on the shorter list. */
  lemma PrefixMonotone(ring: seq<Node>, n: nat, m: nat, sha: CStr)
    requires n <= m
    ensures Replicas(ring, n, sha) <= Replicas(ring, m, sha)
    ensures Servers(Replicas(ring, n, sha)) <= Servers(Replicas(ring, m, sha))
  {
    assert forall x :: x in Replicas(ring, n, sha) ==> x in Replicas(ring, m, sha);
  }

  // ---------- minimal disruption ----------

  /** The nodes that are not on server `addr`. */
  function Without(nodes: seq<Node>, addr: Addr): seq<Node> {
    if nodes == [] then []
    else
      var front := Without(nodes[..|nodes| - 1], addr);
      var last := nodes[|nodes| - 1];
      if last.addr == addr then front else front + [last]
  }

  lemma {:induction false} WithoutConcat(a: seq<Node>, b: seq<Node>, addr: Addr)
    ensures Without(a + b, addr) == Without(a, addr) + Without(b, addr)
  {
    if b == [] {
      assert a + b == a;
    } else {
      assert (a + b)[..|a + b| - 1] == a + b[..|b| - 1];
      WithoutConcat(a, b[..|b| - 1], addr);
    }
  }

  lemma {:induction false} WithoutIn(nodes: seq<Node>, addr: Addr, n: Node)
    ensures n in Without(nodes, addr) <==> n in nodes && n.addr != addr
  {
    if nodes != [] {
      WithoutIn(nodes[..|nodes| - 1], addr, n);
      assert nodes == nodes[..|nodes| - 1] + [nodes[|nodes| - 1]];
    }
  }

  lemma WithoutMultiset(a: seq<Node>, b: seq<Node>, addr: Addr)
    requires multiset(a) == multiset(b)
    ensures multiset(Without(a, addr)) == multiset(Without(b, addr))
  {
    forall n ensures multiset(Without(a, addr))[n] == multiset(Without(b, addr))[n] {
      WithoutCount(a, addr, n);
      WithoutCount(b, addr, n);
    }
  }

  lemma {:induction false} WithoutCount(nodes: seq<Node>, addr: Addr, n: Node)
    ensures multiset(Without(nodes, addr))[n] == if n.addr == addr then 0 else multiset(nodes)[n]
  {
    if nodes != [] {
      WithoutCount(nodes[..|nodes| - 1], addr, n);
      assert nodes == nodes[..|nodes| - 1] + [nodes[|nodes| - 1]];
    }
  }

  lemma {:induction false} WithoutSorted(nodes: seq<Node>, addr: Addr)
    requires Sorted(nodes)
    ensures Sorted(Without(nodes, addr))
  {
    if nodes != [] {
      var front := nodes[..|nodes| - 1];
      var last := nodes[|nodes| - 1];
      WithoutSorted(front, addr);
      forall i | 0 <= i < |Without(front, addr)| ensures NodeCmpSha(Without(front, addr)[i], last) <= 0 {
        var n := Without(front, addr)[i];
        WithoutIn(front, addr, n);
        var j :| 0 <= j < |front| && front[j] == n;
        assert nodes[j] == n;
      }
    }
  }

  /** Dropping a server before or after keeping first occurrences is the same. */
  lemma {:induction false} FirstByServerWithout(walk: seq<Node>, addr: Addr)
    ensures FirstByServer(Without(walk, addr)) == Without(FirstByServer(walk), addr)
  {
    if walk != [] {
      var front := walk[..|walk| - 1];
      var last := walk[|walk| - 1];
      FirstByServerWithout(front, addr);
      WithoutListed(FirstByServer(front), addr, last.addr);
      if last.addr != addr {
        assert (Without(front, addr) + [last])[..|Without(front, addr)|] == Without(front, addr);
      }
      WithoutConcat(FirstByServer(front), [last], addr);
      assert Without([last], addr) == (if last.addr == addr then [] else [last]) by {
        assert [last][..0] == [];
      }
    }
  }

  lemma WithoutListed(nodes: seq<Node>, addr: Addr, other: Addr)
    ensures Listed(Without(nodes, addr), other) <==> other != addr && Listed(nodes, other)
  {
    if Listed(Without(nodes, addr), other) {
      var n :| n in Without(nodes, addr) && n.addr == other;
      WithoutIn(nodes, addr, n);
    }
    if other != addr && Listed(nodes, other) {
      var n :| n in nodes && n.addr == other;
      WithoutIn(nodes, addr, n);
    }
  }

  /** Nodes below the key are passed over by the search, whatever follows them. */
  lemma {:induction false} FirstAtLeastSplit(low: seq<Node>, high: seq<Node>, sha: CStr)
    requires forall n :: n in low ==> StrCmp(sha, n.sha) > 0
    requires forall n :: n in high ==> StrCmp(sha, n.sha) <= 0
    ensures FirstAtLeast(low + high, sha) == |low|
  {
    if low == [] {
      assert low + high == high;
    } else {
      assert (low + high)[0] == low[0] && (low + high)[1..] == low[1..] + high;
      FirstAtLeastSplit(low[1..], high, sha);
    }
  }

  lemma WalkSplit(low: seq<Node>, high: seq<Node>, sha: CStr)
    requires forall n :: n in low ==> StrCmp(sha, n.sha) > 0
    requires forall n :: n in high ==> StrCmp(sha, n.sha) <= 0
    ensures Walk(low + high, sha) == high + low
  {
    FirstAtLeastSplit(low, high, sha);
    assert (low + high)[..|low|] == low && (low + high)[|low|..] == high;
    if high == [] {
      assert low + high == low && high + low == low;
    }
  }

  /** A sorted ring is the nodes below the key followed by the others. */
  lemma SortedSplit(ring: seq<Node>, sha: CStr) returns (low: seq<Node>, high: seq<Node>)
    requires Sorted(ring)
    ensures ring == low + high
    ensures forall n :: n in low ==> StrCmp(sha, n.sha) > 0
    ensures forall n :: n in high ==> StrCmp(sha, n.sha) <= 0
  {
    hide StrCmp;
    var i := FirstAtLeast(ring, sha);
    low, high := ring[..i], ring[i..];
    forall n | n in high ensures StrCmp(sha, n.sha) <= 0 {
      var j :| 0 <= j < |high| && high[j] == n;
      if j > 0 {
        StrCmpTransitive(sha, ring[i].sha, ring[i + j].sha);
      }
    }
  }

  lemma WalkWithout(ring: seq<Node>, addr: Addr, sha: CStr)
    requires Sorted(ring)
    ensures Walk(Without(ring, addr), sha) == Without(Walk(ring, sha), addr)
  {
    var low, high := SortedSplit(ring, sha);
    WalkSplit(low, high, sha);
    WithoutConcat(low, high, addr);
    WithoutConcat(high, low, addr);
    forall n ensures n in Without(low, addr) ==> n in low {
      WithoutIn(low, addr, n);
    }
    forall n ensures n in Without(high, addr) ==> n in high {
      WithoutIn(high, addr, n);
    }
    WalkSplit(Without(low, addr), Without(high, addr), sha);
  }

  /** Removing a server removes it from every key's preference order and changes nothing else. */
  lemma {:induction false} PreferenceWithout(ring: seq<Node>, addr: Addr, sha: CStr)
    requires Sorted(ring)
    ensures Preference(Without(ring, addr), sha) == Without(Preference(ring, sha), addr)
  {
    WalkWithout(ring, addr, sha);
    FirstByServerWithout(Walk(ring, sha), addr);
  }

  /**
   * Minimal disruption: after a server leaves, the old replicas other than that server
   * come first in the new list, which has at most one server the old one had not.
   */
  lemma {:induction false} MinimalDisruption(ring: seq<Node>, addr: Addr, n: nat, sha: CStr)
    requires Sorted(ring)
    ensures Without(Replicas(ring, n, sha), addr) <= Replicas(Without(ring, addr), n, sha)
    ensures |Replicas(Without(ring, addr), n, sha)| <= |Without(Replicas(ring, n, sha), addr)| + 1
    ensures addr !in Servers(Replicas(ring, n, sha)) ==>
      Replicas(Without(ring, addr), n, sha) == Replicas(ring, n, sha)
  {
    PreferenceWithout(ring, addr, sha);
    FirstByServerFacts(Walk(ring, sha));
    TakeWithout(Preference(ring, sha), n, addr);
    ListedServers(Replicas(ring, n, sha), addr);
  }

  lemma TakeWithout(all: seq<Node>, n: nat, addr: Addr)
    requires DistinctServers(all)
    ensures Without(Take(all, n), addr) <= Take(Without(all, addr), n)
    ensures |Take(Without(all, addr), n)| <= |Without(Take(all, n), addr)| + 1
    ensures !Listed(Take(all, n), addr) ==> Take(Without(all, addr), n) == Take(all, n)
  {
    var head := Take(all, n);
    var tail := all[|head|..];
    assert all == head + tail;
    WithoutConcat(head, tail, addr);
    WithoutLength(head, addr);
    WithoutLength(all, addr);
  }

  /** Servers appear once each, so dropping one shortens the list by at most one. */
  lemma {:induction false} WithoutLength(nodes: seq<Node>, addr: Addr)
    requires DistinctServers(nodes)
    ensures |nodes| - 1 <= |Without(nodes, addr)| <= |nodes|
    ensures !Listed(nodes, addr) ==> Without(nodes, addr) == nodes
  {
    if nodes != [] {
      var front := nodes[..|nodes| - 1];
      var last := nodes[|nodes| - 1];
      WithoutLength(front, addr);
      assert nodes == front + [last];
      assert last in nodes;
      assert last.addr == addr ==> !Listed(front, addr);
      assert !Listed(nodes, addr) ==> !Listed(front, addr);
    }
  }

  // ---------- agreement between clients ----------

  ghost predicate IsRing(lib: Lib, records: seq<Record>, ring: seq<Node>) {
    && (forall r :: r in records ==> Usable(lib, r))
    && Arranges(ring, Expand(lib, records))
  }

  lemma {:induction false} ExpandConcat(lib: Lib, a: seq<Record>, b: seq<Record>)
    requires forall r :: r in a + b ==> Usable(lib, r)
    requires forall r :: r in a ==> Usable(lib, r)
    requires forall r :: r in b ==> Usable(lib, r)
    ensures Expand(lib, a + b) == Expand(lib, a) + Expand(lib, b)
  {
    if b == [] {
      assert a + b == a;
    } else {
      assert (a + b)[..|a + b| - 1] == a + b[..|b| - 1];
      ExpandConcat(lib, a, b[..|b| - 1]);
    }
  }

  lemma {:induction false} ExpandSplit(lib: Lib, a: seq<Record>, r: Record, b: seq<Record>)
    requires forall x :: x in a ==> Usable(lib, x)
    requires forall x :: x in b ==> Usable(lib, x)
    requires Usable(lib, r)
    ensures forall x :: x in a + b ==> Usable(lib, x)
    ensures forall x :: x in a + [r] + b ==> Usable(lib, x)
    ensures multiset(Expand(lib, a + [r] + b)) ==
            multiset(Expand(lib, a + b)) + multiset(VirtualNodes(lib, r, r.count))
  {
    hide VirtualNodes;
    ExpandConcat(lib, a, b);
    ExpandConcat(lib, a + [r], b);
    assert (a + [r])[..|a|] == a;
  }

  lemma RemoveOne(a: seq<Record>, r: Record, b: seq<Record>, c: seq<Record>)
    requires multiset(a + [r] + b) == multiset(c + [r])
    ensures multiset(a + b) == multiset(c)
  {
    assert multiset(a + [r] + b) - multiset{r} == multiset(a + b);
    assert multiset(c + [r]) - multiset{r} == multiset(c);
  }

  lemma {:induction false} ExpandPermutes(lib: Lib, a: seq<Record>, b: seq<Record>)
    requires forall r :: r in a ==> Usable(lib, r)
    requires multiset(a) == multiset(b)
    ensures forall r :: r in b ==> Usable(lib, r)
    ensures multiset(Expand(lib, a)) == multiset(Expand(lib, b))
  {
    forall r | r in b ensures r in a {
      assert r in multiset(a);
    }
    if a == [] {
      assert |b| == |multiset(b)| == 0;
    } else {
      var front, last := a[..|a| - 1], a[|a| - 1];
      assert a == front + [last];
      assert last in multiset(b);
      var i :| 0 <= i < |b| && b[i] == last;
      assert b == b[..i] + [last] + b[i + 1..];
      RemoveOne(b[..i], last, b[i + 1..], front);
      ExpandPermutes(lib, front, b[..i] + b[i + 1..]);
      ExpandSplit(lib, b[..i], last, b[i + 1..]);
    }
  }

  /** Clients whose server lists are permutations of each other use the same replicas. */
  lemma ClientsAgree(lib: Lib, records: seq<Record>, records': seq<Record>,
                     ring: seq<Node>, ring': seq<Node>, n: nat, sha: CStr)
    requires IsRing(lib, records, ring) && IsRing(lib, records', ring')
    requires multiset(records) == multiset(records')
    requires DigestsDecide(Expand(lib, records))
    ensures ring == ring'
    ensures Replicas(ring, n, sha) == Replicas(ring', n, sha)
  {
    ExpandPermutes(lib, records, records');
    DigestsDecidePermute(Expand(lib, records), ring);
    SortedUnique(ring, ring');
  }

  /** The server list without the lines of one server. */
  function WithoutRecords(lib: Lib, records: seq<Record>, addr: Addr): seq<Record>
    requires forall r :: r in records ==> Usable(lib, r)
  {
    if records == [] then []
    else
      var front := WithoutRecords(lib, records[..|records| - 1], addr);
      var last := records[|records| - 1];
      if ServerOf(lib, last) == addr then front else front + [last]
  }

  lemma {:induction false} ExpandWithout(lib: Lib, records: seq<Record>, addr: Addr)
    requires forall r :: r in records ==> Usable(lib, r)
    ensures forall r :: r in WithoutRecords(lib, records, addr) ==> Usable(lib, r)
    ensures Expand(lib, WithoutRecords(lib, records, addr)) == Without(Expand(lib, records), addr)
  {
    if records != [] {
      var front := records[..|records| - 1];
      var last := records[|records| - 1];
      ExpandWithout(lib, front, addr);
      var nodes := VirtualNodes(lib, last, last.count);
      WithoutConcat(Expand(lib, front), nodes, addr);
      WithoutUniform(nodes, ServerOf(lib, last), addr);
      var kept := WithoutRecords(lib, front, addr);
      assert (kept + [last])[..|kept|] == kept;
    }
  }

  lemma {:induction false} WithoutUniform(nodes: seq<Node>, server: Addr, addr: Addr)
    requires forall i :: 0 <= i < |nodes| ==> nodes[i].addr == server
    ensures Without(nodes, addr) == if server == addr then [] else nodes
  {
    if nodes != [] {
      WithoutUniform(nodes[..|nodes| - 1], server, addr);
    }
  }

  /**
   * End to end: a client whose server list no longer has the lines of one server sends a
   * key to its old replicas, minus that server, followed by at most one other.
   */
  lemma {:induction false} ServerLeaves(lib: Lib, records: seq<Record>, addr: Addr,
                                        ring: seq<Node>, ring': seq<Node>, n: nat, sha: CStr)
    requires IsRing(lib, records, ring) && DigestsDecide(ring)
    requires IsRing(lib, WithoutRecords(lib, records, addr), ring')
    ensures Without(Replicas(ring, n, sha), addr) <= Replicas(ring', n, sha)
    ensures |Replicas(ring', n, sha)| <= |Without(Replicas(ring, n, sha), addr)| + 1
    ensures addr !in Servers(Replicas(ring, n, sha)) ==> Replicas(ring', n, sha) == Replicas(ring, n, sha)
  {
    ExpandWithout(lib, records, addr);
    WithoutMultiset(ring, Expand(lib, records), addr);
    WithoutSorted(ring, addr);
    WithoutDecides(ring, addr);
    SortedUnique(Without(ring, addr), ring');
    MinimalDisruption(ring, addr, n, sha);
  }

  lemma WithoutDecides(nodes: seq<Node>, addr: Addr)
    requires DigestsDecide(nodes)
    ensures DigestsDecide(Without(nodes, addr))
  {
    forall n ensures n in Without(nodes, addr) ==> n in nodes {
      WithoutIn(nodes, addr, n);
    }
  }

  // ---------- ring.c ----------

  lemma RingNodes(lib: Lib, records: seq<Record>, ring: seq<Node>)
    requires IsRing(lib, records, ring)
    ensures exists nodes :: InFileOrder(lib, records, nodes) && multiset(ring) == multiset(nodes)
    ensures forall n :: n in ring ==> OfSome(lib, records, n)
    ensures Ascending(ring)
  {
    hide OfSome, NodeAt, Sorted, Ascending;
    var nodes := Expand(lib, records);
    ExpandInFileOrder(lib, records);
    SortedAscending(ring);
    forall n | n in ring ensures OfSome(lib, records, n) {
      assert n in multiset(nodes);
    }
  }

  /** Null exactly when the server list cannot be used. */
  method RingInit(lib: Lib, records: seq<Record>) returns (ring: List?)
    ensures ring == null <==> exists r :: r in records && (r.count == 0 || lib.parseIp(r.ip).None?)
    ensures ring != null ==> fresh(ring) && ring.Valid() && fresh(ring.nodes)
    ensures ring != null ==> IsRing(lib, records, ring.Contents())
    ensures ring != null ==>
      exists nodes :: InFileOrder(lib, records, nodes) && multiset(ring.Contents()) == multiset(nodes)
    ensures ring != null ==> forall n :: n in ring.Contents() ==> OfSome(lib, records, n)
    ensures ring != null ==> Ascending(ring.Contents())
  {
    hide InFileOrder, OfSome, Ascending;
    ring := GetNodes(lib, records);
    if ring != null {
      ring.Sort();
      RingNodes(lib, records, ring.Contents());
    }
  }

  /** Appending a node of an already listed server changes nothing. */
  lemma {:induction false} FirstByServerSeen(walk: seq<Node>, more: seq<Node>)
    requires forall n :: n in more ==> n.addr in Servers(walk)
    ensures FirstByServer(walk + more) == FirstByServer(walk)
  {
    if more == [] {
      assert walk + more == walk;
    } else {
      var k := |more| - 1;
      assert (walk + more)[..|walk + more| - 1] == walk + more[..k];
      FirstByServerSeen(walk, more[..k]);
      FirstByServerFacts(walk);
      assert more[k] in more;
      ListedServers(FirstByServer(walk), more[k].addr);
    }
  }

  /** The nodes the loop looks at: from the start to the end, then one whole pass. */
  function TwoPasses(ring: seq<Node>, start: nat): seq<Node>
    requires start <= |ring|
  {
    ring[start..] + ring
  }

  lemma TwoPassesSuffice(ring: seq<Node>, sha: CStr)
    ensures FirstByServer(TwoPasses(ring, Start(ring, sha))) == Preference(ring, sha)
  {
    var i := Start(ring, sha);
    assert TwoPasses(ring, i) == Walk(ring, sha) + ring[i..];
    WalkServers(ring, sha);
    forall n | n in ring[i..] ensures n.addr in Servers(Walk(ring, sha)) {
      assert n in ring;
    }
    FirstByServerSeen(Walk(ring, sha), ring[i..]);
  }

  method SearchStart(ring: List, sha: CStr) returns (position: nat)
    requires ring.Valid() && ring.size > 0
    ensures position < ring.size
    ensures position == Start(ring.Contents(), sha)
    ensures IsSuccessor(ring.Contents(), sha, position)
  {
    ghost var nodes := ring.Contents();
    position := 0;
    while StrCmp(sha, ring.nodes[position].sha) > 0
      invariant position < ring.size
      invariant forall j :: 0 <= j < position ==> StrCmp(sha, nodes[j].sha) > 0
      decreases ring.size - position
    {
      position := position + 1;
      if position >= ring.size {
        assert forall j :: 0 <= j < |nodes| ==> StrCmp(sha, nodes[j].sha) > 0;
        return 0;
      }
    }
    assert StrCmp(sha, nodes[position].sha) <= 0;
  }

  /** How many nodes the loop has looked at, when it is about to look at `position`. */
  function Seen(size: nat, start: nat, looped: nat, position: nat): int {
    if looped == 0 then position - start else size - start + position
  }

  /** The loop is about to look at `position`; the node at `start` was listed before the loop. */
  ghost predicate Visiting(circle: seq<Node>, start: nat, looped: nat, position: nat, nodes: seq<Node>) {
    && start < |circle| && position < |circle| && looped <= 1 && (looped == 0 ==> start <= position)
    && var seen := Seen(|circle|, start, looped, position);
    && nodes == FirstByServer(TwoPasses(circle, start)[..if seen == 0 then 1 else seen])
  }

  lemma VisitFirst(circle: seq<Node>, start: nat)
    requires start < |circle|
    ensures Visiting(circle, start, 0, start, [circle[start]])
  {
    var trail := TwoPasses(circle, start);
    assert trail[..1] == [circle[start]] && trail[..1][..0] == [];
  }

  lemma VisitNext(circle: seq<Node>, start: nat, looped: nat, position: nat, nodes: seq<Node>, nodes': seq<Node>)
    requires Visiting(circle, start, looped, position, nodes)
    requires nodes' == nodes + if circle[position].addr in Servers(nodes) then [] else [circle[position]]
    ensures position + 1 < |circle| ==> Visiting(circle, start, looped, position + 1, nodes')
    ensures position + 1 == |circle| && looped == 0 ==> Visiting(circle, start, 1, 0, nodes')
    ensures position + 1 == |circle| && looped == 1 ==> nodes' == FirstByServer(TwoPasses(circle, start))
  {
    var trail := TwoPasses(circle, start);
    var seen := Seen(|circle|, start, looped, position);
    assert trail[seen] == circle[position];
    ListedServers(nodes, trail[seen].addr);
    if seen == 0 {
      FirstByServerFacts(trail[..1]);
      assert trail[0] in trail[..1];
    } else {
      assert trail[..seen + 1][..seen] == trail[..seen];
    }
    assert nodes' == FirstByServer(trail[..seen + 1]);
    assert trail[..|trail|] == trail;
  }

  /** The walk may stop as soon as it has listed enough servers. */
  lemma WalkEnough(circle: seq<Node>, sha: CStr, looped: nat, position: nat, nodes: seq<Node>)
    requires Visiting(circle, Start(circle, sha), looped, position, nodes)
    ensures nodes == Replicas(circle, |nodes|, sha)
  {
    var start := Start(circle, sha);
    var seen := Seen(|circle|, start, looped, position);
    TwoPassesSuffice(circle, sha);
    FirstByServerPrefix(TwoPasses(circle, start), if seen == 0 then 1 else seen);
  }

  /** After the second pass it has listed every server. */
  lemma WalkAll(circle: seq<Node>, sha: CStr, wanted: nat, nodes: seq<Node>)
    requires nodes == FirstByServer(TwoPasses(circle, Start(circle, sha)))
    requires |nodes| <= wanted
    ensures nodes == Replicas(circle, wanted, sha)
  {
    TwoPassesSuffice(circle, sha);
  }

  method AddUnlessContained(nodes: List, node: Node) returns (added: bool)
    requires nodes.Valid()
    modifies nodes, nodes.nodes
    ensures nodes.Valid() && (nodes.nodes == old(nodes.nodes) || fresh(nodes.nodes))
    ensures added <==> node.addr !in Servers(old(nodes.Contents()))
    ensures nodes.Contents() == old(nodes.Contents()) + if added then [node] else []
  {
    var found := nodes.Contains(node);
    if !found {
      nodes.Add(node);
    }
    added := !found;
  }

  /** One turn of the loop of the walk; `looped` becomes 2 when the loop is left at the end of the second pass. */
  method VisitNode(ring: List, nodes: List, position: nat, looped: nat, left: nat, ghost start: nat)
    returns (position': nat, looped': nat, left': nat)
    requires ring.Valid() && nodes.Valid() && ring != nodes && ring.nodes != nodes.nodes && left > 0
    requires Visiting(ring.Contents(), start, looped, position, nodes.Contents())
    modifies nodes, nodes.nodes
    ensures nodes.Valid() && (nodes.nodes == old(nodes.nodes) || fresh(nodes.nodes))
    ensures nodes.size + left' == old(nodes.size) + left
    ensures looped' < 2 ==> Visiting(ring.Contents(), start, looped', position', nodes.Contents())
    ensures looped' < 2 ==> looped < looped' || (looped == looped' && position < position')
    ensures looped' >= 2 ==> nodes.Contents() == FirstByServer(TwoPasses(ring.Contents(), start))
  {
    ghost var before := nodes.Contents();
    var added := AddUnlessContained(nodes, ring.nodes[position]);
    VisitNext(ring.Contents(), start, looped, position, before, nodes.Contents());
    left' := if added then left - 1 else left;
    position', looped' := position + 1, looped;
    if position' >= ring.size {
      position', looped' := 0, looped + 1;
    }
  }

  /** The loop of the walk: at most two passes over the ring. */
  method CollectServers(ring: List, nodes: List, start: nat, wanted: nat, ghost sha: CStr)
    requires ring.Valid() && nodes.Valid() && ring != nodes && ring.nodes != nodes.nodes
    requires start < ring.size && start == Start(ring.Contents(), sha)
    requires nodes.Contents() == [ring.Contents()[start]] && wanted > 0
    modifies nodes, nodes.nodes
    ensures nodes.Valid() && (nodes.nodes == old(nodes.nodes) || fresh(nodes.nodes))
    ensures nodes.Contents() == Replicas(ring.Contents(), wanted, sha)
  {
    hide Visiting, Start, FirstByServer, Replicas;
    var position, left, looped := start, wanted - 1, 0;
    VisitFirst(ring.Contents(), start);
    while left != 0
      invariant nodes.Valid() && (nodes.nodes == old(nodes.nodes) || fresh(nodes.nodes))
      invariant ring.nodes != nodes.nodes
      invariant Visiting(ring.Contents(), start, looped, position, nodes.Contents())
      invariant left >= 0 && nodes.size + left == wanted
      decreases 2 - looped, ring.size - position
    {
      position, looped, left := VisitNode(ring, nodes, position, looped, left, start);
      if looped >= 2 {
        break;
      }
    }
    if looped >= 2 {
      WalkAll(ring.Contents(), sha, wanted, nodes.Contents());
    } else {
      WalkEnough(ring.Contents(), sha, looped, position, nodes.Contents());
    }
  }

  /** Null exactly when no node is wanted. */
  method RingGetNodesForKey(ring: List, wantedListSize: nat, key: CStr, lib: Lib) returns (nodes: List?)
    requires ring.Valid() && ring.size > 0
    ensures nodes == null <==> wantedListSize == 0
    ensures nodes != null ==> fresh(nodes) && nodes.Valid() && fresh(nodes.nodes)
    ensures nodes != null ==>
      nodes.Contents() == Replicas(ring.Contents(), wantedListSize, CString(lib.sha1(key)))
    ensures nodes != null ==>
      IsReplicaList(ring.Contents(), CString(lib.sha1(key)), wantedListSize, nodes.Contents())
    ensures nodes != null ==>
      exists p: nat :: IsSuccessor(ring.Contents(), CString(lib.sha1(key)), p) &&
        nodes.Contents() != [] && nodes.Contents()[0] == ring.Contents()[p]
  {
    hide Replicas, IsSuccessor, IsReplicaList, CString;
    if wantedListSize == 0 {
      return null;
    }
    var sha := CString(lib.sha1(key));
    var start := SearchStart(ring, sha);
    nodes := new List();
    nodes.Add(ring.nodes[start]);
    CollectServers(ring, nodes, start, wantedListSize, sha);
    ReplicasAreList(ring.Contents(), wantedListSize, sha);
    FirstReplica(ring.Contents(), sha, wantedListSize, nodes.Contents());
  }
}
