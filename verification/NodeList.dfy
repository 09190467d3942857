/**
 * Ring nodes (node.c) and growing lists of them (node_list.c).
 *
 * A digest is only ever read through strcmp and copied through strcpy, so a node
 * carries the C string that those functions see: the digest up to its first zero byte.
 * SHA-1 and the parsing of a dotted address are parameters.
 */
module NodeList {
  import opened Bytes

  const ALLOCATED_MEMORY_LIST: nat := 32
  const SIZE_T_RANGE: nat := 0x1_0000_0000_0000_0000

  type size_t = n: int | 0 <= n < SIZE_T_RANGE

  datatype Addr = Addr(ip: nat, port: nat)
  datatype Node = Node(addr: Addr, id: nat, sha: CStr)

  // ---------- node.c ----------

  const SPACE: byte := 32

  function Decimal(n: nat): (digits: CStr)
    ensures |digits| > 0
    ensures forall i :: 0 <= i < |digits| ==> 48 <= digits[i] < 58
  {
    if n < 10 then [48 + n] else Decimal(n / 10) + [48 + n % 10]
  }

  /** The number that a sequence of decimal digits stands for. */
  function DecimalValue(digits: seq<byte>): int {
    if digits == [] then 0
    else 10 * DecimalValue(digits[..|digits| - 1]) + digits[|digits| - 1] - 48
  }

  /** Decimal notation: digits only, at least one, no leading zero before others. */
  ghost predicate IsDecimal(digits: seq<byte>, n: nat) {
    && digits != [] && (forall i :: 0 <= i < |digits| ==> 48 <= digits[i] < 58)
    && (digits[0] == 48 ==> |digits| == 1)
    && DecimalValue(digits) == n
  }

  lemma {:induction false} DecimalCorrect(n: nat)
    ensures IsDecimal(Decimal(n), n)
  {
    var d := Decimal(n);
    if n < 10 {
      assert d[..0] == [];
    } else {
      DecimalCorrect(n / 10);
      assert d[..|d| - 1] == Decimal(n / 10);
      assert n / 10 > 0 ==> Decimal(n / 10) != [48];
    }
  }

  lemma {:induction false} DecimalInjective(m: nat, n: nat)
    requires Decimal(m) == Decimal(n)
    ensures m == n
  {
    var d := Decimal(m);
    assert m >= 10 ==> |Decimal(m / 10)| > 0;
    assert n >= 10 ==> |Decimal(n / 10)| > 0;
    assert d[|d| - 1] == 48 + m % 10 == 48 + n % 10;
    if m >= 10 && n >= 10 {
      assert Decimal(m / 10) == d[..|d| - 1] == Decimal(n / 10);
      DecimalInjective(m / 10, n / 10);
    }
  }

  /** The text whose digest places a virtual node on the ring: address, port and id. */
  function Identity(ip: CStr, port: nat, id: nat): CStr {
    ip + [SPACE] + Decimal(port) + [SPACE] + Decimal(id)
  }

  /** The text is the address, the port and the id in decimal notation, apart by single spaces. */
  lemma IdentityText(ip: CStr, port: nat, id: nat)
    ensures exists p: CStr, q: CStr ::
      IsDecimal(p, port) && IsDecimal(q, id) && Identity(ip, port, id) == ip + [32] + p + [32] + q
  {
    DecimalCorrect(port);
    DecimalCorrect(id);
  }

  lemma SplitAtSpace(a: seq<byte>, x: seq<byte>, b: seq<byte>, y: seq<byte>)
    requires SPACE !in a && SPACE !in b
    requires a + [SPACE] + x == b + [SPACE] + y
    ensures a == b && x == y
  {
    var s := a + [SPACE] + x;
    assert s[|a|] == SPACE && s[|b|] == SPACE;
    assert a == s[..|a|] && b == s[..|b|];
    assert |a| == |b| by {
      assert forall i :: 0 <= i < |a| ==> s[i] == a[i];
      assert forall i :: 0 <= i < |b| ==> s[i] == b[i];
    }
    assert x == s[|a| + 1..] && y == s[|b| + 1..];
  }

  /** Different virtual nodes hash different texts. */
  lemma IdentityInjective(ip: CStr, port: nat, id: nat, ip': CStr, port': nat, id': nat)
    requires SPACE !in ip && SPACE !in ip'
    requires Identity(ip, port, id) == Identity(ip', port', id')
    ensures ip == ip' && port == port' && id == id'
  {
    var rest := Decimal(port) + [SPACE] + Decimal(id);
    var rest' := Decimal(port') + [SPACE] + Decimal(id');
    assert Identity(ip, port, id) == ip + [SPACE] + rest;
    assert Identity(ip', port', id') == ip' + [SPACE] + rest';
    SplitAtSpace(ip, rest, ip', rest');
    SplitAtSpace(Decimal(port), Decimal(id), Decimal(port'), Decimal(id'));
    DecimalInjective(port, port');
    DecimalInjective(id, id');
  }

  function NodeCmpSha(first: Node, second: Node): int {
    StrCmp(first.sha, second.sha)
  }

  function NodeCmpServerAddr(n1: Node, n2: Node): int {
    if n1.addr.ip == n2.addr.ip then (if n1.addr.port > n2.addr.port then 1 else 0)
    else if n1.addr.ip > n2.addr.ip then 1 else 0
  }

  predicate ServerBefore(a: Addr, b: Addr) {
    a.ip < b.ip || (a.ip == b.ip && a.port < b.port)
  }

  /**
   * The header promises a negative result when the first server comes first. The code
   * never returns one: its sign is the promised one exactly when that is not the case.
   */
  lemma ServerAddrSign(n1: Node, n2: Node)
    ensures (NodeCmpServerAddr(n1, n2) < 0 <==> ServerBefore(n1.addr, n2.addr)) <==> !ServerBefore(n1.addr, n2.addr)
    ensures NodeCmpServerAddr(n1, n2) > 0 <==> ServerBefore(n2.addr, n1.addr)
  {
  }

  // ---------- servers.txt ----------

  /** One line of servers.txt: a server and how many virtual nodes it has. */
  datatype Record = Record(ip: CStr, port: nat, count: size_t)

  /** The two library functions the node code calls. */
  datatype Lib = Lib(sha1: CStr -> seq<byte>, parseIp: CStr -> Option<nat>)

  function NodeInit(lib: Lib, ip: CStr, port: nat, id: nat): Option<Node> {
    match lib.parseIp(ip)
    case None => None
    case Some(a) => Some(Node(Addr(a, port), id, CString(lib.sha1(Identity(ip, port, id)))))
  }

  /** A node is the one of `r` with its id: its digest is that of address, port and id, in decimal, apart by spaces. */
  ghost predicate IsVirtualNode(lib: Lib, r: Record, node: Node) {
    && 1 <= node.id <= r.count
    && lib.parseIp(r.ip) == Some(node.addr.ip) && node.addr.port == r.port
    && exists p: CStr, q: CStr ::
         IsDecimal(p, r.port) && IsDecimal(q, node.id) && node.sha == CString(lib.sha1(r.ip + [32] + p + [32] + q))
  }

  predicate Usable(lib: Lib, r: Record) {
    r.count != 0 && lib.parseIp(r.ip).Some?
  }

  function ServerOf(lib: Lib, r: Record): Addr
    requires Usable(lib, r)
  {
    Addr(lib.parseIp(r.ip).value, r.port)
  }

  /** The virtual nodes of one server with ids from `count` down to `count - n + 1`. */
  function VirtualNodes(lib: Lib, r: Record, n: nat): (nodes: seq<Node>)
    requires Usable(lib, r) && n <= r.count
    ensures |nodes| == n
    ensures forall i :: 0 <= i < n ==> nodes[i].addr == ServerOf(lib, r) && nodes[i].id == r.count - i
  {
    if n == 0 then []
    else VirtualNodes(lib, r, n - 1) + [NodeInit(lib, r.ip, r.port, r.count - (n - 1)).value]
  }

  lemma {:induction false} VirtualNodesCorrect(lib: Lib, r: Record, n: nat, i: nat)
    requires Usable(lib, r) && i < n <= r.count
    ensures IsVirtualNode(lib, r, VirtualNodes(lib, r, n)[i])
  {
    if i < n - 1 {
      VirtualNodesCorrect(lib, r, n - 1, i);
    } else {
      DecimalCorrect(r.port);
      DecimalCorrect(r.count - i);
    }
  }

  /** All virtual nodes of a list of servers, in file order. */
  function Expand(lib: Lib, records: seq<Record>): seq<Node>
    requires forall r :: r in records ==> Usable(lib, r)
  {
    if records == [] then []
    else
      var last := records[|records| - 1];
      Expand(lib, records[..|records| - 1]) + VirtualNodes(lib, last, last.count)
  }

  function Sum(records: seq<Record>): nat {
    if records == [] then 0 else Sum(records[..|records| - 1]) + records[|records| - 1].count
  }

  /** The virtual node of `r` with id count - j stands j places behind `start`. */
  ghost predicate NodeAt(lib: Lib, r: Record, nodes: seq<Node>, start: nat, j: nat) {
    && start + j < |nodes|
    && nodes[start + j].id == r.count - j
    && IsVirtualNode(lib, r, nodes[start + j])
  }

  ghost predicate OfSome(lib: Lib, records: seq<Record>, node: Node) {
    exists r :: r in records && IsVirtualNode(lib, r, node)
  }

  /** The virtual nodes of all records, in file order, by descending id within a record, and nothing else. */
  ghost predicate InFileOrder(lib: Lib, records: seq<Record>, nodes: seq<Node>) {
    && |nodes| == Sum(records)
    && (forall i, j :: 0 <= i < |records| && 0 <= j < records[i].count ==>
         NodeAt(lib, records[i], nodes, Sum(records[..i]), j))
    && forall n :: n in nodes ==> OfSome(lib, records, n)
  }

  lemma InFileOrderSnoc(lib: Lib, front: seq<Record>, last: Record, nodes: seq<Node>)
    requires Usable(lib, last) && InFileOrder(lib, front, nodes)
    ensures InFileOrder(lib, front + [last], nodes + VirtualNodes(lib, last, last.count))
  {
    hide IsVirtualNode, VirtualNodes;
    var records, more := front + [last], VirtualNodes(lib, last, last.count);
    var all := nodes + more;
    forall j | 0 <= j < last.count ensures IsVirtualNode(lib, last, more[j]) {
      VirtualNodesCorrect(lib, last, last.count, j);
    }
    assert records[..|front|] == front;
    forall i, j | 0 <= i < |records| && 0 <= j < records[i].count
      ensures NodeAt(lib, records[i], all, Sum(records[..i]), j)
    {
      if i < |front| {
        assert NodeAt(lib, front[i], nodes, Sum(front[..i]), j) && records[..i] == front[..i];
      }
    }
    forall n | n in all ensures OfSome(lib, records, n) {
      if n in nodes {
        assert OfSome(lib, front, n);
        var r :| r in front && IsVirtualNode(lib, r, n);
        assert r in records;
      } else {
        assert last in records;
      }
    }
  }

  lemma {:induction false} ExpandInFileOrder(lib: Lib, records: seq<Record>)
    requires forall r :: r in records ==> Usable(lib, r)
    ensures InFileOrder(lib, records, Expand(lib, records))
  {
    if records != [] {
      var front, last := records[..|records| - 1], records[|records| - 1];
      ExpandInFileOrder(lib, front);
      InFileOrderSnoc(lib, front, last, Expand(lib, front));
      assert records == front + [last];
    }
  }

  ghost function Servers(nodes: seq<Node>): set<Addr> {
    set n | n in nodes :: n.addr
  }

  /** One virtual node per unit of count, and no server besides the listed ones. */
  lemma {:induction false} ExpandCounts(lib: Lib, records: seq<Record>)
    requires forall r :: r in records ==> Usable(lib, r)
    ensures |Expand(lib, records)| == Sum(records)
    ensures Servers(Expand(lib, records)) == set r | r in records :: ServerOf(lib, r)
  {
    if records != [] {
      var front := records[..|records| - 1];
      var last := records[|records| - 1];
      var nodes := VirtualNodes(lib, last, last.count);
      ExpandCounts(lib, front);
      assert nodes[0] in nodes;
      assert Servers(Expand(lib, records)) == Servers(Expand(lib, front)) + {ServerOf(lib, last)} by {
        var all := Expand(lib, records);
        forall a | a in Servers(Expand(lib, front)) + {ServerOf(lib, last)} ensures a in Servers(all) {
          if a == ServerOf(lib, last) {
            assert nodes[0] in all;
          } else {
            var n :| n in Expand(lib, front) && n.addr == a;
            assert n in all;
          }
        }
      }
      assert records == front + [last];
    }
  }

  /** A record yields exactly the ids 1 to `count`, each once. */
  lemma VirtualNodeIds(lib: Lib, r: Record, id: nat)
    requires Usable(lib, r)
    ensures (exists i :: 0 <= i < r.count && VirtualNodes(lib, r, r.count)[i].id == id) <==> 1 <= id <= r.count
    ensures forall i, j :: 0 <= i < j < r.count ==>
      VirtualNodes(lib, r, r.count)[i].id != VirtualNodes(lib, r, r.count)[j].id
  {
    if 1 <= id <= r.count {
      assert VirtualNodes(lib, r, r.count)[r.count - id].id == id;
    }
  }

  // ---------- sorting ----------

  ghost predicate Sorted(nodes: seq<Node>) {
    forall i, j :: 0 <= i < j < |nodes| ==> NodeCmpSha(nodes[i], nodes[j]) <= 0
  }

  /** No node's digest comes before an earlier one's in lexicographic byte order. */
  ghost predicate Ascending(nodes: seq<Node>) {
    forall i, j :: 0 <= i < j < |nodes| ==> !Precedes(nodes[j].sha, nodes[i].sha)
  }

  lemma SortedAscending(nodes: seq<Node>)
    ensures Sorted(nodes) <==> Ascending(nodes)
  {
    hide StrCmp, Precedes;
    forall i, j | 0 <= i < j < |nodes|
      ensures NodeCmpSha(nodes[i], nodes[j]) <= 0 <==> !Precedes(nodes[j].sha, nodes[i].sha)
    {
      StrCmpLexicographic(nodes[i].sha, nodes[j].sha);
    }
  }

  function Insert(node: Node, nodes: seq<Node>): seq<Node> {
    if nodes == [] || NodeCmpSha(node, nodes[0]) <= 0 then [node] + nodes
    else [nodes[0]] + Insert(node, nodes[1..])
  }

  function SortNodes(nodes: seq<Node>): seq<Node> {
    if nodes == [] then [] else Insert(nodes[0], SortNodes(nodes[1..]))
  }

  lemma {:induction false} InsertMultiset(node: Node, nodes: seq<Node>)
    ensures multiset(Insert(node, nodes)) == multiset(nodes) + multiset{node}
  {
    if nodes != [] && NodeCmpSha(node, nodes[0]) > 0 {
      InsertMultiset(node, nodes[1..]);
      assert nodes == [nodes[0]] + nodes[1..];
    }
  }

  lemma SortedCons(node: Node, nodes: seq<Node>)
    requires Sorted(nodes)
    requires forall n :: n in nodes ==> NodeCmpSha(node, n) <= 0
    ensures Sorted([node] + nodes)
  {
    var all := [node] + nodes;
    forall i, j | 0 <= i < j < |all| ensures NodeCmpSha(all[i], all[j]) <= 0 {
      assert all[j] == nodes[j - 1];
    }
  }

  lemma {:induction false} InsertSorts(node: Node, nodes: seq<Node>)
    requires Sorted(nodes)
    ensures Sorted(Insert(node, nodes))
  {
    if nodes == [] {
    } else if NodeCmpSha(node, nodes[0]) <= 0 {
      forall n | n in nodes ensures NodeCmpSha(node, n) <= 0 {
        var j :| 0 <= j < |nodes| && nodes[j] == n;
        if j > 0 {
          StrCmpTransitive(node.sha, nodes[0].sha, nodes[j].sha);
        }
      }
      SortedCons(node, nodes);
    } else {
      var rest := Insert(node, nodes[1..]);
      InsertSorts(node, nodes[1..]);
      InsertMultiset(node, nodes[1..]);
      StrCmpAntisymmetric(node.sha, nodes[0].sha);
      forall n | n in rest ensures NodeCmpSha(nodes[0], n) <= 0 {
        assert n in multiset(rest);
        assert n == node || n in nodes[1..];
      }
      SortedCons(nodes[0], rest);
    }
  }

  lemma {:induction false} SortNodesSorts(nodes: seq<Node>)
    ensures Sorted(SortNodes(nodes))
    ensures multiset(SortNodes(nodes)) == multiset(nodes)
  {
    if nodes != [] {
      SortNodesSorts(nodes[1..]);
      InsertSorts(nodes[0], SortNodes(nodes[1..]));
      InsertMultiset(nodes[0], SortNodes(nodes[1..]));
      assert nodes == [nodes[0]] + nodes[1..];
    }
  }

  /** No two different nodes have digests that strcmp takes for equal. */
  ghost predicate DigestsDecide(nodes: seq<Node>) {
    forall m, n :: m in nodes && n in nodes && NodeCmpSha(m, n) == 0 ==> m == n
  }

  lemma DigestsDecidePermute(a: seq<Node>, b: seq<Node>)
    requires multiset(a) == multiset(b) && DigestsDecide(a)
    ensures DigestsDecide(b)
  {
    forall n | n in b ensures n in a {
      assert n in multiset(a);
    }
  }

  lemma SortedHead(a: seq<Node>, b: seq<Node>)
    requires Sorted(a) && Sorted(b) && DigestsDecide(a)
    requires multiset(a) == multiset(b) && a != [] && b != []
    ensures a[0] == b[0]
  {
    assert a[0] in multiset(b) && b[0] in multiset(a);
    var i :| 0 <= i < |b| && b[i] == a[0];
    var j :| 0 <= j < |a| && a[j] == b[0];
    StrCmpAntisymmetric(a[0].sha, b[0].sha);
    assert i > 0 ==> NodeCmpSha(b[0], b[i]) <= 0;
    assert j > 0 ==> NodeCmpSha(a[0], a[j]) <= 0;
  }

  lemma SameTail(n: Node, a: seq<Node>, b: seq<Node>)
    requires multiset([n] + a) == multiset([n] + b)
    ensures multiset(a) == multiset(b)
  {
    assert multiset([n] + a) - multiset{n} == multiset(a);
    assert multiset([n] + b) - multiset{n} == multiset(b);
  }

  lemma {:induction false} SortedUnique(a: seq<Node>, b: seq<Node>)
    requires Sorted(a) && Sorted(b) && DigestsDecide(a)
    requires multiset(a) == multiset(b)
    ensures a == b
  {
    assert |a| == |multiset(a)| == |multiset(b)| == |b|;
    if a != [] {
      SortedHead(a, b);
      var n, a', b' := a[0], a[1..], b[1..];
      assert a == [n] + a' && b == [n] + b';
      SameTail(n, a', b');
      SortedUnique(a', b');
    }
  }

  ghost predicate Arranges(sorted: seq<Node>, nodes: seq<Node>) {
    Sorted(sorted) && multiset(sorted) == multiset(nodes)
  }

  /** Two nodes with equal digests may stand in either order. */
  lemma SwapEqual(sorted: seq<Node>, i: nat, j: nat)
    requires Sorted(sorted) && i < j < |sorted| && NodeCmpSha(sorted[i], sorted[j]) == 0
    ensures Arranges(sorted[i := sorted[j]][j := sorted[i]], sorted)
  {
    StrCmpZero(sorted[i].sha, sorted[j].sha);
    var swapped := sorted[i := sorted[j]][j := sorted[i]];
    assert forall p :: 0 <= p < |sorted| ==> swapped[p].sha == sorted[p].sha;
  }

  lemma Position(nodes: seq<Node>, sorted: seq<Node>, n: Node) returns (i: nat)
    requires multiset(sorted) == multiset(nodes) && n in nodes
    ensures i < |sorted| && sorted[i] == n
  {
    assert n in multiset(sorted);
    i :| 0 <= i < |sorted| && sorted[i] == n;
  }

  lemma TwoArrangements(nodes: seq<Node>, m: Node, n: Node) returns (a: seq<Node>, b: seq<Node>)
    requires m in nodes && n in nodes && NodeCmpSha(m, n) == 0 && m != n
    ensures Arranges(a, nodes) && Arranges(b, nodes) && a != b
  {
    hide SortNodes, NodeCmpSha;
    a := SortNodes(nodes);
    SortNodesSorts(nodes);
    var i := Position(nodes, a, m);
    var j := Position(nodes, a, n);
    SignFlips(m, n);
    if i < j {
      SwapEqual(a, i, j);
      b := a[i := a[j]][j := a[i]];
    } else {
      SwapEqual(a, j, i);
      b := a[j := a[i]][i := a[j]];
    }
  }

  lemma SignFlips(m: Node, n: Node)
    ensures NodeCmpSha(m, n) == -NodeCmpSha(n, m)
  {
    StrCmpAntisymmetric(m.sha, n.sha);
  }

  /** There is only one sorted arrangement, whatever the sorting algorithm, exactly when the digests decide. */
  lemma OneArrangementIff(nodes: seq<Node>)
    ensures (forall a, b :: Arranges(a, nodes) && Arranges(b, nodes) ==> a == b) <==> DigestsDecide(nodes)
  {
    hide NodeCmpSha, Sorted;
    if DigestsDecide(nodes) {
      forall a, b | Arranges(a, nodes) && Arranges(b, nodes) ensures a == b {
        DigestsDecidePermute(nodes, a);
        SortedUnique(a, b);
      }
    } else {
      var m, n :| m in nodes && n in nodes && NodeCmpSha(m, n) == 0 && m != n;
      var a, b := TwoArrangements(nodes, m, n);
    }
  }

  // ---------- node_list.c ----------

  class List {
    var size: nat
    var allocatedSize: nat
    var nodes: array<Node>

    ghost predicate Valid()
      reads this
    {
      size <= allocatedSize == nodes.Length && allocatedSize % ALLOCATED_MEMORY_LIST == 0
    }

    ghost function Contents(): seq<Node>
      requires Valid()
      reads this, nodes
    {
      nodes[..size]
    }

    constructor ()
      ensures Valid() && fresh(nodes) && Contents() == []
    {
      size := 0;
      allocatedSize := ALLOCATED_MEMORY_LIST;
      nodes := new Node[ALLOCATED_MEMORY_LIST];
    }

    method Add(node: Node)
      requires Valid()
      modifies this, nodes
      ensures Valid() && (nodes == old(nodes) || fresh(nodes))
      ensures Contents() == old(Contents()) + [node]
    {
      if size + 1 > allocatedSize {
        var grown := new Node[allocatedSize + ALLOCATED_MEMORY_LIST];
        forall i | 0 <= i < size {
          grown[i] := nodes[i];
        }
        allocatedSize := allocatedSize + ALLOCATED_MEMORY_LIST;
        nodes := grown;
      }
      size := size + 1;
      nodes[size - 1] := node;
    }

    method Contains(node: Node) returns (found: bool)
      requires Valid()
      ensures found <==> node.addr in Servers(Contents())
    {
      for i := 0 to size
        invariant node.addr !in Servers(nodes[..i])
      {
        if nodes[i].addr.ip == node.addr.ip && nodes[i].addr.port == node.addr.port {
          assert Contents()[i].addr == node.addr;
          return true;
        }
        assert nodes[..i + 1] == nodes[..i] + [nodes[i]];
      }
      found := false;
    }

    /** qsort with node_cmp_sha: some sorted arrangement of the same nodes. */
    method Sort()
      requires Valid()
      modifies nodes
      ensures Valid()
      ensures Sorted(Contents()) && multiset(Contents()) == multiset(old(Contents()))
      ensures Ascending(Contents())
    {
      hide Ascending, Sorted;
      var sorted := SortNodes(nodes[..size]);
      SortNodesSorts(nodes[..size]);
      assert |sorted| == |multiset(sorted)| == |multiset(nodes[..size])| == size;
      forall i | 0 <= i < size {
        nodes[i] := sorted[i];
      }
      assert nodes[..size] == sorted;
      SortedAscending(sorted);
    }
  }

  /** One server's virtual nodes, with the loop's wrap-around on the unsigned counter. */
  method AddVirtualNodes(list: List, lib: Lib, r: Record)
    requires list.Valid() && Usable(lib, r)
    modifies list, list.nodes
    ensures list.Valid() && (list.nodes == old(list.nodes) || fresh(list.nodes))
    ensures list.Contents() == old(list.Contents()) + VirtualNodes(lib, r, r.count)
    ensures |list.Contents()| == old(|list.Contents()|) + r.count
    ensures forall j :: 0 <= j < r.count ==> NodeAt(lib, r, list.Contents(), old(|list.Contents()|), j)
  {
    hide IsVirtualNode;
    var nodeId: size_t := r.count - 1;
    ghost var added: nat := 0;
    while nodeId < r.count
      invariant added <= r.count
      invariant nodeId == if added < r.count then r.count - 1 - added else SIZE_T_RANGE - 1
      invariant list.Valid() && (list.nodes == old(list.nodes) || fresh(list.nodes))
      invariant list.Contents() == old(list.Contents()) + VirtualNodes(lib, r, added)
      decreases r.count - added
    {
      var node := NodeInit(lib, r.ip, r.port, nodeId + 1).value;
      assert VirtualNodes(lib, r, added + 1) == VirtualNodes(lib, r, added) + [node];
      list.Add(node);
      nodeId := if nodeId == 0 then SIZE_T_RANGE - 1 else nodeId - 1;
      added := added + 1;
    }
    forall j | 0 <= j < r.count ensures IsVirtualNode(lib, r, VirtualNodes(lib, r, r.count)[j]) {
      VirtualNodesCorrect(lib, r, r.count, j);
    }
  }

  method GetNodes(lib: Lib, records: seq<Record>) returns (list: List?)
    ensures list == null <==> exists r :: r in records && (r.count == 0 || lib.parseIp(r.ip).None?)
    ensures list != null ==> forall r :: r in records ==> Usable(lib, r)
    ensures list != null ==>
      fresh(list) && list.Valid() && fresh(list.nodes) && list.Contents() == Expand(lib, records)
    ensures list != null ==> InFileOrder(lib, records, list.Contents())
  {
    hide InFileOrder;
    var nodes := new List();
    for i := 0 to |records|
      invariant forall r :: r in records[..i] ==> Usable(lib, r)
      invariant fresh(nodes) && nodes.Valid() && fresh(nodes.nodes)
      invariant nodes.Contents() == Expand(lib, records[..i])
    {
      if records[i].count == 0 {
        assert !Usable(lib, records[i]);
        return null;
      }
      var first := NodeInit(lib, records[i].ip, records[i].port, records[i].count);
      if first.None? {
        assert !Usable(lib, records[i]);
        return null;
      }
      AddVirtualNodes(nodes, lib, records[i]);
      assert records[..i + 1] == records[..i] + [records[i]];
      assert records[..i + 1][..i] == records[..i];
    }
    assert records[..|records|] == records;
    ExpandInFileOrder(lib, records);
    list := nodes;
  }
}
