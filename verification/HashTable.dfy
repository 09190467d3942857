/**
 * The chained hash table (hashtable.c). The first half specifies a table by the
 * sequence of its chains and relates that to a plain map; the second half is the
 * linked structure itself, whose methods are proved against the specification.
 */
module HashTable {
  import opened Bytes

  const SIZE_MAX: nat := 0xFFFF_FFFF_FFFF_FFFF
  const HTABLE_SIZE: nat := 256

  datatype KvPair = KvPair(key: CStr, value: CStr)

  // ---------- hash function ----------

  function Word(b: byte): bv64 {
    b as bv64
  }

  function Mix(hash: bv64): bv64 {
    var h1 := hash + (hash << 10);
    h1 ^ (h1 >> 6)
  }

  function HashStep(hash: bv64, word: bv64): bv64 {
    Mix(hash + word)
  }

  function HashBytes(key: seq<byte>): bv64 {
    if key == [] then 0 else HashStep(HashBytes(key[..|key| - 1]), Word(key[|key| - 1]))
  }

  function HashFinal(hash: bv64): bv64 {
    var h0 := hash + (hash << 3);
    var h1 := h0 ^ (h0 >> 11);
    h1 + (h1 << 15)
  }

  /** The bucket of `key`; SIZE_MAX is the error code for a table without buckets. */
  function Hash(key: CStr, size: nat): (index: nat)
    ensures if size == 0 then index == SIZE_MAX else index < size
  {
    if size == 0 then SIZE_MAX else HashFinal(HashBytes(key)) as nat % size
  }

  /** The shifted sums are multiplications modulo 2^64. */
  lemma HashByProducts(hash: bv64)
    ensures Mix(hash) == (1025 * hash) ^ ((1025 * hash) >> 6)
    ensures HashFinal(hash) == 32769 * ((9 * hash) ^ ((9 * hash) >> 11))
  {
  }

  /** The hash takes in the bytes of a key from first to last, starting with zero. */
  lemma HashInOrder(key: seq<byte>, b: byte)
    ensures HashBytes([]) == 0
    ensures HashBytes(key + [b]) == HashStep(HashBytes(key), Word(b))
  {
    hide HashStep, Word;
    assert (key + [b])[..|key|] == key;
  }

  method HashFunction(key: CStr, size: nat) returns (index: nat)
    ensures index == Hash(key, size)
  {
    hide HashStep, Word;
    if size == 0 {
      return SIZE_MAX;
    }
    var hash: bv64 := 0;
    for i := 0 to |key|
      invariant hash == HashBytes(key[..i])
    {
      assert key[..i + 1][..i] == key[..i];
      hash := HashStep(hash, Word(key[i]));
    }
    assert key[..|key|] == key;
    index := HashFinal(hash) as nat % size;
  }

  // ---------- one chain ----------

  ghost function Keys(list: seq<KvPair>): set<CStr> {
    if list == [] then {} else {list[0].key} + Keys(list[1..])
  }

  ghost predicate DistinctKeys(list: seq<KvPair>) {
    list == [] || (list[0].key !in Keys(list[1..]) && DistinctKeys(list[1..]))
  }

  lemma {:induction false} KeyAt(list: seq<KvPair>, i: nat)
    requires i < |list|
    ensures list[i].key in Keys(list)
  {
    if i > 0 {
      KeyAt(list[1..], i - 1);
    }
  }

  lemma {:induction false} KeyIndex(list: seq<KvPair>, key: CStr) returns (i: nat)
    requires key in Keys(list)
    ensures i < |list| && list[i].key == key
  {
    if list[0].key == key {
      i := 0;
    } else {
      var j := KeyIndex(list[1..], key);
      i := j + 1;
    }
  }

  lemma {:induction false} KeysConcat(a: seq<KvPair>, b: seq<KvPair>)
    ensures Keys(a + b) == Keys(a) + Keys(b)
    ensures DistinctKeys(a + b) <==> DistinctKeys(a) && DistinctKeys(b) && Keys(a) !! Keys(b)
  {
    if a == [] {
      assert a + b == b;
    } else {
      assert (a + b)[1..] == a[1..] + b;
      KeysConcat(a[1..], b);
    }
  }

  function ChainPut(chain: seq<KvPair>, key: CStr, value: CStr): seq<KvPair> {
    if chain == [] then [KvPair(key, value)]
    else if key == chain[0].key then [KvPair(key, value)] + chain[1..]
    else [chain[0]] + ChainPut(chain[1..], key, value)
  }

  function ChainGet(chain: seq<KvPair>, key: CStr): Option<CStr> {
    if chain == [] then None
    else if chain[0].key == key then Some(chain[0].value)
    else ChainGet(chain[1..], key)
  }

  /** The map a list of pairs stands for. */
  ghost function Bindings(list: seq<KvPair>): map<CStr, CStr> {
    map k | k in Keys(list) && ChainGet(list, k).Some? :: ChainGet(list, k).value
  }

  lemma {:induction false} ChainGetSome(chain: seq<KvPair>, key: CStr)
    ensures ChainGet(chain, key).Some? <==> key in Keys(chain)
    ensures ChainGet(chain, key).Some? ==> KvPair(key, ChainGet(chain, key).value) in chain
  {
    if chain != [] && chain[0].key != key {
      ChainGetSome(chain[1..], key);
    }
  }

  lemma {:induction false} ChainGetAt(chain: seq<KvPair>, i: nat)
    requires DistinctKeys(chain) && i < |chain|
    ensures ChainGet(chain, chain[i].key) == Some(chain[i].value)
  {
    if i > 0 {
      KeyAt(chain[1..], i - 1);
      ChainGetAt(chain[1..], i - 1);
    }
  }

  lemma {:induction false} ChainPutGet(chain: seq<KvPair>, key: CStr, value: CStr, other: CStr)
    ensures ChainGet(ChainPut(chain, key, value), other) ==
            if other == key then Some(value) else ChainGet(chain, other)
  {
    if chain != [] && chain[0].key != key {
      ChainPutGet(chain[1..], key, value, other);
      assert ChainPut(chain, key, value)[1..] == ChainPut(chain[1..], key, value);
    }
  }

  lemma {:induction false} ChainPutKeys(chain: seq<KvPair>, key: CStr, value: CStr)
    requires DistinctKeys(chain)
    ensures DistinctKeys(ChainPut(chain, key, value))
    ensures Keys(ChainPut(chain, key, value)) == Keys(chain) + {key}
  {
    if chain == [] {
      assert Keys([KvPair(key, value)]) == {key} + Keys([]);
    } else if chain[0].key != key {
      var rest := ChainPut(chain[1..], key, value);
      ChainPutKeys(chain[1..], key, value);
      assert ([chain[0]] + rest)[1..] == rest;
    }
  }

  /** An old key keeps its place in the chain, a new one comes last. */
  lemma {:induction false} ChainPutPlaces(chain: seq<KvPair>, key: CStr, value: CStr)
    ensures key !in Keys(chain) ==> ChainPut(chain, key, value) == chain + [KvPair(key, value)]
    ensures key in Keys(chain) ==>
      exists i :: 0 <= i < |chain| && chain[i].key == key &&
        ChainPut(chain, key, value) == chain[i := KvPair(key, value)]
  {
    if chain == [] {
    } else if chain[0].key == key {
      assert ChainPut(chain, key, value) == chain[0 := KvPair(key, value)];
    } else {
      ChainPutPlaces(chain[1..], key, value);
      if key in Keys(chain) {
        var i :| 0 <= i < |chain[1..]| && chain[1..][i].key == key &&
          ChainPut(chain[1..], key, value) == chain[1..][i := KvPair(key, value)];
        assert ChainPut(chain, key, value) == chain[i + 1 := KvPair(key, value)];
      } else {
        assert chain == [chain[0]] + chain[1..];
      }
    }
  }

  // ---------- the table ----------

  /** Every chained key hashes to its bucket, and the keys of a bucket are distinct. */
  ghost predicate WellFormed(chains: seq<seq<KvPair>>) {
    && |chains| > 0
    && (forall b :: 0 <= b < |chains| ==> DistinctKeys(chains[b]))
    && (forall b, i :: 0 <= b < |chains| && 0 <= i < |chains[b]| ==> Hash(chains[b][i].key, |chains|) == b)
  }

  function TablePut(chains: seq<seq<KvPair>>, key: CStr, value: CStr): seq<seq<KvPair>>
    requires |chains| > 0
  {
    var b := Hash(key, |chains|);
    chains[b := ChainPut(chains[b], key, value)]
  }

  function TableGet(chains: seq<seq<KvPair>>, key: CStr): Option<CStr>
    requires |chains| > 0
  {
    ChainGet(chains[Hash(key, |chains|)], key)
  }

  ghost function TableKeys(chains: seq<seq<KvPair>>): set<CStr> {
    set b, i | 0 <= b < |chains| && 0 <= i < |chains[b]| :: chains[b][i].key
  }

  /** The map a table stands for, by lookup. */
  ghost function TableMap(chains: seq<seq<KvPair>>): map<CStr, CStr>
    requires |chains| > 0
  {
    map k | k in TableKeys(chains) && TableGet(chains, k).Some? :: TableGet(chains, k).value
  }

  ghost function Lookup(m: map<CStr, CStr>, key: CStr): Option<CStr> {
    if key in m then Some(m[key]) else None
  }

  /** Looking a key up in the table is looking it up in the map. */
  lemma TableGetRefines(chains: seq<seq<KvPair>>, key: CStr)
    requires |chains| > 0
    ensures TableGet(chains, key) == Lookup(TableMap(chains), key)
  {
    var b := Hash(key, |chains|);
    ChainGetSome(chains[b], key);
    if TableGet(chains, key).Some? {
      var i := KeyIndex(chains[b], key);
      assert chains[b][i].key in TableKeys(chains);
    }
  }

  /** Adding keeps the invariant and updates the map at that key only. */
  lemma TablePutRefines(chains: seq<seq<KvPair>>, key: CStr, value: CStr)
    requires WellFormed(chains)
    ensures WellFormed(TablePut(chains, key, value))
    ensures TableMap(TablePut(chains, key, value)) == TableMap(chains)[key := value]
  {
    var b := Hash(key, |chains|);
    var after: seq<seq<KvPair>> := TablePut(chains, key, value);
    ChainPutKeys(chains[b], key, value);
    forall c, i | 0 <= c < |after| && 0 <= i < |after[c]|
      ensures Hash(after[c][i].key, |after|) == c
    {
      KeyAt(after[c], i);
      if c == b && after[c][i].key != key {
        var j := KeyIndex(chains[b], after[c][i].key);
        assert Hash(chains[b][j].key, |chains|) == b;
      }
    }
    forall k: CStr
      ensures Lookup(TableMap(after), k) == Lookup(TableMap(chains)[key := value], k)
    {
      TableGetRefines(after, k);
      TableGetRefines(chains, k);
      ChainPutGet(chains[b], key, value, k);
    }
    LookupExtensional(TableMap(after), TableMap(chains)[key := value]);
  }

  lemma LookupExtensional(m: map<CStr, CStr>, n: map<CStr, CStr>)
    requires forall k: CStr :: Lookup(m, k) == Lookup(n, k)
    ensures m == n
  {
    forall k: CStr ensures k in m <==> k in n {
      assert Lookup(m, k) == Lookup(n, k);
    }
    forall k: CStr | k in m ensures m[k] == n[k] {
      assert Lookup(m, k) == Lookup(n, k);
    }
  }

  // ---------- every sequence of operations ----------

  datatype TableOp = Add(key: CStr, value: CStr) | Get(key: CStr)

  function EmptyChains(size: nat): (chains: seq<seq<KvPair>>)
    ensures |chains| == size && forall b :: 0 <= b < size ==> chains[b] == []
  {
    seq(size, _ => [])
  }

  /** What the gets of a run on the chains answer, and the final chains. */
  ghost function RunTable(chains: seq<seq<KvPair>>, ops: seq<TableOp>):
    (run: (seq<Option<CStr>>, seq<seq<KvPair>>))
    requires |chains| > 0
    ensures |run.1| == |chains|
    decreases |ops|
  {
    if ops == [] then ([], chains)
    else match ops[0]
      case Add(k, v) => RunTable(TablePut(chains, k, v), ops[1..])
      case Get(k) =>
        var (answers, last) := RunTable(chains, ops[1..]);
        ([TableGet(chains, k)] + answers, last)
  }

  /** The same run on a map. */
  ghost function RunMap(m: map<CStr, CStr>, ops: seq<TableOp>): (seq<Option<CStr>>, map<CStr, CStr>)
    decreases |ops|
  {
    if ops == [] then ([], m)
    else match ops[0]
      case Add(k, v) => RunMap(m[k := v], ops[1..])
      case Get(k) =>
        var (answers, last) := RunMap(m, ops[1..]);
        ([Lookup(m, k)] + answers, last)
  }

  lemma {:induction false} RunRefines(chains: seq<seq<KvPair>>, ops: seq<TableOp>)
    requires WellFormed(chains)
    ensures RunTable(chains, ops).0 == RunMap(TableMap(chains), ops).0
    ensures WellFormed(RunTable(chains, ops).1)
    ensures TableMap(RunTable(chains, ops).1) == RunMap(TableMap(chains), ops).1
    decreases |ops|
  {
    if ops != [] {
      match ops[0]
      case Add(k, v) =>
        TablePutRefines(chains, k, v);
        RunRefines(TablePut(chains, k, v), ops[1..]);
      case Get(k) =>
        TableGetRefines(chains, k);
        RunRefines(chains, ops[1..]);
    }
  }

  lemma EmptyTable(size: nat)
    requires size > 0
    ensures WellFormed(EmptyChains(size)) && TableMap(EmptyChains(size)) == map[]
  {
  }

  /** From an empty table, any sequence of adds and gets answers as a map does. */
  lemma TableRefinesMap(size: nat, ops: seq<TableOp>)
    requires size > 0
    ensures WellFormed(EmptyChains(size))
    ensures RunTable(EmptyChains(size), ops).0 == RunMap(map[], ops).0
    ensures TableMap(RunTable(EmptyChains(size), ops).1) == RunMap(map[], ops).1
  {
    EmptyTable(size);
    RunRefines(EmptyChains(size), ops);
  }

  // ---------- listing the content ----------

  function Content(chains: seq<seq<KvPair>>): seq<KvPair> {
    if chains == [] then [] else Content(chains[..|chains| - 1]) + chains[|chains| - 1]
  }

  lemma ContentSnoc(chains: seq<seq<KvPair>>, i: nat)
    requires i < |chains|
    ensures Content(chains[..i + 1]) == Content(chains[..i]) + chains[i]
  {
    assert chains[..i + 1][..i] == chains[..i];
  }

  /** The listing has bucket after bucket, each in chain order. */
  lemma ContentAt(chains: seq<seq<KvPair>>, b: nat, i: nat)
    requires b < |chains| && i < |chains[b]|
    ensures
      var place := |Content(chains[..b])| + i;
      place < |Content(chains)| && Content(chains)[place] == chains[b][i]
  {
    ContentSnoc(chains, b);
    ContentPrefix(chains, b + 1);
  }

  /** The listing has the pairs of the chains, and no others. */
  lemma {:induction false} ContentPairs(chains: seq<seq<KvPair>>, kv: KvPair)
    ensures kv in Content(chains) <==> exists b :: 0 <= b < |chains| && kv in chains[b]
  {
    if chains != [] {
      var n := |chains| - 1;
      ContentPairs(chains[..n], kv);
      assert forall b :: 0 <= b < n ==> chains[..n][b] == chains[b];
    }
  }

  lemma {:induction false} ContentDistinct(chains: seq<seq<KvPair>>, size: nat)
    requires |chains| <= size
    requires forall b :: 0 <= b < |chains| ==> DistinctKeys(chains[b])
    requires forall b, i :: 0 <= b < |chains| && 0 <= i < |chains[b]| ==> Hash(chains[b][i].key, size) == b
    ensures DistinctKeys(Content(chains))
  {
    if chains != [] {
      var n := |chains| - 1;
      ContentDistinct(chains[..n], size);
      var front := Content(chains[..n]);
      forall k | k in Keys(front) ensures Hash(k, size) < n {
        var i := KeyIndex(front, k);
        ContentPairs(chains[..n], front[i]);
        var b :| 0 <= b < n && front[i] in chains[..n][b];
        assert front[i] in chains[b];
      }
      forall k | k in Keys(chains[n]) ensures Hash(k, size) == n {
        var j := KeyIndex(chains[n], k);
      }
      KeysConcat(front, chains[n]);
    }
  }

  /** Scanning the listing finds what the table finds. */
  lemma {:induction false} ContentGet(chains: seq<seq<KvPair>>, key: CStr)
    requires WellFormed(chains)
    requires DistinctKeys(Content(chains))
    ensures ChainGet(Content(chains), key) == TableGet(chains, key)
  {
    var list := Content(chains);
    ChainGetSome(list, key);
    ChainGetSome(chains[Hash(key, |chains|)], key);
    if TableGet(chains, key).Some? {
      var kv := KvPair(key, TableGet(chains, key).value);
      ContentPairs(chains, kv);
      var i :| 0 <= i < |list| && list[i] == kv;
      ChainGetAt(list, i);
    } else if key in Keys(list) {
      var i := KeyIndex(list, key);
      ContentPairs(chains, list[i]);
      var c :| 0 <= c < |chains| && list[i] in chains[c];
      var j :| 0 <= j < |chains[c]| && chains[c][j] == list[i];
      KeyAt(chains[c], j);
    }
  }

  lemma BindingsLookup(list: seq<KvPair>, key: CStr)
    ensures Lookup(Bindings(list), key) == ChainGet(list, key)
  {
    ChainGetSome(list, key);
  }

  lemma BindingsCount(list: seq<KvPair>)
    requires DistinctKeys(list)
    ensures |Bindings(list)| == |list|
  {
    forall k: CStr ensures k in Bindings(list) <==> k in Keys(list) {
      ChainGetSome(list, k);
    }
    assert Bindings(list).Keys == Keys(list);
    KeysCount(list);
  }

  /** The listing has every binding of the table's map, each exactly once. */
  lemma {:induction false} ContentListsMap(chains: seq<seq<KvPair>>)
    requires WellFormed(chains)
    ensures DistinctKeys(Content(chains))
    ensures Bindings(Content(chains)) == TableMap(chains)
    ensures |Content(chains)| == |TableMap(chains)|
  {
    var list := Content(chains);
    ContentDistinct(chains, |chains|);
    forall k: CStr
      ensures Lookup(Bindings(list), k) == Lookup(TableMap(chains), k)
    {
      BindingsLookup(list, k);
      TableGetRefines(chains, k);
      ContentGet(chains, k);
    }
    LookupExtensional(Bindings(list), TableMap(chains));
    BindingsCount(list);
  }

  lemma {:induction false} KeysCount(list: seq<KvPair>)
    requires DistinctKeys(list)
    ensures |Keys(list)| == |list|
  {
    if list != [] {
      KeysCount(list[1..]);
    }
  }

  // ---------- the linked structure ----------

  class Bucket {
    var keyValue: Option<KvPair>
    var next: Bucket?
    ghost var Repr: set<Bucket>
    ghost var Chain: seq<KvPair>

    /** Only a head without successor may be empty. */
    ghost predicate Valid()
      reads this, Repr
      ensures Valid() ==> this in Repr
    {
      && this in Repr
      && (keyValue.None? ==> next == null && Chain == [])
      && (next == null ==> keyValue.Some? ==> Chain == [keyValue.value])
      && (next != null ==>
            && next in Repr
            && next.Repr <= Repr
            && this !in next.Repr
            && next.Valid()
            && next.keyValue.Some?
            && Chain == [keyValue.value] + next.Chain)
    }

    constructor (kv: Option<KvPair>)
      ensures Valid() && fresh(Repr)
      ensures keyValue == kv
      ensures Chain == if kv.None? then [] else [kv.value]
    {
      keyValue := kv;
      next := null;
      Repr := {this};
      Chain := if kv.None? then [] else [kv.value];
    }

    method AddValue(key: CStr, value: CStr)
      requires Valid()
      modifies Repr
      ensures Valid() && fresh(Repr - old(Repr))
      ensures keyValue.Some?
      ensures Chain == ChainPut(old(Chain), key, value)
      decreases Repr
    {
      if keyValue.None? {
        keyValue := Some(KvPair(key, value));
        Chain := [KvPair(key, value)];
      } else if key == keyValue.value.key {
        keyValue := Some(KvPair(key, value));
        Chain := [KvPair(key, value)] + Chain[1..];
      } else if next == null {
        next := new Bucket(Some(KvPair(key, value)));
        Repr := Repr + next.Repr;
        Chain := Chain + next.Chain;
      } else {
        next.AddValue(key, value);
        Repr := Repr + next.Repr;
        Chain := [keyValue.value] + next.Chain;
      }
    }

    function GetValue(key: CStr): (value: Option<CStr>)
      requires Valid()
      reads this, Repr
      ensures value == ChainGet(Chain, key)
      decreases Repr
    {
      if keyValue.None? then None
      else if keyValue.value.key == key then Some(keyValue.value.value)
      else if next == null then None
      else next.GetValue(key)
    }

    function Size(): (n: nat)
      requires Valid()
      reads this, Repr
      ensures n == |Chain|
      decreases Repr
    {
      if keyValue.None? then 0
      else if next == null then 1
      else 1 + next.Size()
    }

    /** Writes the chain to `list` from index `from` on and returns how many pairs it wrote. */
    method GetContent(list: array<KvPair>, from: nat) returns (n: nat)
      requires Valid()
      requires from + |Chain| <= list.Length
      modifies list
      ensures n == |Chain|
      ensures list[..from] == old(list[..from])
      ensures list[from..from + n] == Chain
      ensures list[from + n..] == old(list[from + n..])
      decreases Repr
    {
      if keyValue.None? {
        return 0;
      }
      list[from] := keyValue.value;
      if next == null {
        return 1;
      }
      var more := next.GetContent(list, from + 1);
      n := 1 + more;
    }
  }

  class Htable {
    const buckets: array<Bucket>
    ghost var Repr: set<object>
    ghost var Chains: seq<seq<KvPair>>

    /** The buckets are valid chains on memory of their own. */
    ghost predicate Shape()
      reads this, Repr
      ensures Shape() ==> this in Repr
    {
      && this in Repr
      && buckets in Repr
      && |Chains| == buckets.Length > 0
      && (forall i :: 0 <= i < buckets.Length ==>
            && buckets[i] in Repr
            && buckets[i].Repr <= Repr
            && buckets[i].Valid()
            && buckets[i].Chain == Chains[i])
      && (forall i, j :: 0 <= i < j < buckets.Length ==> buckets[i].Repr !! buckets[j].Repr)
    }

    ghost predicate Valid()
      reads this, Repr
      ensures Valid() ==> this in Repr
    {
      Shape() && WellFormed(Chains)
    }

    constructor (size: nat)
      requires size > 0
      ensures Valid() && fresh(Repr)
      ensures Chains == EmptyChains(size)
    {
      var seed := new Bucket(None);
      buckets := new Bucket[size](_ => seed);
      new;
      Repr := {this, buckets};
      for i := 0 to size
        invariant buckets.Length == size
        invariant fresh(buckets) && fresh(Repr)
        invariant this in Repr && buckets in Repr
        invariant forall j :: 0 <= j < i ==>
          buckets[j] in Repr && buckets[j].Repr <= Repr && buckets[j].Valid() && buckets[j].Chain == []
        invariant forall j, k :: 0 <= j < k < i ==> buckets[j].Repr !! buckets[k].Repr
      {
        var bucket := new Bucket(None);
        buckets[i] := bucket;
        Repr := Repr + bucket.Repr;
      }
      Chains := EmptyChains(size);
    }

    method AddValueToBucket(index: nat, key: CStr, value: CStr)
      requires Shape() && index < buckets.Length
      modifies Repr
      ensures Shape() && fresh(Repr - old(Repr))
      ensures Chains == old(Chains)[index := ChainPut(old(Chains)[index], key, value)]
    {
      var bucket := buckets[index];
      bucket.AddValue(key, value);
      Chains := Chains[index := bucket.Chain];
      Repr := Repr + bucket.Repr;
      assert forall i :: 0 <= i < buckets.Length && i != index ==> buckets[i].Repr == old(buckets[i].Repr);
    }

    method AddHtableValue(key: CStr, value: Option<CStr>) returns (code: ErrorCode)
      requires Valid()
      modifies Repr
      ensures Valid() && fresh(Repr - old(Repr))
      ensures value.None? ==> code == ErrBadParameter && Chains == old(Chains)
      ensures value.Some? ==> code == ErrNone && Chains == TablePut(old(Chains), key, value.value)
      ensures value.Some? ==> TableMap(Chains) == TableMap(old(Chains))[key := value.value]
    {
      if value.None? {
        return ErrBadParameter;
      }
      TablePutRefines(Chains, key, value.value);
      var index := HashFunction(key, buckets.Length);
      AddValueToBucket(index, key, value.value);
      code := ErrNone;
    }

    method GetHtableValue(key: Option<CStr>) returns (value: Option<CStr>)
      requires Valid()
      ensures value == if key.None? then None else Lookup(TableMap(Chains), key.value)
    {
      if key.None? {
        return None;
      }
      var index := HashFunction(key.value, buckets.Length);
      TableGetRefines(Chains, key.value);
      value := buckets[index].GetValue(key.value);
    }

    method GetHtableSize() returns (total: nat)
      requires Shape()
      ensures total == |Content(Chains)|
    {
      total := 0;
      for i := 0 to buckets.Length
        invariant total == |Content(Chains[..i])|
      {
        ContentSnoc(Chains, i);
        total := total + buckets[i].Size();
      }
      assert Chains[..buckets.Length] == Chains;
    }

    method GetBucketContent(i: nat, list: array<KvPair>, from: nat) returns (n: nat)
      requires Shape() && list !in Repr
      requires i < buckets.Length && from + |Chains[i]| <= list.Length
      modifies list
      ensures Shape()
      ensures n == |Chains[i]|
      ensures list[..from + n] == old(list[..from]) + Chains[i]
    {
      n := buckets[i].GetContent(list, from);
      assert list[..from + n] == list[..from] + list[from..from + n];
    }

    /** `list` gets the pairs of bucket 0, then those of bucket 1, and so on. */
    method FillContent(list: array<KvPair>)
      requires Shape() && list !in Repr
      requires list.Length == |Content(Chains)|
      modifies list
      ensures Shape()
      ensures list[..] == Content(Chains)
    {
      var usedUntil := 0;
      for i := 0 to buckets.Length
        invariant Shape()
        invariant usedUntil == |Content(Chains[..i])| <= list.Length
        invariant list[..usedUntil] == Content(Chains[..i])
      {
        ContentSnoc(Chains, i);
        ContentPrefix(Chains, i + 1);
        var stored := GetBucketContent(i, list, usedUntil);
        usedUntil := usedUntil + stored;
      }
      assert Chains[..buckets.Length] == Chains;
      assert list[..usedUntil] == list[..];
    }

    /** `list` has exactly the table's bindings, each in a slot of its own. */
    method GetHtableContent() returns (list: array<KvPair>)
      requires Valid()
      ensures Valid()
      ensures fresh(list)
      ensures list[..] == Content(Chains)
      ensures DistinctKeys(list[..]) && Bindings(list[..]) == TableMap(Chains)
    {
      var size := GetHtableSize();
      list := new KvPair[size];
      FillContent(list);
      ContentListsMap(Chains);
    }
  }

  lemma {:induction false} ContentPrefix(chains: seq<seq<KvPair>>, i: nat)
    requires i <= |chains|
    ensures Content(chains[..i]) <= Content(chains)
    decreases |chains| - i
  {
    if i == |chains| {
      assert chains[..i] == chains;
    } else {
      ContentSnoc(chains, i);
      ContentPrefix(chains, i + 1);
    }
  }
}
