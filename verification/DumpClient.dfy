/**
 * Reading a dump back (pps-dump-node.c): the parser of one datagram and the client that
 * accumulates datagrams. The two stack buffers of the parser start with arbitrary bytes,
 * and a pair is read from a buffer as a C string, so the buffers are part of the model.
 */
module DumpClient {
  import opened Bytes
  import opened HashTable
  import opened Wire
  import opened Dump

  type Buffer = b: seq<byte> | |b| == MAX_MSG_SIZE witness seq(MAX_MSG_SIZE, _ => 0)

  datatype Stack = Stack(key: Buffer, value: Buffer)

  /** A write past the end of a buffer, which no message of legal length causes, is left out. */
  function Set(buffer: Buffer, i: nat, b: byte): Buffer {
    if i < MAX_MSG_SIZE then buffer[i := b] else buffer
  }

  // ---------- one datagram ----------

  datatype ParseState = ParseState(
    stack: Stack, keyIndex: nat, valueIndex: nat, parsingKey: bool,
    entries: map<nat, KvPair>, listIndex: nat, failed: bool)

  function PairOf(stack: Stack): KvPair {
    KvPair(CString(stack.key), CString(stack.value))
  }

  /** One turn of the loop; `size` is the announced number of pairs. */
  function ParseByte(size: nat, st: ParseState, b: byte): ParseState {
    if st.failed then st
    else if st.parsingKey && b != 0 then
      st.(stack := st.stack.(key := Set(st.stack.key, st.keyIndex, b)), keyIndex := st.keyIndex + 1)
    else if st.parsingKey then
      st.(stack := st.stack.(key := Set(st.stack.key, st.keyIndex, 0)), keyIndex := 0, parsingKey := false)
    else if b != 0 then
      st.(stack := st.stack.(value := Set(st.stack.value, st.valueIndex, b)), valueIndex := st.valueIndex + 1)
    else
      var stack := st.stack.(value := Set(st.stack.value, st.valueIndex, 0));
      var stored := st.(stack := stack, entries := st.entries[st.listIndex := PairOf(stack)],
        listIndex := st.listIndex + 1);
      if stored.listIndex >= size then stored.(failed := true)
      else stored.(parsingKey := true, valueIndex := 0)
  }

  function ParseBytes(size: nat, st: ParseState, message: seq<byte>): ParseState
    decreases |message|
  {
    if message == [] then st
    else ParseByte(size, ParseBytes(size, st, message[..|message| - 1]), message[|message| - 1])
  }

  /** After the loop the last pair, which no NUL ends, is stored. */
  function ParseEnd(st: ParseState): (map<nat, KvPair>, Option<nat>) {
    if st.failed then (st.entries, None)
    else
      var last := st.stack.(value := Set(st.stack.value, st.valueIndex, 0));
      (st.entries[st.listIndex := PairOf(last)], Some(st.listIndex + 1))
  }

  function ParseStart(stack: Stack, start: nat, entries: map<nat, KvPair>): ParseState {
    ParseState(stack, 0, 0, true, entries, start, false)
  }

  /** The entries after parsing, and the returned count; None is the code -1. */
  function ParseKvPairs(size: nat, entries: map<nat, KvPair>, start: nat, message: seq<byte>, stack: Stack)
    : (map<nat, KvPair>, Option<nat>)
  {
    ParseEnd(ParseBytes(size, ParseStart(stack, start, entries), message))
  }

  class KvList {
    var size: nat
    var list: map<nat, KvPair>

    constructor (size: nat)
      ensures this.size == size && list == map[]
    {
      this.size := size;
      list := map[];
    }
  }

  lemma ParseSnoc(size: nat, st: ParseState, message: seq<byte>, i: nat)
    requires i < |message|
    ensures ParseBytes(size, st, message[..i + 1]) == ParseByte(size, ParseBytes(size, st, message[..i]), message[i])
  {
    assert message[..i + 1][..i] == message[..i];
  }

  lemma ParseNothing(size: nat, st: ParseState)
    ensures ParseBytes(size, st, []) == st
  {
  }

  method StorePair(kvList: KvList, listIndex: nat, key: array<byte>, value: array<byte>, valueIndex: nat)
    requires key != value && key.Length == value.Length == MAX_MSG_SIZE && valueIndex < MAX_MSG_SIZE
    modifies kvList`list, value
    ensures value[..] == old(value[..])[valueIndex := 0]
    ensures kvList.list == old(kvList.list)[listIndex := PairOf(Stack(key[..], value[..]))]
  {
    value[valueIndex] := 0;
    kvList.list := kvList.list[listIndex := KvPair(CString(key[..]), CString(value[..]))];
  }

  /** One turn of the parser's loop, on the loop's variables. */
  method ParseNext(b: byte, kvList: KvList, key: array<byte>, value: array<byte>, ghost st: ParseState,
                   keyIndex: nat, valueIndex: nat, parsingKey: bool, listIndex: nat)
    returns (keyIndex': nat, valueIndex': nat, parsingKey': bool, listIndex': nat, failed: bool)
    requires key != value && key.Length == value.Length == MAX_MSG_SIZE
    requires keyIndex < MAX_MSG_SIZE && valueIndex < MAX_MSG_SIZE
    requires st ==
      ParseState(Stack(key[..], value[..]), keyIndex, valueIndex, parsingKey, kvList.list, listIndex, false)
    modifies kvList`list, key, value
    ensures ParseByte(kvList.size, st, b) ==
      ParseState(Stack(key[..], value[..]), keyIndex', valueIndex', parsingKey', kvList.list, listIndex', failed)
  {
    keyIndex', valueIndex', parsingKey', listIndex', failed := keyIndex, valueIndex, parsingKey, listIndex, false;
    if parsingKey && b != 0 {
      key[keyIndex] := b;
      keyIndex' := keyIndex + 1;
    } else if parsingKey {
      parsingKey' := false;
      key[keyIndex] := 0;
      keyIndex' := 0;
    } else if b != 0 {
      value[valueIndex] := b;
      valueIndex' := valueIndex + 1;
    } else {
      StorePair(kvList, listIndex, key, value, valueIndex);
      listIndex' := listIndex + 1;
      if listIndex' >= kvList.size {
        failed := true;
      } else {
        parsingKey' := true;
        valueIndex' := 0;
      }
    }
  }

  /** The parser. `key` and `value` are its two stack buffers. */
  method Parse(message: seq<byte>, start: nat, kvList: KvList, key: array<byte>, value: array<byte>)
    returns (parsed: Option<nat>)
    requires key != value && key.Length == value.Length == MAX_MSG_SIZE && |message| <= MAX_MSG_SIZE
    modifies kvList`list, key, value
    ensures (kvList.list, parsed) ==
      old(ParseKvPairs(kvList.size, kvList.list, start, message, Stack(key[..], value[..])))
    ensures Reads(kvList.size, old(kvList.list), start, message, kvList.list, parsed)
  {
    hide ParseBytes, Reads;
    ParseReads(kvList.size, kvList.list, start, message, Stack(key[..], value[..]));
    ghost var size := kvList.size;
    ghost var init := ParseStart(Stack(key[..], value[..]), start, kvList.list);
    ghost var st := init;
    ParseNothing(size, init);
    var keyIndex, valueIndex, listIndex, parsingKey, failed := 0, 0, start, true, false;
    for i := 0 to |message|
      invariant st == ParseBytes(size, init, message[..i])
      invariant 0 <= keyIndex <= i && 0 <= valueIndex <= i && 0 <= listIndex
      invariant if parsingKey then valueIndex == 0 else valueIndex < i
      invariant st == ParseState(
        Stack(key[..], value[..]), keyIndex, valueIndex, parsingKey, kvList.list, listIndex, false)
    {
      ParseSnoc(size, init, message, i);
      ghost var next := ParseByte(size, st, message[i]);
      keyIndex, valueIndex, parsingKey, listIndex, failed :=
        ParseNext(message[i], kvList, key, value, st, keyIndex, valueIndex, parsingKey, listIndex);
      st := next;
      if failed {
        FailureStays(size, init, message, i + 1);
        return None;
      }
    }
    assert message[..|message|] == message;
    StorePair(kvList, listIndex, key, value, valueIndex);
    parsed := Some(listIndex + 1);
  }

  lemma {:induction false} FailureStays(size: nat, st: ParseState, message: seq<byte>, i: nat)
    requires i <= |message| && ParseBytes(size, st, message[..i]).failed
    ensures ParseBytes(size, st, message) == ParseBytes(size, st, message[..i])
    decreases |message|
  {
    if i == |message| {
      assert message[..i] == message;
    } else {
      var front := message[..|message| - 1];
      assert front[..i] == message[..i];
      FailureStays(size, st, front, i);
    }
  }

  // ---------- the parser without its buffers ----------

  /** A message split at its NULs. */
  ghost function Fields(message: seq<byte>): (fields: seq<CStr>)
    ensures fields != []
  {
    if message == [] then [[]]
    else
      var front, b := Fields(message[..|message| - 1]), message[|message| - 1];
      if b == 0 then front + [[]] else front[..|front| - 1] + [front[|front| - 1] + [b]]
  }

  /** Keys and values in turn; a last key without a value is left out. */
  ghost function Paired(fields: seq<CStr>): (list: seq<KvPair>)
    ensures |list| == |fields| / 2
  {
    seq(|fields| / 2, j requires 0 <= j < |fields| / 2 => KvPair(fields[2 * j], fields[2 * j + 1]))
  }

  /** The number of entries a message fills: one for every two fields, and one for a field left over. */
  ghost function Slots(message: seq<byte>): (slots: nat)
    ensures slots >= 1
  {
    (|Fields(message)| + 1) / 2
  }

  /** The list put into consecutive entries from `start` on. */
  ghost function Stored(entries: map<nat, KvPair>, start: nat, list: seq<KvPair>): map<nat, KvPair> {
    if list == [] then entries
    else Stored(entries, start, list[..|list| - 1])[start + |list| - 1 := list[|list| - 1]]
  }

  /**
   * The pairs are the fields, two by two. A key without a value gets the empty value, and
   * keeps the end of the key before it if that one was longer.
   */
  ghost predicate IsRead(list: seq<KvPair>, message: seq<byte>) {
    var fields := Fields(message);
    var n := |fields|;
    && |list| == Slots(message)
    && Paired(fields) <= list
    && (n % 2 == 1 ==>
          && fields[n - 1] <= list[n / 2].key && list[n / 2].value == []
          && (n >= 3 && |fields[n - 1]| <= |fields[n - 3]| ==>
                list[n / 2].key == fields[n - 1] + fields[n - 3][|fields[n - 1]|..]))
  }

  lemma {:induction false} FieldSize(message: seq<byte>, i: nat)
    requires i < |Fields(message)|
    ensures |Fields(message)[i]| + |Fields(message)| <= |message| + 1
  {
    if message != [] {
      var front, b := Fields(message[..|message| - 1]), message[|message| - 1];
      if i < |front| {
        FieldSize(message[..|message| - 1], i);
      } else {
        FieldSize(message[..|message| - 1], |front| - 1);
      }
    }
  }

  lemma PairedSnoc(fields: seq<CStr>, last: CStr)
    ensures |fields| % 2 == 0 ==> Paired(fields + [last]) == Paired(fields)
    ensures |fields| % 2 == 1 ==>
      Paired(fields + [last]) == Paired(fields[..|fields| - 1]) + [KvPair(fields[|fields| - 1], last)]
  {
  }

  lemma StoredSnoc(entries: map<nat, KvPair>, start: nat, list: seq<KvPair>, kv: KvPair)
    ensures Stored(entries, start, list + [kv]) == Stored(entries, start, list)[start + |list| := kv]
  {
    assert (list + [kv])[..|list|] == list;
  }

  /** Inside a key: the last field has been written over the key before it. */
  ghost predicate InKey(st: ParseState, fields: seq<CStr>)
    requires fields != []
  {
    var n, last := |fields|, fields[|fields| - 1];
    && st.parsingKey && st.valueIndex == 0
    && st.keyIndex == |last| <= MAX_MSG_SIZE && st.stack.key[..|last|] == last
    && (n >= 3 && |last| <= |fields[n - 3]| ==> CString(st.stack.key) == last + fields[n - 3][|last|..])
  }

  /** Inside a value: the key is complete. */
  ghost predicate InValue(st: ParseState, fields: seq<CStr>)
    requires |fields| >= 2
  {
    var last := fields[|fields| - 1];
    && !st.parsingKey && st.keyIndex == 0 && CString(st.stack.key) == fields[|fields| - 2]
    && st.valueIndex == |last| <= MAX_MSG_SIZE && st.stack.value[..|last|] == last
  }

  /** The parser has read these fields, and stored the pairs of all but the last. */
  ghost predicate HasRead(st: ParseState, entries: map<nat, KvPair>, start: nat, fields: seq<CStr>)
    requires fields != []
  {
    var n := |fields|;
    && !st.failed && st.listIndex == start + (n - 1) / 2
    && st.entries == Stored(entries, start, Paired(fields[..n - 1]))
    && if n % 2 == 1 then InKey(st, fields) else InValue(st, fields)
  }

  lemma ReadKeyByte(size: nat, st: ParseState, fields: seq<CStr>, b: byte)
    requires fields != [] && InKey(st, fields) && !st.failed && b != 0
    requires |fields[|fields| - 1]| < MAX_MSG_SIZE
    ensures
      var st' := ParseByte(size, st, b);
      && InKey(st', fields[..|fields| - 1] + [fields[|fields| - 1] + [b]])
      && !st'.failed && st'.listIndex == st.listIndex && st'.entries == st.entries
  {
    hide CString, PairOf;
    var n, last := |fields|, fields[|fields| - 1];
    var key, key' := st.stack.key, st.stack.key[|last| := b];
    assert key'[..|last| + 1] == last + [b];
    if n >= 3 && |last| < |fields[n - 3]| {
      Overwritten(key, last, fields[n - 3], b);
    }
  }

  lemma Overwritten(key: Buffer, last: CStr, before: CStr, b: byte)
    requires |last| < |before| && b != 0
    requires CString(key) == last + before[|last|..]
    ensures CString(key[|last| := b]) == last + [b] + before[|last| + 1..]
  {
    var key', s := key[|last| := b], last + [b] + before[|last| + 1..];
    assert CString(key)[|last| := b] == s;
    CStringIs(key', s);
  }

  lemma ReadKeyEnd(size: nat, st: ParseState, fields: seq<CStr>)
    requires fields != [] && InKey(st, fields) && !st.failed
    requires |fields[|fields| - 1]| < MAX_MSG_SIZE
    ensures
      var st' := ParseByte(size, st, 0);
      && InValue(st', fields + [[]])
      && !st'.failed && st'.listIndex == st.listIndex && st'.entries == st.entries
  {
    hide CString, PairOf;
    var last := fields[|fields| - 1];
    CStringIs(st.stack.key[|last| := 0], last);
  }

  lemma ReadValueByte(size: nat, st: ParseState, fields: seq<CStr>, b: byte)
    requires |fields| >= 2 && InValue(st, fields) && !st.failed && b != 0
    requires |fields[|fields| - 1]| < MAX_MSG_SIZE
    ensures
      var st' := ParseByte(size, st, b);
      && InValue(st', fields[..|fields| - 1] + [fields[|fields| - 1] + [b]])
      && !st'.failed && st'.listIndex == st.listIndex && st'.entries == st.entries
  {
    hide CString, PairOf;
    var last := fields[|fields| - 1];
    assert st.stack.value[|last| := b][..|last| + 1] == last + [b];
  }

  lemma ReadValueEnd(size: nat, st: ParseState, fields: seq<CStr>)
    requires |fields| >= 2 && InValue(st, fields) && !st.failed
    requires |fields[|fields| - 1]| < MAX_MSG_SIZE
    ensures
      var st', kv := ParseByte(size, st, 0), KvPair(fields[|fields| - 2], fields[|fields| - 1]);
      && st'.listIndex == st.listIndex + 1 && st'.entries == st.entries[st.listIndex := kv]
      && st'.failed == (st.listIndex + 1 >= size)
      && (!st'.failed ==> InKey(st', fields + [[]]))
  {
    hide CString;
    var last := fields[|fields| - 1];
    CStringIs(st.stack.value[|last| := 0], last);
  }

  lemma ReadByte(size: nat, st: ParseState, entries: map<nat, KvPair>, start: nat, fields: seq<CStr>, b: byte)
    requires fields != [] && HasRead(st, entries, start, fields)
    requires |fields[|fields| - 1]| < MAX_MSG_SIZE
    ensures b != 0 ==>
      HasRead(ParseByte(size, st, b), entries, start, fields[..|fields| - 1] + [fields[|fields| - 1] + [b]])
    ensures b == 0 && |fields| % 2 == 1 ==> HasRead(ParseByte(size, st, b), entries, start, fields + [[]])
    ensures b == 0 && |fields| % 2 == 0 ==>
      if st.listIndex + 1 >= size then ParseByte(size, st, b).failed
      else HasRead(ParseByte(size, st, b), entries, start, fields + [[]])
  {
    hide ParseByte, InKey, InValue, Paired, Stored;
    var n, last := |fields|, fields[|fields| - 1];
    var front := fields[..n - 1];
    assert fields == front + [last];
    if b != 0 {
      assert (front + [last + [b]])[..n - 1] == front;
      if n % 2 == 1 {
        ReadKeyByte(size, st, fields, b);
      } else {
        ReadValueByte(size, st, fields, b);
      }
    } else {
      assert (fields + [[]])[..n] == fields;
      if n % 2 == 1 {
        ReadKeyEnd(size, st, fields);
        PairedSnoc(front, last);
      } else {
        ReadValueEnd(size, st, fields);
        PairedSnoc(front, last);
        assert front == front[..n - 2] + [front[n - 2]];
        PairedSnoc(front[..n - 2], front[n - 2]);
        StoredSnoc(entries, start, Paired(front[..n - 2]), KvPair(front[n - 2], last));
      }
    }
  }

  /** The parser fails when it would have to store an entry behind the announced number and go on. */
  ghost predicate Overflows(size: nat, start: nat, message: seq<byte>) {
    Slots(message) > 1 && start + Slots(message) - 1 >= size
  }

  lemma FieldsSnoc(message: seq<byte>, b: byte)
    ensures
      var fields := Fields(message);
      Fields(message + [b]) ==
        if b == 0 then fields + [[]] else fields[..|fields| - 1] + [fields[|fields| - 1] + [b]]
  {
    assert (message + [b])[..|message|] == message;
  }

  lemma OverflowNext(size: nat, start: nat, message: seq<byte>, b: byte, index: nat)
    requires !Overflows(size, start, message) && index == start + (|Fields(message)| - 1) / 2
    ensures Overflows(size, start, message + [b]) <==> b == 0 && |Fields(message)| % 2 == 0 && index + 1 >= size
  {
    hide Fields;
    FieldsSnoc(message, b);
  }

  lemma ReadNext(size: nat, st: ParseState, entries: map<nat, KvPair>, start: nat, front: seq<byte>, b: byte)
    requires HasRead(st, entries, start, Fields(front)) && |front| < MAX_MSG_SIZE && !Overflows(size, start, front)
    ensures
      if Overflows(size, start, front + [b]) then ParseByte(size, st, b).failed
      else HasRead(ParseByte(size, st, b), entries, start, Fields(front + [b]))
  {
    hide *;
    var fields := Fields(front);
    FieldSize(front, |fields| - 1);
    FieldsSnoc(front, b);
    ReadIndex(st, entries, start, fields);
    OverflowNext(size, start, front, b, st.listIndex);
    ReadByte(size, st, entries, start, fields, b);
  }

  lemma {:induction false} ReadBytes(size: nat, entries: map<nat, KvPair>, start: nat, message: seq<byte>, stack: Stack)
    requires |message| <= MAX_MSG_SIZE
    ensures
      var st := ParseBytes(size, ParseStart(stack, start, entries), message);
      if Overflows(size, start, message) then st.failed else HasRead(st, entries, start, Fields(message))
    decreases |message|
  {
    hide ParseByte, HasRead, Overflows, Fields;
    if message == [] {
      ReadNothing(size, entries, start, stack);
    } else {
      var front, b := message[..|message| - 1], message[|message| - 1];
      assert message == front + [b];
      ReadBytes(size, entries, start, front, stack);
      var st := ParseBytes(size, ParseStart(stack, start, entries), front);
      if Overflows(size, start, front) {
        FailedStays(size, st, b);
        OverflowStays(size, start, front, b);
      } else {
        ReadNext(size, st, entries, start, front, b);
      }
    }
  }

  lemma OverflowStays(size: nat, start: nat, message: seq<byte>, b: byte)
    requires Overflows(size, start, message)
    ensures Overflows(size, start, message + [b])
  {
    FieldsSnoc(message, b);
  }

  lemma FailedStays(size: nat, st: ParseState, b: byte)
    requires st.failed
    ensures ParseByte(size, st, b) == st
  {
  }

  lemma ReadIndex(st: ParseState, entries: map<nat, KvPair>, start: nat, fields: seq<CStr>)
    requires fields != [] && HasRead(st, entries, start, fields)
    ensures !st.failed && st.listIndex == start + (|fields| - 1) / 2
  {
  }

  lemma ReadNothing(size: nat, entries: map<nat, KvPair>, start: nat, stack: Stack)
    ensures Fields([]) == [[]] && !Overflows(size, start, [])
    ensures HasRead(ParseStart(stack, start, entries), entries, start, [[]])
  {
    var none: seq<CStr> := [[]];
    assert none[..0] == [];
  }

  /** What the parser stores in the end, without a look at its buffers. */
  ghost predicate Reads(size: nat, entries: map<nat, KvPair>, start: nat, message: seq<byte>,
                        entries': map<nat, KvPair>, parsed: Option<nat>) {
    if Overflows(size, start, message) then parsed == None
    else
      && parsed == Some(start + Slots(message))
      && exists list :: IsRead(list, message) && entries' == Stored(entries, start, list)
  }

  lemma ReadEndInKey(st: ParseState, entries: map<nat, KvPair>, start: nat, message: seq<byte>)
    returns (list: seq<KvPair>)
    requires HasRead(st, entries, start, Fields(message)) && |Fields(message)| % 2 == 1
    ensures IsRead(list, message) && ParseEnd(st) == (Stored(entries, start, list), Some(start + Slots(message)))
  {
    hide Stored, Fields, CString;
    var fields := Fields(message);
    var n, last := |fields|, fields[|fields| - 1];
    assert fields == fields[..n - 1] + [last];
    PairedSnoc(fields[..n - 1], last);
    CStringIs(Set(st.stack.value, st.valueIndex, 0), []);
    var kv := KvPair(CString(st.stack.key), []);
    list := Paired(fields) + [kv];
    StoredSnoc(entries, start, Paired(fields), kv);
    KeyBegins(st.stack.key, last);
  }

  lemma ReadEndInValue(st: ParseState, entries: map<nat, KvPair>, start: nat, message: seq<byte>)
    returns (list: seq<KvPair>)
    requires HasRead(st, entries, start, Fields(message)) && |message| <= MAX_MSG_SIZE && |Fields(message)| % 2 == 0
    ensures IsRead(list, message) && ParseEnd(st) == (Stored(entries, start, list), Some(start + Slots(message)))
  {
    hide Stored, Fields, Paired, CString;
    var fields := Fields(message);
    var n, last := |fields|, fields[|fields| - 1];
    FieldSize(message, n - 1);
    CStringIs(Set(st.stack.value, st.valueIndex, 0), last);
    list := Paired(fields);
    var front := fields[..n - 1];
    assert fields == front + [last] && front == front[..n - 2] + [front[n - 2]];
    PairedSnoc(front, last);
    PairedSnoc(front[..n - 2], front[n - 2]);
    StoredSnoc(entries, start, Paired(front), KvPair(fields[n - 2], last));
  }

  lemma {:induction false} KeyBegins(buffer: seq<byte>, s: CStr)
    requires s <= buffer
    ensures s <= CString(buffer)
  {
    if s != [] {
      assert s == [s[0]] + s[1..] && buffer[0] == s[0];
      KeyBegins(buffer[1..], s[1..]);
    }
  }

  /** The parser against its specification without buffers. */
  lemma ParseReads(size: nat, entries: map<nat, KvPair>, start: nat, message: seq<byte>, stack: Stack)
    requires |message| <= MAX_MSG_SIZE
    ensures
      var (entries', parsed) := ParseKvPairs(size, entries, start, message, stack);
      Reads(size, entries, start, message, entries', parsed)
  {
    hide ParseBytes, HasRead, Fields;
    ReadBytes(size, entries, start, message, stack);
    var st := ParseBytes(size, ParseStart(stack, start, entries), message);
    if HasRead(st, entries, start, Fields(message)) {
      ReadIndex(st, entries, start, Fields(message));
      if |Fields(message)| % 2 == 1 {
        var list := ReadEndInKey(st, entries, start, message);
      } else {
        var list := ReadEndInValue(st, entries, start, message);
      }
    }
  }

  // ---------- parsing what the packing wrote ----------

  lemma NoFields()
    ensures Fields([]) == [[]] && Slots([]) == 1
  {
  }

  lemma {:induction false} FieldsConcat(a: seq<byte>, b: seq<byte>)
    ensures Fields(a + [0] + b) == Fields(a) + Fields(b)
    decreases |b|
  {
    hide Fields;
    if b == [] {
      assert a + [0] + b == a + [0];
      FieldsSnoc(a, 0);
      NoFields();
    } else {
      var front, last := b[..|b| - 1], b[|b| - 1];
      assert b == front + [last] && a + [0] + b == a + [0] + front + [last];
      FieldsConcat(a, front);
      FieldsSnoc(a + [0] + front, last);
      FieldsSnoc(front, last);
    }
  }

  lemma {:induction false} FieldsOne(s: CStr)
    ensures Fields(s) == [s]
  {
    if s != [] {
      var front, last := s[..|s| - 1], s[|s| - 1];
      assert s == front + [last];
      FieldsOne(front);
      FieldsSnoc(front, last);
    }
  }

  lemma FieldsPair(kv: KvPair)
    ensures Fields(PairBytes(kv)) == [kv.key, kv.value]
  {
    FieldsConcat(kv.key, kv.value);
    FieldsOne(kv.key);
    FieldsOne(kv.value);
  }

  lemma PairedCons(kv: KvPair, fields: seq<CStr>)
    ensures Paired([kv.key, kv.value] + fields) == [kv] + Paired(fields)
  {
    var all := [kv.key, kv.value] + fields;
    forall j | 0 <= j < |all| / 2 ensures Paired(all)[j] == ([kv] + Paired(fields))[j] {
      if j > 0 {
        assert all[2 * j] == fields[2 * (j - 1)] && all[2 * j + 1] == fields[2 * (j - 1) + 1];
      }
    }
  }

  lemma {:induction false} FieldsJoined(list: seq<KvPair>)
    requires list != []
    ensures |Fields(Joined(list))| == 2 * |list| && Paired(Fields(Joined(list))) == list
  {
    hide Fields, Paired;
    FieldsPair(list[0]);
    PairedCons(list[0], []);
    assert [list[0].key, list[0].value] + [] == [list[0].key, list[0].value];
    if |list| > 1 {
      FieldsJoined(list[1..]);
      FieldsConcat(PairBytes(list[0]), Joined(list[1..]));
      PairedCons(list[0], Fields(Joined(list[1..])));
    }
  }

  lemma JoinedReads(list: seq<KvPair>)
    requires list != []
    ensures Slots(Joined(list)) == |list|
    ensures forall read :: IsRead(read, Joined(list)) ==> read == list
  {
    hide Fields, Paired;
    FieldsJoined(list);
  }

  lemma ParseWhole(size: nat, entries: map<nat, KvPair>, start: nat, list: seq<KvPair>, stack: Stack)
    requires list != [] && |Joined(list)| <= MAX_MSG_SIZE && start + |list| <= size
    ensures ParseKvPairs(size, entries, start, Joined(list), stack) ==
            (Stored(entries, start, list), Some(start + |list|))
  {
    hide ParseKvPairs, IsRead, Stored, Slots;
    ParseReads(size, entries, start, Joined(list), stack);
    JoinedReads(list);
  }

  lemma ContinuationFields(message: seq<byte>)
    ensures Fields([0] + message) == [[]] + Fields(message)
  {
    hide Fields;
    FieldsConcat([], message);
    NoFields();
    assert [] + [0] + message == [0] + message;
  }

  lemma PairedAt(fields: seq<CStr>, i: nat)
    requires 2 * i + 1 < |fields|
    ensures Paired(fields)[i] == KvPair(fields[2 * i], fields[2 * i + 1])
  {
  }

  /** Reading the keys and values of a list behind one more field. */
  lemma ShiftedPairs(fields: seq<CStr>, list: seq<KvPair>, i: nat)
    requires |fields| == 2 * |list| && Paired(fields) == list && i < |list|
    ensures Paired([[]] + fields)[i] == KvPair(if i == 0 then [] else list[i - 1].value, list[i].key)
    ensures ([[]] + fields)[2 * i + 2] == list[i].value
  {
    hide Paired;
    var all := [[]] + fields;
    PairedAt(all, i);
    PairedAt(fields, i);
    assert all[2 * i + 1] == fields[2 * i] && all[2 * i + 2] == fields[2 * i + 1];
    if i > 0 {
      PairedAt(fields, i - 1);
      assert all[2 * i] == fields[2 * (i - 1) + 1];
    }
  }

  lemma ReadOdd(read: seq<KvPair>, message: seq<byte>, m: nat)
    requires IsRead(read, message) && |Fields(message)| == 2 * m + 1
    ensures |read| == m + 1 && forall i :: 0 <= i < m ==> read[i] == Paired(Fields(message))[i]
    ensures Fields(message)[2 * m] <= read[m].key && read[m].value == []
  {
    hide Fields, Paired;
  }

  /**
   * A datagram that starts with a NUL is read out of step: the first key is stored as a value
   * under the empty key, every value as the key of the next key, and the last value as a key.
   */
  lemma {:induction false} ContinuationShifts(list: seq<KvPair>, read: seq<KvPair>)
    requires list != [] && IsRead(read, [0] + Joined(list))
    ensures |read| == |list| + 1
    ensures read[0] == KvPair([], list[0].key)
    ensures forall i :: 0 < i < |list| ==> read[i] == KvPair(list[i - 1].value, list[i].key)
    ensures list[|list| - 1].value <= read[|list|].key && read[|list|].value == []
  {
    hide *;
    var m, fields := |list|, Fields(Joined(list));
    ContinuationFields(Joined(list));
    FieldsJoined(list);
    ReadOdd(read, [0] + Joined(list), m);
    ShiftedPairs(fields, list, 0);
    forall i | 0 < i < m ensures read[i] == KvPair(list[i - 1].value, list[i].key) {
      ShiftedPairs(fields, list, i);
    }
    ShiftedPairs(fields, list, m - 1);
    assert ([[]] + fields)[2 * m] == list[m - 1].value;
  }

  // ---------- the client ----------

  datatype Outcome = Failed | Printed(size: nat, entries: map<nat, KvPair>)

  function Number(b: seq<byte>): nat
    requires |b| >= 4
  {
    b[3] as int + 256 * (b[2] as int + 256 * (b[1] as int + 256 * b[0] as int))
  }

  /** The loop over further datagrams; the list of received ones ends with a time-out. */
  function Continue(packets: seq<seq<byte>>, size: nat, entries: map<nat, KvPair>, parsed: nat,
                    stacks: nat -> Stack, call: nat): Outcome
    decreases |packets|
  {
    if parsed >= size then (if parsed == size then Printed(size, entries) else Failed)
    else if packets == [] then
      var (entries', more) := ParseKvPairs(size, entries, parsed, [], stacks(call));
      if more.None? || parsed + more.value != size then Failed else Printed(size, entries')
    else
      var (entries', more) := ParseKvPairs(size, entries, parsed, packets[0], stacks(call));
      if more.None? then Failed
      else Continue(packets[1..], size, entries', parsed + more.value, stacks, call + 1)
  }

  /** The message buffer after a datagram has been received into it. */
  function Received(packet: seq<byte>, inMsg: Buffer): (received: seq<byte>)
    requires |packet| <= MAX_MSG_SIZE
    ensures |received| == MAX_MSG_SIZE
  {
    packet + inMsg[|packet|..]
  }

  function Payload(packet: seq<byte>): seq<byte> {
    if |packet| >= 4 then packet[4..] else []
  }

  ghost predicate Legal(packets: seq<seq<byte>>) {
    forall p :: p in packets ==> |p| <= MAX_MSG_SIZE
  }

  /** The whole client, on the datagrams in the order in which they arrive. */
  function ReadDump(packets: seq<seq<byte>>, stacks: nat -> Stack, inMsg: Buffer): Outcome
    requires Legal(packets)
  {
    if packets == [] then Failed
    else
      var size := Number(Received(packets[0], inMsg));
      var (entries, parsed) := ParseKvPairs(size, map[], 0, Payload(packets[0]), stacks(0));
      if parsed.None? then Failed else Continue(packets[1..], size, entries, parsed.value, stacks, 1)
  }

  // ---------- when the client prints, and what ----------

  /** What the t-th call of the parser is given; behind the last datagram there is the time-out. */
  function Message(packets: seq<seq<byte>>, t: nat): seq<byte>
    requires packets != [] && t > 0
  {
    if t == 1 then Payload(packets[0]) else if t <= |packets| then packets[t - 1] else []
  }

  /** The client's count after t calls: the parser returns an absolute index, which is added to the count. */
  ghost function Count(packets: seq<seq<byte>>, t: nat): nat
    requires packets != []
  {
    if t == 0 then 0 else 2 * Count(packets, t - 1) + Slots(Message(packets, t))
  }

  ghost predicate HoldsAt(entries: map<nat, KvPair>, start: nat, list: seq<KvPair>) {
    forall i: nat :: start <= i < start + |list| ==> i in entries && entries[i] == list[i - start]
  }

  ghost predicate ReadAt(entries: map<nat, KvPair>, start: nat, message: seq<byte>) {
    exists list: seq<KvPair> :: IsRead(list, message) && HoldsAt(entries, start, list)
  }

  /** The entries after t calls: every message from the count before it on, and from the second on a gap at the end. */
  ghost predicate Filled(packets: seq<seq<byte>>, t: nat, entries: map<nat, KvPair>)
    requires packets != []
  {
    && (forall i :: i in entries ==> i < Count(packets, t))
    && (t >= 2 ==> Count(packets, t) - 1 !in entries)
    && forall s :: 1 <= s <= t ==> ReadAt(entries, Count(packets, s - 1), Message(packets, s))
  }

  lemma {:induction false} StoredExactly(entries: map<nat, KvPair>, start: nat, list: seq<KvPair>, i: nat)
    ensures start <= i < start + |list| ==>
      i in Stored(entries, start, list) && Stored(entries, start, list)[i] == list[i - start]
    ensures !(start <= i < start + |list|) ==>
      && (i in Stored(entries, start, list) <==> i in entries)
      && (i in entries ==> Stored(entries, start, list)[i] == entries[i])
  {
    if list != [] {
      StoredExactly(entries, start, list[..|list| - 1], i);
    }
  }

  lemma StoredReadAt(entries: map<nat, KvPair>, start: nat, list: seq<KvPair>, message: seq<byte>)
    requires IsRead(list, message)
    ensures ReadAt(Stored(entries, start, list), start, message)
  {
    hide Stored, IsRead;
    var entries' := Stored(entries, start, list);
    forall i: nat | start <= i < start + |list| ensures i in entries' && entries'[i] == list[i - start] {
      StoredExactly(entries, start, list, i);
    }
    assert HoldsAt(entries', start, list);
  }

  lemma StoredKeepsReadAt(entries: map<nat, KvPair>, start: nat, list: seq<KvPair>, before: nat, message: seq<byte>)
    requires (forall i :: i in entries ==> i < start) && ReadAt(entries, before, message)
    ensures ReadAt(Stored(entries, start, list), before, message)
  {
    hide Stored, IsRead;
    var entries' := Stored(entries, start, list);
    var read :| IsRead(read, message) && HoldsAt(entries, before, read);
    forall i: nat | before <= i < before + |read| ensures i in entries' && entries'[i] == read[i - before] {
      StoredExactly(entries, start, list, i);
    }
    assert HoldsAt(entries', before, read);
  }

  lemma StoredDomain(entries: map<nat, KvPair>, start: nat, list: seq<KvPair>)
    ensures forall i :: i in Stored(entries, start, list) <==> i in entries || start <= i < start + |list|
  {
    hide Stored;
    forall i: nat ensures i in Stored(entries, start, list) <==> i in entries || start <= i < start + |list| {
      StoredExactly(entries, start, list, i);
    }
  }

  lemma FilledNext(packets: seq<seq<byte>>, t: nat, entries: map<nat, KvPair>, list: seq<KvPair>)
    requires packets != [] && Filled(packets, t, entries) && IsRead(list, Message(packets, t + 1))
    ensures Filled(packets, t + 1, Stored(entries, Count(packets, t), list))
  {
    hide Stored, ReadAt, Message, Slots, IsRead, Count;
    var c, entries' := Count(packets, t), Stored(entries, Count(packets, t), list);
    ReadLength(list, Message(packets, t + 1));
    CountNext(packets, t);
    StoredDomain(entries, c, list);
    forall s | 1 <= s <= t + 1 ensures ReadAt(entries', Count(packets, s - 1), Message(packets, s)) {
      if s <= t {
        StoredKeepsReadAt(entries, c, list, Count(packets, s - 1), Message(packets, s));
      } else {
        StoredReadAt(entries, c, list, Message(packets, s));
      }
    }
  }

  lemma CountNext(packets: seq<seq<byte>>, t: nat)
    requires packets != []
    ensures Count(packets, t + 1) == 2 * Count(packets, t) + Slots(Message(packets, t + 1))
    ensures t > 0 ==> Count(packets, t) > 0
  {
  }

  lemma ReadLength(list: seq<KvPair>, message: seq<byte>)
    requires IsRead(list, message)
    ensures |list| == Slots(message)
  {
  }

  lemma {:induction false} CountGrows(packets: seq<seq<byte>>, t: nat, u: nat)
    requires packets != [] && t <= u
    ensures Count(packets, t) <= Count(packets, u) && (t < u ==> Count(packets, t) < Count(packets, u))
  {
    if t < u {
      CountGrows(packets, t, u - 1);
    }
  }

  /** Some call from the given one on, or the one at the time-out, makes the count equal to the announced number. */
  ghost predicate Reaches(packets: seq<seq<byte>>, from: nat, size: nat)
    requires packets != []
  {
    exists t :: from <= t <= |packets| + 1 && Count(packets, t) == size
  }

  ghost predicate PrintsFilled(packets: seq<seq<byte>>, size: nat, outcome: Outcome)
    requires packets != []
  {
    && outcome.Printed? && outcome.size == size
    && exists t :: 1 <= t <= |packets| + 1 && Count(packets, t) == size && Filled(packets, t, outcome.entries)
  }

  lemma NoneReaches(packets: seq<seq<byte>>, from: nat, size: nat)
    requires packets != [] && Count(packets, from) > size
    ensures !Reaches(packets, from, size)
  {
    hide Count;
    forall t: nat | from <= t ensures Count(packets, t) != size {
      CountGrows(packets, from, t);
    }
  }

  /** A call of the parser with the count at Count(packets, t). */
  lemma OneCall(packets: seq<seq<byte>>, t: nat, size: nat, entries: map<nat, KvPair>, stack: Stack)
    requires packets != [] && Legal(packets) && t <= |packets| && Filled(packets, t, entries)
    requires Count(packets, t) < size || t == 0
    ensures
      var (entries', more) := ParseKvPairs(size, entries, Count(packets, t), Message(packets, t + 1), stack);
      && (more.None? ==> Count(packets, t + 1) > size)
      && (more.Some? ==>
            Count(packets, t) + more.value == Count(packets, t + 1) && Filled(packets, t + 1, entries'))
  {
    hide ParseKvPairs, Filled, IsRead, Slots;
    var message := Message(packets, t + 1);
    assert |message| <= MAX_MSG_SIZE by { MessageSize(packets, t + 1); }
    ParseReads(size, entries, Count(packets, t), message, stack);
    assert t > 0 ==> Count(packets, t) > 0 by { hide Count; CountGrows(packets, 0, t); }
    var (entries', more) := ParseKvPairs(size, entries, Count(packets, t), message, stack);
    if more.Some? {
      var list :| IsRead(list, message) && entries' == Stored(entries, Count(packets, t), list);
      FilledNext(packets, t, entries, list);
    }
  }

  lemma MessageSize(packets: seq<seq<byte>>, t: nat)
    requires packets != [] && Legal(packets) && t > 0
    ensures |Message(packets, t)| <= MAX_MSG_SIZE
  {
    assert packets[0] in packets;
    assert 1 < t <= |packets| ==> packets[t - 1] in packets;
  }

  lemma {:induction false} ContinueRuns(packets: seq<seq<byte>>, t: nat, size: nat, entries: map<nat, KvPair>,
                                        stacks: nat -> Stack)
    requires Legal(packets) && 1 <= t <= |packets| && Filled(packets, t, entries)
    ensures
      var outcome := Continue(packets[t..], size, entries, Count(packets, t), stacks, t);
      && (outcome.Printed? <==> Reaches(packets, t, size))
      && (outcome.Printed? ==> PrintsFilled(packets, size, outcome))
    decreases |packets| - t
  {
    hide ParseKvPairs, Filled, Count;
    if Count(packets, t) > size {
      NoneReaches(packets, t, size);
    } else if Count(packets, t) < size {
      OneCall(packets, t, size, entries, stacks(t));
      var (entries', more) := ParseKvPairs(size, entries, Count(packets, t), Message(packets, t + 1), stacks(t));
      ReachesLater(packets, t, size);
      if more.None? {
        NoneReaches(packets, t + 1, size);
      } else if t < |packets| {
        assert packets[t..][1..] == packets[t + 1..];
        ContinueRuns(packets, t + 1, size, entries', stacks);
      }
    }
  }

  lemma ReachesLater(packets: seq<seq<byte>>, t: nat, size: nat)
    requires packets != [] && Count(packets, t) < size
    ensures Reaches(packets, t, size) <==> Reaches(packets, t + 1, size)
  {
    hide Count;
  }

  /**
   * For all received datagrams: the client prints exactly when some call of the parser makes its count
   * equal to the announced number, and it prints what the calls up to that one have read.
   */
  lemma {:induction false} PrintsIff(packets: seq<seq<byte>>, stacks: nat -> Stack, inMsg: Buffer)
    requires Legal(packets) && packets != []
    ensures ReadDump(packets, stacks, inMsg).Printed? <==> Reaches(packets, 1, Number(Received(packets[0], inMsg)))
    ensures ReadDump(packets, stacks, inMsg).Printed? ==>
      PrintsFilled(packets, Number(Received(packets[0], inMsg)), ReadDump(packets, stacks, inMsg))
  {
    hide ParseKvPairs, Count, Filled, Continue, Received, Message, Number, Payload, Reaches, PrintsFilled;
    var size := Number(Received(packets[0], inMsg));
    NothingFilled(packets);
    OneCall(packets, 0, size, map[], stacks(0));
    FirstMessage(packets);
    var (entries, parsed) := ParseKvPairs(size, map[], 0, Message(packets, 1), stacks(0));
    if parsed.None? {
      NoneReaches(packets, 1, size);
    } else {
      ContinueRuns(packets, 1, size, entries, stacks);
    }
  }

  lemma NothingFilled(packets: seq<seq<byte>>)
    requires packets != []
    ensures Count(packets, 0) == 0 && Filled(packets, 0, map[])
  {
  }

  lemma FirstMessage(packets: seq<seq<byte>>)
    requires packets != []
    ensures Message(packets, 1) == Payload(packets[0]) && Count(packets, 1) == Slots(Payload(packets[0]))
  {
    assert Count(packets, 0) == 0;
  }

  /** What is printed has all announced entries exactly when the first datagram alone has as many. */
  lemma PrintedComplete(packets: seq<seq<byte>>, stacks: nat -> Stack, inMsg: Buffer)
    requires Legal(packets) && packets != [] && ReadDump(packets, stacks, inMsg).Printed?
    ensures
      var outcome := ReadDump(packets, stacks, inMsg);
      (forall i: nat :: i < outcome.size ==> i in outcome.entries) <==> Slots(Payload(packets[0])) == outcome.size
  {
    hide ReadDump, Message, Received, IsRead, Slots, Payload;
    var outcome := ReadDump(packets, stacks, inMsg);
    PrintsIff(packets, stacks, inMsg);
    FirstMessage(packets);
    var size := outcome.size;
    var t :| 1 <= t <= |packets| + 1 && Count(packets, t) == size && Filled(packets, t, outcome.entries);
    CountGrows(packets, 1, t);
    if t == 1 {
      assert ReadAt(outcome.entries, Count(packets, 0), Message(packets, 1));
      var list :| IsRead(list, Message(packets, 1)) && HoldsAt(outcome.entries, Count(packets, 0), list);
      ReadLength(list, Message(packets, 1));
      assert Count(packets, 0) == 0;
    }
  }

  // ---------- dumps ----------

  ghost predicate Returns(outcome: Outcome, list: seq<KvPair>) {
    && outcome.Printed? && outcome.size == |list|
    && forall i :: 0 <= i < |list| ==> i in outcome.entries && outcome.entries[i] == list[i]
  }

  lemma HeaderNumber(n: nat)
    ensures Number(Header(n)) == n % 0x1_0000_0000
  {
    HeaderBigEndian(n);
  }

  /** What the client takes out of a first datagram. */
  lemma FirstDatagram(packet: seq<byte>, n: nat, body: seq<byte>, inMsg: Buffer)
    requires packet == Header(n) + body && |packet| <= MAX_MSG_SIZE
    ensures Number(Received(packet, inMsg)) == n % 0x1_0000_0000
    ensures n < 0x1_0000_0000 ==> Number(Received(packet, inMsg)) == n
    ensures Payload(packet) == body
  {
    HeaderNumber(n);
    var received := Received(packet, inMsg);
    assert forall i :: 0 <= i < 4 ==> received[i] == Header(n)[i];
  }

  /**
   * A first datagram with fewer pairs than it announces, and then a time-out: the client takes the
   * time-out for one more pair, counted from where it is, and prints exactly if that makes the number.
   */
  lemma {:induction false} TimeOutPrintsIff(list: seq<KvPair>, n: nat, packet: seq<byte>,
                                            stacks: nat -> Stack, inMsg: Buffer)
    requires 0 < |list| < n < 0x1_0000_0000
    requires packet == Header(n) + Joined(list) && |packet| <= MAX_MSG_SIZE
    ensures ReadDump([packet], stacks, inMsg).Printed? <==> 2 * |list| + 1 == n
    ensures ReadDump([packet], stacks, inMsg) == Failed <==> 2 * |list| + 1 != n
  {
    hide ReadDump, Joined, Received, Slots, Payload, PrintsFilled;
    var packets := [packet];
    PrintsIff(packets, stacks, inMsg);
    FirstDatagram(packet, n, Joined(list), inMsg);
    FirstMessage(packets);
    JoinedReads(list);
    NoFields();
    assert Count(packets, 2) == 2 * |list| + 1;
    assert Count(packets, 1) == |list|;
  }

  /** A dump in one datagram is read back exactly, whatever the stack held. */
  lemma {:induction false} OnePacketReturns(list: seq<KvPair>, packet: seq<byte>, stacks: nat -> Stack, inMsg: Buffer)
    requires list != []
    requires packet == Header(|list|) + Joined(list) && |packet| <= MAX_MSG_SIZE
    ensures ReadDump([packet], stacks, inMsg) == Printed(|list|, Stored(map[], 0, list))
  {
    hide ParseKvPairs, Joined, Stored, Received, Payload;
    JoinedSize(list, list[0]);
    FirstDatagram(packet, |list|, Joined(list), inMsg);
    ParseWhole(|list|, map[], 0, list, stacks(0));
  }

  lemma StoredReturned(list: seq<KvPair>)
    ensures Returns(Printed(|list|, Stored(map[], 0, list)), list)
  {
    hide Stored;
    forall i | 0 <= i < |list|
      ensures i in Stored(map[], 0, list) && Stored(map[], 0, list)[i] == list[i]
    {
      StoredExactly(map[], 0, list, i);
    }
  }

  /** The client's count after t datagrams of a dump that is cut in these places. */
  ghost function CutCount(cuts: seq<nat>, t: nat): int
    requires 1 <= t < |cuts|
  {
    if t == 1 then cuts[1] else 2 * CutCount(cuts, t - 1) + cuts[t] - cuts[t - 1] + 1
  }

  /** The count after one of the first k datagrams, or at a time-out behind them, is the announced number. */
  ghost predicate CutReaches(cuts: seq<nat>, k: nat, size: nat)
    requires 1 <= k < |cuts|
  {
    || (exists t :: 1 <= t <= k && CutCount(cuts, t) == size)
    || 2 * CutCount(cuts, k) + 1 == size
  }

  lemma SlotsOfChunk(list: seq<KvPair>, i: nat, j: nat)
    requires i < j <= |list|
    ensures i == 0 ==> Slots(Payload(Chunk(list, i, j))) == j
    ensures i > 0 ==> Slots(Chunk(list, i, j)) == j - i + 1
  {
    hide Fields, Joined;
    JoinedReads(list[i..j]);
    FieldsJoined(list[i..j]);
    ContinuationFields(Joined(list[i..j]));
    assert i == 0 ==> Payload(Chunk(list, i, j)) == Joined(list[i..j]);
  }

  lemma {:induction false} CountCuts(list: seq<KvPair>, cuts: seq<nat>, k: nat, t: nat)
    requires AllFit(list) && Splits(list, Pack(list), cuts) && 1 <= t <= k <= |Pack(list)|
    ensures Count(Pack(list)[..k], t) == CutCount(cuts, t)
  {
    hide Chunk, Slots, Payload, Pack;
    var packets := Pack(list)[..k];
    assert SentAt(list, Pack(list), cuts, t - 1) && cuts[t - 1] < cuts[t];
    assert packets[t - 1] == Pack(list)[t - 1];
    SlotsOfChunk(list, cuts[t - 1], cuts[t]);
    CountNext(packets, t - 1);
    if t == 1 {
      assert Count(packets, 0) == 0;
    } else {
      assert cuts[0] < cuts[t - 1];
      CountCuts(list, cuts, k, t - 1);
    }
  }

  /**
   * The first k datagrams of a dump, all or not, and then a time-out: the client prints exactly
   * when its count meets the announced number after one of them, or at the time-out.
   */
  lemma DumpPrintsIff(list: seq<KvPair>, cuts: seq<nat>, k: nat, stacks: nat -> Stack, inMsg: Buffer)
    requires AllFit(list) && HeaderFits(list) && list != []
    requires Splits(list, Pack(list), cuts) && 1 <= k <= |Pack(list)|
    ensures Legal(Pack(list)[..k])
    ensures ReadDump(Pack(list)[..k], stacks, inMsg).Printed? <==> CutReaches(cuts, k, |list| % 0x1_0000_0000)
  {
    hide ReadDump, Pack, Splits, Reaches, CutReaches, Received, Number, PrintsFilled;
    var packets := Pack(list)[..k];
    PackBoundedIff(list);
    CutsLength(list, cuts);
    FirstAnnounces(list, cuts, inMsg);
    PrintsIff(packets, stacks, inMsg);
    ReachesCut(list, cuts, k, |list| % 0x1_0000_0000);
  }

  lemma ReachesCut(list: seq<KvPair>, cuts: seq<nat>, k: nat, size: nat)
    requires AllFit(list) && Splits(list, Pack(list), cuts) && 1 <= k <= |Pack(list)|
    ensures Reaches(Pack(list)[..k], 1, size) <==> CutReaches(cuts, k, size)
  {
    hide Pack, Splits, Slots, Message;
    var packets := Pack(list)[..k];
    CountAtTimeOut(packets);
    CutsLength(list, cuts);
    forall t | 1 <= t <= k ensures Count(packets, t) == CutCount(cuts, t) {
      CountCuts(list, cuts, k, t);
    }
    if t :| 1 <= t <= k + 1 && Count(packets, t) == size {
      assert t <= k ==> CutCount(cuts, t) == size;
    }
    if t :| 1 <= t <= k && CutCount(cuts, t) == size {
      assert Count(packets, t) == size;
    }
  }

  lemma CutsLength(list: seq<KvPair>, cuts: seq<nat>)
    requires AllFit(list) && Splits(list, Pack(list), cuts)
    ensures |cuts| == |Pack(list)| + 1 && forall i, j :: 0 <= i < j < |cuts| ==> cuts[i] < cuts[j] <= |list|
    ensures cuts[|Pack(list)|] == |list|
  {
  }

  lemma CountAtTimeOut(packets: seq<seq<byte>>)
    requires packets != []
    ensures Count(packets, |packets| + 1) == 2 * Count(packets, |packets|) + 1
  {
    hide Slots;
    NoFields();
  }

  lemma FirstAnnounces(list: seq<KvPair>, cuts: seq<nat>, inMsg: Buffer)
    requires AllFit(list) && HeaderFits(list) && list != [] && Splits(list, Pack(list), cuts) && Pack(list) != []
    requires |Pack(list)[0]| <= MAX_MSG_SIZE
    ensures Number(Received(Pack(list)[0], inMsg)) == |list| % 0x1_0000_0000
  {
    hide Pack, Joined, Received, Number, Payload;
    assert SentAt(list, Pack(list), cuts, 0) && cuts[0] < cuts[1];
    FirstDatagram(Pack(list)[0], |list|, Joined(list[0..cuts[1]]), inMsg);
  }

  /** From the second datagram on the count is ahead of the pairs sent. */
  lemma {:induction false} CutCountAhead(list: seq<KvPair>, cuts: seq<nat>, t: nat)
    requires AllFit(list) && Splits(list, Pack(list), cuts) && 1 <= t <= |Pack(list)|
    ensures if t == 1 then CutCount(cuts, t) == cuts[t] else CutCount(cuts, t) > cuts[t]
  {
    hide Splits, Pack;
    CutsLength(list, cuts);
    if t > 1 {
      CutCountAhead(list, cuts, t - 1);
      assert cuts[0] < cuts[t - 1];
    }
  }

  /** A whole dump in several datagrams fails unless the count meets the number of pairs before the last datagram. */
  lemma SeveralPacketsPrintIff(list: seq<KvPair>, cuts: seq<nat>, stacks: nat -> Stack, inMsg: Buffer)
    requires AllFit(list) && HeaderFits(list) && list != [] && |list| < 0x1_0000_0000
    requires Splits(list, Pack(list), cuts) && |Pack(list)| >= 2
    ensures Legal(Pack(list))
    ensures ReadDump(Pack(list), stacks, inMsg).Printed? <==>
            exists t :: 1 < t < |Pack(list)| && CutCount(cuts, t) == |list|
  {
    hide *;
    var k := |Pack(list)|;
    assert Pack(list)[..k] == Pack(list);
    DumpPrintsIff(list, cuts, k, stacks, inMsg);
    CutReachesInside(list, cuts);
    assert |list| % 0x1_0000_0000 == |list|;
  }

  lemma CutReachesInside(list: seq<KvPair>, cuts: seq<nat>)
    requires AllFit(list) && Splits(list, Pack(list), cuts) && |Pack(list)| >= 2
    ensures CutReaches(cuts, |Pack(list)|, |list|) <==> exists t :: 1 < t < |Pack(list)| && CutCount(cuts, t) == |list|
  {
    hide Pack, Splits;
    var k := |Pack(list)|;
    CutsLength(list, cuts);
    CutCountAhead(list, cuts, 1);
    CutCountAhead(list, cuts, k);
    if t :| 1 <= t <= k && CutCount(cuts, t) == |list| {
      assert 1 < t < k;
      assert CutReaches(cuts, k, |list|);
      assert exists u :: 1 < u < |Pack(list)| && CutCount(cuts, u) == |list|;
    }
  }

  /** A dump in several datagrams is never read back: if it is printed, its last entry has not been read. */
  lemma SeveralPacketsLose(list: seq<KvPair>, packets: seq<seq<byte>>, stacks: nat -> Stack, inMsg: Buffer)
    requires AllFit(list) && HeaderFits(list) && list != []
    requires packets == Pack(list) && |packets| >= 2 && Legal(packets)
    ensures !Returns(ReadDump(packets, stacks, inMsg), list)
  {
    hide ReadDump, Pack, Splits, Slots, Received, Number, Payload;
    var cuts := PackSplits(list);
    CutsLength(list, cuts);
    var outcome := ReadDump(packets, stacks, inMsg);
    if Returns(outcome, list) {
      PrintedComplete(packets, stacks, inMsg);
      FirstSlots(list, cuts);
    }
  }

  lemma FirstSlots(list: seq<KvPair>, cuts: seq<nat>)
    requires AllFit(list) && list != [] && Splits(list, Pack(list), cuts) && Pack(list) != []
    ensures Slots(Payload(Pack(list)[0])) == cuts[1]
  {
    hide Pack, Chunk, Slots, Payload;
    assert SentAt(list, Pack(list), cuts, 0) && cuts[0] < cuts[1];
    SlotsOfChunk(list, 0, cuts[1]);
  }

  /**
   * The dump round trip: what the server packs, the client reads back, exactly when the
   * table is not empty and header and pairs fit one message. (The packing loop ends and
   * its datagrams can be sent exactly when AllFit and HeaderFits hold.)
   */
  lemma {:induction false} DumpRoundTrip(list: seq<KvPair>, stacks: nat -> Stack, inMsg: Buffer)
    requires AllFit(list) && HeaderFits(list)
    ensures Legal(Pack(list))
    ensures Returns(ReadDump(Pack(list), stacks, inMsg), list) <==>
            list != [] && 4 + |Joined(list)| <= MAX_MSG_SIZE
  {
    hide ReadDump, Pack, Joined;
    PackBoundedIff(list);
    if list == [] {
      PackConserves(list);
      EmptyDump(stacks, inMsg);
    } else {
      OnePacketIff(list);
      var cuts := PackSplits(list);
      CutsLength(list, cuts);
      if |Pack(list)| == 1 {
        OnePacketReturns(list, Pack(list)[0], stacks, inMsg);
        StoredReturned(list);
      } else {
        SeveralPacketsLose(list, Pack(list), stacks, inMsg);
      }
    }
  }

  /** The dump of an empty table is an empty datagram, out of which the client reads at least one pair. */
  lemma EmptyDump(stacks: nat -> Stack, inMsg: Buffer)
    ensures !Returns(ReadDump([[]], stacks, inMsg), [])
  {
    hide ReadDump, Received, Number;
    var packets: seq<seq<byte>> := [[]];
    PrintsIff(packets, stacks, inMsg);
    forall t: nat | 1 <= t ensures Count(packets, t) > 0 {
      CountNext(packets, t - 1);
    }
  }

  // ---------- a dump that is printed wrong ----------

  /** Four pairs, each longer than half a message, with different keys. */
  function LargePairs(): (list: seq<KvPair>)
    ensures |list| == 4 && forall i :: 0 <= i < 4 ==> PairSize(list[i]) == 40002
    ensures DistinctKeys(list)
  {
    var filler: CStr := seq(20000, _ => 1 as byte);
    var list := seq(4, i requires 0 <= i < 4 => KvPair([i + 1] + filler, filler));
    assert forall i :: 0 <= i < 4 ==> list[i].key[0] == i + 1;
    PairwiseDistinct(list);
    list
  }

  lemma {:induction false} PairwiseDistinct(list: seq<KvPair>)
    requires forall i, j :: 0 <= i < j < |list| ==> list[i].key != list[j].key
    ensures DistinctKeys(list)
  {
    if list != [] {
      PairwiseDistinct(list[1..]);
      if list[0].key in Keys(list[1..]) {
        var j := KeyIndex(list[1..], list[0].key);
      }
    }
  }

  lemma OneEach(list: seq<KvPair>, i: nat)
    requires i < |list| && |list| == 4 && PairSize(list[i]) == 40002
    ensures Roomy(list, i, i + 1)
    ensures |Chunk(list, i, i + 1)| >= 40002
  {
    hide PairSize, PairBytes;
    ChunkSnoc(list, i, i);
    assert |PairBytes(list[i])| == PairSize(list[i]) by { PairLength(list[i]); }
  }

  lemma PairLength(kv: KvPair)
    ensures |PairBytes(kv)| == PairSize(kv)
  {
  }

  /** Each of them takes a datagram of its own. */
  lemma LargePairsSplit(list: seq<KvPair>)
    requires |list| == 4 && forall i :: 0 <= i < 4 ==> PairSize(list[i]) == 40002
    ensures AllFit(list) && HeaderFits(list) && |Pack(list)| == 4 && Splits(list, Pack(list), [0, 1, 2, 3, 4])
  {
    hide Chunk, PairSize, Roomy, Pack;
    assert AllFit(list) && HeaderFits(list);
    var cuts: seq<nat> := [0, 1, 2, 3, 4];
    var sent := seq(4, i requires 0 <= i < 4 => Chunk(list, i, i + 1));
    OneEach(list, 0);
    OneEach(list, 1);
    OneEach(list, 2);
    OneEach(list, 3);
    forall t | 0 <= t < 4 ensures SentAt(list, sent, cuts, t) {
      assert cuts[t] == t && cuts[t + 1] == t + 1;
    }
    forall t | 0 < t < 4 ensures NoRoom(list, sent, cuts, t) {
      assert cuts[t] == t;
    }
    assert Splits(list, sent, cuts);
    PackIsSplit(list, sent);
  }

  /**
   * The dump of four large pairs is printed after two of its four datagrams, as a success: with the
   * first pair, the second key as a value, and nothing in the last entry.
   */
  lemma DumpMayMislead(stacks: nat -> Stack, inMsg: Buffer)
    ensures
      var list := LargePairs();
      && DistinctKeys(list) && AllFit(list) && HeaderFits(list) && |Pack(list)| == 4 && Legal(Pack(list))
      && var outcome := ReadDump(Pack(list), stacks, inMsg);
      && outcome.Printed? && outcome.size == |list|
      && 0 in outcome.entries && outcome.entries[0] == list[0]
      && 1 in outcome.entries && outcome.entries[1] == KvPair([], list[1].key)
      && 2 in outcome.entries && list[1].value <= outcome.entries[2].key && outcome.entries[2].value == []
      && 3 !in outcome.entries
  {
    hide *;
    var list := LargePairs();
    LargePairsSplit(list);
    LargeDumpPrinted(list, stacks, inMsg);
  }

  lemma PrintedAfter(list: seq<KvPair>, cuts: seq<nat>, t: nat, stacks: nat -> Stack, inMsg: Buffer)
    requires AllFit(list) && HeaderFits(list) && list != [] && |list| < 0x1_0000_0000
    requires Splits(list, Pack(list), cuts) && 1 < t < |Pack(list)| && t < |cuts| && CutCount(cuts, t) == |list|
    ensures Legal(Pack(list)) && ReadDump(Pack(list), stacks, inMsg).Printed?
  {
    hide ReadDump, Pack, Splits;
    SeveralPacketsPrintIff(list, cuts, stacks, inMsg);
  }

  lemma LargeDumpPrinted(list: seq<KvPair>, stacks: nat -> Stack, inMsg: Buffer)
    requires |list| == 4 && AllFit(list) && HeaderFits(list)
    requires |Pack(list)| == 4 && Splits(list, Pack(list), [0, 1, 2, 3, 4])
    ensures Legal(Pack(list))
    ensures
      var outcome := ReadDump(Pack(list), stacks, inMsg);
      && outcome.Printed? && outcome.size == |list|
      && 0 in outcome.entries && outcome.entries[0] == list[0]
      && 1 in outcome.entries && outcome.entries[1] == KvPair([], list[1].key)
      && 2 in outcome.entries && list[1].value <= outcome.entries[2].key && outcome.entries[2].value == []
      && 3 !in outcome.entries
  {
    hide ReadDump, Pack, Splits, Filled, Reaches, Received, Number, Slots, Message;
    var cuts: seq<nat>, packets := [0, 1, 2, 3, 4], Pack(list);
    assert CutCount(cuts, 1) == 1 && CutCount(cuts, 2) == 4;
    PrintedAfter(list, cuts, 2, stacks, inMsg);
    FirstAnnounces(list, cuts, inMsg);
    PrintsIff(packets, stacks, inMsg);
    var outcome := ReadDump(packets, stacks, inMsg);
    var t :| 1 <= t <= |packets| + 1 && Count(packets, t) == 4 && Filled(packets, t, outcome.entries);
    assert packets[..4] == packets;
    CountCuts(list, cuts, 4, 1);
    CountCuts(list, cuts, 4, 2);
    CountGrows(packets, if t < 2 then t else 2, if t < 2 then 2 else t);
    TwoRead(list, packets, outcome.entries);
  }

  lemma TwoRead(list: seq<KvPair>, packets: seq<seq<byte>>, entries: map<nat, KvPair>)
    requires |list| == 4 && AllFit(list)
    requires packets == Pack(list) && Splits(list, packets, [0, 1, 2, 3, 4])
    requires Count(packets, 1) == 1 && Count(packets, 2) == 4 && Filled(packets, 2, entries)
    ensures 0 in entries && entries[0] == list[0]
    ensures 1 in entries && entries[1] == KvPair([], list[1].key)
    ensures 2 in entries && list[1].value <= entries[2].key && entries[2].value == []
    ensures 3 !in entries
  {
    hide Pack, Joined, IsRead, Payload, Count;
    var cuts: seq<nat> := [0, 1, 2, 3, 4];
    assert SentAt(list, packets, cuts, 0) && SentAt(list, packets, cuts, 1);
    NothingFilled(packets);
    assert ReadAt(entries, Count(packets, 0), Message(packets, 1));
    assert ReadAt(entries, Count(packets, 1), Message(packets, 2));
    FirstPayload(Header(4), Joined(list[0..1]));
    JoinedReads(list[0..1]);
    var first :| IsRead(first, Message(packets, 1)) && HoldsAt(entries, 0, first);
    var second :| IsRead(second, Message(packets, 2)) && HoldsAt(entries, 1, second);
    assert first == list[0..1];
    ContinuationShifts(list[1..2], second);
  }

  lemma FirstPayload(header: seq<byte>, body: seq<byte>)
    requires |header| == 4
    ensures Payload(header + body) == body
  {
  }

  // ---------- the program ----------

  /** The client's main, with the stack contents of its parser calls and of its message buffer as parameters. */
  method DumpMain(packets: seq<seq<byte>>, stacks: nat -> Stack, inMsg: Buffer) returns (outcome: Outcome)
    requires Legal(packets)
    ensures outcome == ReadDump(packets, stacks, inMsg)
    ensures packets == [] ==> outcome == Failed
    ensures packets != [] ==>
      var size := Number(Received(packets[0], inMsg));
      (outcome.Printed? <==> Reaches(packets, 1, size)) && (outcome.Printed? ==> PrintsFilled(packets, size, outcome))
  {
    hide ParseKvPairs, Number, Received, Reaches, PrintsFilled;
    if packets == [] {
      return Failed;
    }
    PrintsIff(packets, stacks, inMsg);
    var kvList := new KvList(Number(Received(packets[0], inMsg)));
    var first := ParseOnStack(Payload(packets[0]), 0, kvList, stacks(0));
    if first.None? {
      return Failed;
    }
    var parsed: nat, call := first.value, 1;
    while parsed < kvList.size
      invariant 1 <= call <= |packets|
      invariant fresh(kvList)
      invariant ReadDump(packets, stacks, inMsg) ==
        Continue(packets[call..], kvList.size, kvList.list, parsed, stacks, call)
      decreases |packets| - call
    {
      var timedOut := call == |packets|;
      var more := ParseOnStack(if timedOut then [] else packets[call], parsed, kvList, stacks(call));
      if more.None? {
        return Failed;
      }
      parsed := parsed + more.value;
      if timedOut {
        return if parsed != kvList.size then Failed else Printed(kvList.size, kvList.list);
      }
      assert packets[call..][1..] == packets[call + 1..];
      call := call + 1;
    }
    return if parsed != kvList.size then Failed else Printed(kvList.size, kvList.list);
  }

  /** One call of the parser, whose stack buffers hold whatever was on the stack. */
  method ParseOnStack(message: seq<byte>, start: nat, kvList: KvList, stack: Stack) returns (parsed: Option<nat>)
    requires |message| <= MAX_MSG_SIZE
    modifies kvList`list
    ensures (kvList.list, parsed) == ParseKvPairs(kvList.size, old(kvList.list), start, message, stack)
  {
    var key := new byte[MAX_MSG_SIZE](i requires 0 <= i < MAX_MSG_SIZE => stack.key[i]);
    var value := new byte[MAX_MSG_SIZE](i requires 0 <= i < MAX_MSG_SIZE => stack.value[i]);
    assert key[..] == stack.key && value[..] == stack.value;
    parsed := Parse(message, start, kvList, key, value);
  }
}
