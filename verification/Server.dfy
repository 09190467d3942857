/**
 * The server (pps-launch-server.c): what one received datagram does to the store and
 * which datagrams it sends back. The relation `Serves` is the server on plain maps; the
 * class is the server on the hash table and raw bytes.
 */
module Server {
  import opened Bytes
  import opened HashTable
  import opened Wire
  import opened Dump

  type Store = map<CStr, CStr>

  /**
   * The answer to a read: one NUL byte for an unknown key, otherwise MAX_MSG_ELEM_SIZE bytes
   * that begin with the value's C string and go on with whatever lies behind it.
   */
  ghost predicate IsGetReply(found: Option<CStr>, reply: seq<byte>) {
    match found
    case None => reply == [0]
    case Some(v) =>
      && |reply| == MAX_MSG_ELEM_SIZE
      && if |v| < MAX_MSG_ELEM_SIZE then v + [0] <= reply else reply <= v
  }

  /** A dump lists the store's bindings, each once, in some order. */
  ghost predicate IsDump(store: Store, replies: seq<seq<byte>>) {
    exists list: seq<KvPair> ::
      DistinctKeys(list) && Bindings(list) == store && AllFit(list) && replies == Pack(list)
  }

  ghost predicate Serves(store: Store, op: Op, store': Store, replies: seq<seq<byte>>) {
    match op
    case Ping => store' == store && replies == [[]]
    case Dump => store' == store && IsDump(store, replies)
    case Put(k, v) => store' == store[k := v] && replies == [[]]
    case Get(k) => store' == store && |replies| == 1 && IsGetReply(Lookup(store, k), replies[0])
  }

  /** What a client reads out of the answer to a read: None is the not-found answer. */
  function ReadReply(reply: seq<byte>): Option<CStr> {
    if reply == [0] then None else Some(CString(reply))
  }

  /** The client reads back the stored value, cut at the message limit; an empty value is not taken for not-found. */
  lemma ReplyIsRead(found: Option<CStr>, reply: seq<byte>)
    requires IsGetReply(found, reply)
    ensures found.None? ==> ReadReply(reply) == None
    ensures found.Some? ==> ReadReply(reply).Some? && ReadReply(reply).value <= found.value
    ensures found.Some? ==> (ReadReply(reply) == found <==> |found.value| <= MAX_MSG_ELEM_SIZE)
  {
    if found.Some? {
      var v := found.value;
      if |v| < MAX_MSG_ELEM_SIZE {
        assert reply[|v|] == (v + [0])[|v|];
        assert v <= v + [0];
        CStringIs(reply, v);
      } else {
        assert NulFree(reply) by {
          assert forall i :: 0 <= i < |reply| ==> reply[i] == v[i];
        }
        CStringIs(reply, reply);
        assert |v| == MAX_MSG_ELEM_SIZE ==> reply == v;
      }
    }
  }

  class ServerState {
    const table: Htable

    ghost predicate Valid()
      reads this, table, table.Repr
    {
      table.Valid() && this !in table.Repr
    }

    ghost function StoreMap(): Store
      requires Valid()
      reads this, table, table.Repr
    {
      TableMap(table.Chains)
    }

    constructor ()
      ensures Valid() && fresh(table) && fresh(table.Repr)
      ensures StoreMap() == map[]
    {
      table := new Htable(HTABLE_SIZE);
      new;
      EmptyTable(HTABLE_SIZE);
    }

    method StorePut(memory: seq<byte>, length: nat)
      requires Valid()
      requires length < |memory| && 0 in memory[..length]
      modifies table.Repr
      ensures Valid() && fresh(table.Repr - old(table.Repr))
      ensures StoreMap() == old(StoreMap())[CString(memory) := PutValue(memory, length)]
    {
      FirstNul(memory, length);
      var sizeValue := length - |CString(memory)|;
      var key := new byte[|CString(memory)| + 1];
      var value := new byte[sizeValue + 1];
      ParsePutRequest(memory, length, key, value);
      var code := table.AddHtableValue(CString(key[..]), Some(CString(value[..])));
    }

    method ReadValue(key: CStr, beyond: seq<byte>) returns (reply: seq<byte>)
      requires Valid()
      requires |beyond| >= MAX_MSG_ELEM_SIZE
      ensures IsGetReply(Lookup(StoreMap(), key), reply)
      ensures key !in StoreMap() ==> reply == [0]
      ensures key in StoreMap() ==>
        && |reply| == MAX_MSG_ELEM_SIZE
        && (StoreMap()[key] + [0] <= reply || reply <= StoreMap()[key])
    {
      var value := table.GetHtableValue(Some(key));
      if value.None? {
        reply := [0];
      } else {
        reply := (value.value + [0] + beyond)[..MAX_MSG_ELEM_SIZE];
      }
    }

    method DumpTable() returns (replies: seq<seq<byte>>)
      requires Valid()
      requires AllFit(Content(table.Chains))
      ensures Valid() && table.Chains == old(table.Chains)
      ensures IsDump(StoreMap(), replies)
    {
      var list := table.GetHtableContent();
      replies := SendDump(list);
    }

    /**
     * One turn of the server loop. `beyond` is the memory behind the stored value, which a
     * read answer copies. A dump is only asked of tables for which the packing loop ends.
     */
    method Handle(memory: seq<byte>, length: nat, beyond: seq<byte>) returns (replies: seq<seq<byte>>)
      requires Valid()
      requires length < |memory|
      requires |beyond| >= MAX_MSG_ELEM_SIZE
      requires Dispatch(memory, length) == Op.Dump ==> AllFit(Content(table.Chains))
      modifies table.Repr
      ensures Valid() && fresh(table.Repr - old(table.Repr))
      ensures Serves(old(StoreMap()), Dispatch(memory, length), StoreMap(), replies)
      ensures length == 0 ==> StoreMap() == old(StoreMap()) && replies == [[]]
      ensures length == 1 && memory[0] == 0 ==> StoreMap() == old(StoreMap()) && IsDump(StoreMap(), replies)
      ensures length > 1 && 0 in memory[..length] ==>
        && replies == [[]]
        && |CString(memory)| < length
        && StoreMap() == old(StoreMap())[CString(memory) := CString(memory[|CString(memory)| + 1..length + 1])]
      ensures length > 0 && 0 !in memory[..length] ==>
        && StoreMap() == old(StoreMap()) && |replies| == 1
        && if CString(memory) !in StoreMap() then replies[0] == [0]
           else
             var value := StoreMap()[CString(memory)];
             |replies[0]| == MAX_MSG_ELEM_SIZE && (value + [0] <= replies[0] || replies[0] <= value)
    {
      if length == 0 {
        replies := [[]];
      } else if 0 in memory[..length] {
        if length == 1 {
          replies := DumpTable();
        } else {
          StorePut(memory, length);
          replies := [[]];
        }
      } else {
        var reply := ReadValue(CString(memory), beyond);
        replies := [reply];
      }
    }
  }
}
