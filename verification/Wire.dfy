/**
 * The wire format of requests (network-utils.c) and the server's dispatch on raw bytes
 * (pps-launch-server.c). A received message is modelled with the memory behind it: the
 * code reads past the message's end, so `memory` is the message followed by that memory
 * and `length` is the length of the message.
 */
module Wire {
  import opened Bytes

  // ---------- put requests ----------

  /** The bytes a pointer and a size stand for; size -1 asks for the C string. */
  function Sized(memory: seq<byte>, size: int): seq<byte>
    requires size == -1 || 0 <= size <= |memory|
  {
    if size == -1 then CString(memory) else memory[..size]
  }

  function FormatPut(key: seq<byte>, value: seq<byte>): seq<byte> {
    key + [0] + value
  }

  method FormatPutRequest(key: seq<byte>, value: seq<byte>, skey: int, svalue: int) returns (result: array<byte>)
    requires skey == -1 || 0 <= skey <= |key|
    requires svalue == -1 || 0 <= svalue <= |value|
    ensures fresh(result)
    ensures result[..] == FormatPut(Sized(key, skey), Sized(value, svalue))
    ensures result[..] ==
      (if skey == -1 then CString(key) else key[..skey]) + [0] +
      (if svalue == -1 then CString(value) else value[..svalue])
  {
    var sizeKey: nat := if skey == -1 then |CString(key)| else skey;
    var sizeValue: nat := if svalue == -1 then |CString(value)| else svalue;
    ghost var target := FormatPut(Sized(key, skey), Sized(value, svalue));
    result := new byte[sizeKey + sizeValue + 1];
    for i := 0 to sizeKey
      invariant forall j :: 0 <= j < i ==> result[j] == target[j]
    {
      result[i] := key[i];
    }
    result[sizeKey] := 0;
    for i := sizeKey + 1 to sizeKey + 1 + sizeValue
      invariant forall j :: 0 <= j < i ==> result[j] == target[j]
    {
      result[i] := value[i - sizeKey - 1];
    }
  }

  /** The value of a put request: what follows the key's NUL, up to one byte past the message. */
  function PutValue(memory: seq<byte>, length: nat): CStr
    requires length < |memory|
  {
    var k := |CString(memory)|;
    if k < length then CString(memory[k + 1..length + 1]) else []
  }

  method ParsePutRequest(memory: seq<byte>, length: nat, key: array<byte>, value: array<byte>)
    requires length < |memory| && 0 in memory[..length]
    requires key != value
    requires key.Length > |CString(memory)|
    requires value.Length > length - |CString(memory)|
    modifies key, value
    ensures CString(key[..]) == CString(memory)
    ensures CString(value[..]) == PutValue(memory, length)
    ensures |CString(memory)| < length && CString(value[..]) == CString(memory[|CString(memory)| + 1..length + 1])
  {
    hide CString;
    var sizeKey := |CString(memory)|;
    FirstNul(memory, length);
    for i := 0 to sizeKey
      invariant key[..i] == memory[..i]
    {
      key[i] := memory[i];
    }
    key[sizeKey] := 0;
    assert key[..sizeKey] == CString(memory);
    CStringIs(key[..], CString(memory));
    var sizeValue := length - sizeKey;
    for i := 0 to sizeValue
      invariant CString(key[..]) == CString(memory)
      invariant value[..i] == memory[sizeKey + 1..sizeKey + 1 + i]
    {
      value[i] := memory[sizeKey + i + 1];
    }
    value[sizeValue] := 0;
    var copied := memory[sizeKey + 1..length + 1];
    assert value[..sizeValue] == copied;
    var v := CString(copied);
    assert v <= value[..];
    assert value[..][|v|] == 0 by {
      if |v| < |copied| {
        assert copied[|v|] == 0;
        assert value[..sizeValue][|v|] == value[|v|];
      }
    }
    CStringIs(value[..], v);
  }

  /** A NUL inside the message ends the C string inside the message. */
  lemma FirstNul(memory: seq<byte>, length: nat)
    requires length <= |memory| && 0 in memory[..length]
    ensures |CString(memory)| < length
  {
    var k := CString(memory);
    var i :| 0 <= i < length && memory[i] == 0;
    assert forall j :: 0 <= j < |k| ==> memory[j] == k[j];
    assert i >= |k|;
  }

  // ---------- dispatch ----------

  datatype Op = Ping | Dump | Put(key: CStr, value: CStr) | Get(key: CStr)

  function Dispatch(memory: seq<byte>, length: nat): Op
    requires length < |memory|
  {
    if length == 0 then Ping
    else if 0 in memory[..length] then
      if length == 1 then Dump else Put(CString(memory), PutValue(memory, length))
    else Get(CString(memory))
  }

  /**
   * A put request is decoded as the put that was encoded exactly when the byte behind the
   * message is NUL and key and value are not both empty; that last request is a dump.
   */
  lemma DispatchPut(key: CStr, value: CStr, tail: seq<byte>)
    requires tail != []
    ensures
      var memory := FormatPut(key, value) + tail;
      var length := |FormatPut(key, value)|;
      && (key == [] && value == [] ==> Dispatch(memory, length) == Dump)
      && (!(key == [] && value == []) ==>
            Dispatch(memory, length) == Put(key, if tail[0] == 0 then value else value + [tail[0]]))
      && (Dispatch(memory, length) == Put(key, value) <==> tail[0] == 0 && !(key == [] && value == []))
  {
    var request := FormatPut(key, value);
    PutParts(key, value, tail, request + tail, |request|);
    assert (request + tail)[..|request|] == request;
    assert request[|key|] == 0;
  }

  lemma Unterminated(s: CStr, b: byte)
    ensures CString(s + [b]) == if b == 0 then s else s + [b]
  {
    CStringIs(s + [b], if b == 0 then s else s + [b]);
  }

  lemma KeyPart(key: CStr, value: CStr, tail: seq<byte>)
    ensures CString(FormatPut(key, value) + tail) == key
  {
    CStringIs(FormatPut(key, value) + tail, key);
  }

  lemma ValueBytes(key: seq<byte>, value: seq<byte>, tail: seq<byte>)
    requires tail != []
    ensures (FormatPut(key, value) + tail)[|key| + 1..|FormatPut(key, value)| + 1] == value + [tail[0]]
  {
    assert (FormatPut(key, value) + tail)[|key| + 1..] == value + tail;
  }

  lemma ValueFrom(memory: seq<byte>, length: nat, value: CStr, b: byte)
    requires |CString(memory)| < length < |memory|
    requires memory[|CString(memory)| + 1..length + 1] == value + [b]
    ensures PutValue(memory, length) == if b == 0 then value else value + [b]
  {
    Unterminated(value, b);
  }

  /** What the parser finds in an encoded put request. */
  lemma PutParts(key: CStr, value: CStr, tail: seq<byte>, memory: seq<byte>, length: nat)
    requires tail != []
    requires memory == FormatPut(key, value) + tail && length == |FormatPut(key, value)|
    ensures CString(memory) == key
    ensures PutValue(memory, length) == if tail[0] == 0 then value else value + [tail[0]]
  {
    assert CString(memory) == key by {
      KeyPart(key, value, tail);
    }
    assert memory[|key| + 1..length + 1] == value + [tail[0]] by {
      ValueBytes(key, value, tail);
    }
    ValueFrom(memory, length, value, tail[0]);
  }

  /**
   * A read request is decoded as the get that was encoded exactly when the byte behind the
   * message is NUL and the key is not empty; the empty read request is a ping.
   */
  lemma DispatchGet(key: CStr, tail: seq<byte>)
    requires tail != []
    ensures key == [] ==> Dispatch(key + tail, |key|) == Ping
    ensures key != [] ==> Dispatch(key + tail, |key|) == Get(key + CString(tail))
    ensures Dispatch(key + tail, |key|) == Get(key) <==> tail[0] == 0 && key != []
  {
    var memory := key + tail;
    assert memory[..|key|] == key;
    var found: CStr := key + CString(tail);
    assert |found| < |memory| ==> memory[|found|] == tail[|CString(tail)|];
    CStringIs(memory, found);
  }

  /** The dump request is the one-byte message NUL, and no put of a non-empty pair is. */
  lemma DispatchDump(tail: seq<byte>)
    requires tail != []
    ensures Dispatch([0] + tail, 1) == Dump
    ensures forall key: CStr, value: CStr :: FormatPut(key, value) == [0] <==> key == [] && value == []
  {
    assert ([0] + tail)[..1] == [0];
    forall key: CStr, value: CStr ensures FormatPut(key, value) == [0] <==> key == [] && value == [] {
      if FormatPut(key, value) == [0] {
        assert |FormatPut(key, value)| == |key| + 1 + |value|;
      }
    }
  }

  /** Behind a NUL behind the message, memory does not matter. */
  lemma DispatchTail(message: seq<byte>, tail: seq<byte>)
    requires tail != [] && tail[0] == 0
    ensures Dispatch(message + tail, |message|) == Dispatch(message + [0], |message|)
  {
    hide CString;
    var short, long := message + [0], message + tail;
    assert short[..|message|] == message == long[..|message|];
    var s := CString(short);
    assert s <= message && long[|s|] == 0 by {
      CStringStops(message);
      assert |s| < |message| ==> short[|s|] == message[|s|];
    }
    CStringIs(long, s);
    assert |s| < |message| ==> short[|s| + 1..|message| + 1] == long[|s| + 1..|message| + 1];
  }

  /** The C string of a message with a NUL behind it lies in the message. */
  lemma CStringStops(message: seq<byte>)
    ensures CString(message + [0]) <= message
  {
    var terminated := message + [0];
    assert terminated[|message|] == 0 && terminated[..|terminated|] == terminated;
    FirstNul(terminated, |terminated|);
    var s := CString(terminated);
    assert s == terminated[..|s|] == message[..|s|];
  }
}
