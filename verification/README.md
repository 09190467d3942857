# A verified model of the distributed hash table

The program is a replicated key/value store. Servers keep their pairs in a chained hash
table and speak a NUL-separated datagram protocol. Clients place a key on a ring of hashed
virtual nodes, send each request to the first N different servers they meet there, and take
a write as done after W acknowledgements and a read as done after R equal answers.

This project models the store from the bytes of a request up to whole runs of many clients
and servers, and proves what each layer promises to the one above it.

| file | models |
|---|---|
| `Bytes.dfy` | bytes, C strings, `strcmp`, size limits, error codes |
| `HashTable.dfy` | `hashtable.c`: the chains as linked objects, specified by sequences of pairs and refined to a map |
| `NodeList.dfy` | `node.c`, `node_list.c`: virtual nodes, the growing list, the expansion of the server list |
| `Ring.dfy` | `ring.c`: building the ring and finding the replicas of a key |
| `Wire.dfy` | `network-utils.c` and the dispatch of `pps-launch-server.c` on raw bytes |
| `Dump.dfy` | the packing loop of `pps-launch-server.c` |
| `DumpClient.dfy` | `pps-dump-node.c`: the parser with its two stack buffers, and the client loop |
| `Server.dfy` | one turn of the server loop, on the hash table and on maps |
| `Network.dfy` | `network.c`: sending, the vote count of a read, the acknowledgement count of a write |
| `Protocol.dfy` | the step machine of clients, servers and datagrams, and its inductive invariant |
| `Quorum.dfy` | the theorems about whole runs |
| `Limits.dfy`, `Stale.dfy` | runs that show which conditions are needed, and the theorems with exact conditions |

## Main results

* **Read your quorum.** A read that begins after a successful write, and returns a value,
  returns the written one, if no other value for the key is in flight meanwhile. For
  option values that pass the option check, and R up to 127, this holds in every run *exactly* when
  R + W > max(N of the write, N of the read) (`Stale.ReadsLastWriteIff`). Nothing in the
  program enforces that inequality; for every choice that violates it there is a run with a
  stale read.
* **Writes are applied.** A successful write has been applied by at least W different
  replicas, exactly if key and value are not both empty (`Limits.AppliedPutsIff`).
* **No fabrication.** What a read returns was written to its key, exactly if the key is not
  empty (`Limits.GenuineReadsIff`).
* **Vote count.** The one-character counters are exact modulo 256, a read returns the first
  value whose votes reach R, and never returns one for R from 128 to 2^31 - 1. The order of arrival is
  irrelevant exactly when at most one value has R votes (`Network.OrderIndependentIff`).
* **Ring.** A node stands at the digest of its address, port and id in decimal notation. A
  key's replicas are the first nodes on new servers, clockwise from the first digest that is
  not lexicographically below the key's, and that decides the list (`Ring.IsReplicaListIff`);
  requests go to them and to nobody else (`Network.SendToReplicas`). The walk needs at most two
  passes; removing a server removes it from every preference order and changes
  nothing else; all sorting algorithms give all clients the same ring exactly when no two
  different nodes have digests that `strcmp` takes for equal (`Ring.ServerLeaves`,
  `NodeList.OneArrangementIff`).
* **Hash table.** Every sequence of operations answers as a map does, and the listing has
  every binding once.
* **Dump.** The packing loop ends exactly when each pair is shorter than a message; what it
  sends is the count and the pairs, whole, in order, as many in each datagram as have room,
  and there is one way to do that (`Dump.PackIsSplit`). The client reads the dump back exactly
  when the table is not empty and everything fits one datagram (`DumpClient.DumpRoundTrip`).
  For all datagrams it may receive, lost ones included, it is decided when it prints and what
  (`DumpClient.PrintsIff`).

## Where the code does not do what its documentation or evident intent says

* The empty key: its read request is the empty datagram, which a server takes for a ping, so
  the read succeeds with the empty value even if nothing was written.
* The put of an empty value to the empty key is the one-byte dump request. The dump counts
  as an acknowledgement and nothing is stored.
* One put with key and value of maximal length makes every later dump of that server run
  forever (`Dump.DumpMayDiverge`).
* A dump in several datagrams is never read back: continuation datagrams start with a NUL,
  which the parser takes for the end of an empty key, and the parser returns an absolute
  index that the caller adds to its count. Such a dump may even be printed as a success, with
  wrong pairs and before all of it has arrived (`DumpClient.DumpMayMislead`).
* A time-out in the middle of a dump counts as one more pair, so a dump that lost datagrams is
  printed if it is short of the announced number in just the right way
  (`DumpClient.TimeOutPrintsIff`).
* A put copies one byte behind the message into the value and a get reads its key up to the
  next NUL, so both are right exactly when the byte behind the message is NUL.
* `node_cmp_server_addr` never returns a negative number, though `node.h` promises one.

## Hypotheses

* Datagrams may be lost, delayed and reordered, but not duplicated: acknowledgements are
  counted without a look at the sender. Each call has a socket of its own, so replies reach
  only the call they answer.
* In `Protocol.dfy` the byte behind a request in the server's buffer is NUL.
* N is at least 1 and at most the number of different servers. The client clamps N to the
  number of virtual nodes only.
* SHA-1, the parsing of dotted addresses and `qsort` are not the program's own: the first
  two are parameters (`Lib`), the third is some sorted arrangement. A digest is read only
  through `strcmp` and `strcpy`, so a node keeps its C string; it is taken to be terminated.
* `char` is signed and `int` has 32 bits, in two's complement.

## Model

| member | source | states |
|---|---|---|
| Bytes.StrCmpTransitive | node.c:63-66 | the digest order, which is the lexicographic one, is transitive, also for its ties, so sorting by it makes sense |
| Bytes.StrCmpZero | node.c:63-66 | two digests tie exactly when their bytes up to the first zero are equal |
| Bytes.StrCmpLexicographic | node.c:63-66 | the comparison is negative exactly when the first digest is a proper prefix of the second or has the smaller byte where they first differ, and positive the other way round |
| HashTable.HashFunction | hashtable.c:223-240 | the loop with wrapping 64-bit arithmetic computes the hash the table specification uses |
| HashTable.Hash | hashtable.c:223-240 | the result is an index of the table, or SIZE_MAX for a table without buckets |
| HashTable.HashByProducts | hashtable.c:231-237 | the shifted sums multiply by 1025, 9 and 32769 modulo 2^64, with the two exclusive ors in between |
| HashTable.HashInOrder | hashtable.c:228-234 | the hash starts at zero and takes in the bytes of the key from first to last |
| HashTable.Bucket.AddValue | hashtable.c:135-164 | replaces the pair of the key or appends one at the end of the chain, touching only the chain's own cells, and leaves a chain in which only a head may be empty |
| HashTable.Bucket.GetValue | hashtable.c:188-199 | finds the first pair of the chain with the key, or nothing |
| HashTable.Bucket.Size | hashtable.c:261-271 | counts the pairs of the chain |
| HashTable.Bucket.GetContent | hashtable.c:296-307 | writes the chain's pairs to consecutive slots from the given one and changes no other slot |
| HashTable.Htable.constructor | hashtable.c:22-35 | a new table has the given number of empty buckets |
| HashTable.Htable.AddHtableValue | hashtable.c:173-180 | rejects a missing value without a change, otherwise updates the abstract map at the key only and keeps the table's invariant |
| HashTable.Htable.GetHtableValue | hashtable.c:207-215 | answers a missing key with nothing and any other as the abstract map does |
| HashTable.Htable.GetHtableSize | hashtable.c:278-287 | the sum of the bucket sizes is the length of the listing |
| HashTable.Htable.GetHtableContent | hashtable.c:314-336 | the returned list has every binding of the abstract map exactly once; no bucket overwrites another's slots |
| HashTable.ChainPutGet | hashtable.c:135-199 | after adding to a chain, the key has the new value and every other key the old one |
| HashTable.ChainPutPlaces | hashtable.c:135-164 | an old key keeps its place in the chain and every other pair stays; a new one is appended |
| HashTable.TableGetRefines | hashtable.c:207-215 | looking up through hash and chain is looking up in the map the table stands for |
| HashTable.TablePutRefines | hashtable.c:173-180 | adding keeps every key in its bucket and the keys of a bucket different, and changes the map at that key only |
| HashTable.TableRefinesMap | hashtable.c:135-215 | from an empty table, every sequence of adds and gets gives the answers and the final bindings of a map |
| HashTable.ContentListsMap | hashtable.c:261-336 | the concatenation of the chains lists the map's bindings, each once, and its length is the size of the map |
| HashTable.ContentAt | hashtable.c:296-336 | pair i of bucket b stands in the listing behind all pairs of the buckets before it and the i before it in the chain |
| NodeList.IdentityInjective | node.c:17-36 | virtual nodes that differ in address, port or id hash different texts |
| NodeList.IdentityText | node.c:30-36 | the hashed text is the address, the port and the id, in this order, in decimal notation without leading zeros, apart by one space each |
| NodeList.ServerAddrSign | node.c:68-73 | the server comparison has the promised sign exactly when the first server does not come first |
| NodeList.List.constructor | node_list.c:13-24 | a new list is empty with room for 32 nodes |
| NodeList.List.Add | node_list.c:98-128 | appends the node, growing the array by 32 when it is full, and keeps all nodes before it |
| NodeList.List.Contains | node_list.c:136-146 | tells whether some node of the list has the node's address and port |
| NodeList.List.Sort | node_list.c:162-165 | leaves the same nodes, in an order in which no digest is lexicographically below an earlier one |
| NodeList.AddVirtualNodes | node_list.c:68-73 | the descending unsigned loop ends by wrap-around and appends one server's virtual nodes with ids from its count down to 1, each at the digest of its address, port and id in decimal notation |
| NodeList.VirtualNodeIds | node_list.c:68-73 | the ids of a server's virtual nodes are 1 to its count, each once |
| NodeList.GetNodes | node_list.c:30-90 | fails exactly on a zero count or an unusable address, otherwise yields, for every record in file order, a node for each id from its count down to 1 at the digest of address, port and id, and no other node |
| NodeList.ExpandCounts | node_list.c:49-87 | there are as many virtual nodes as the counts add up to, on exactly the listed servers |
| NodeList.OneArrangementIff | node_list.c:162-165 | the sorted ring is independent of the sorting algorithm exactly when different nodes have digests that differ under strcmp |
| Ring.RingInit | ring.c:13-26 | fails exactly for an unusable server list; otherwise the nodes are those of the list, each at the digest of its address, port and id, arranged so that no digest is lexicographically below an earlier one |
| Ring.FirstAtLeast | ring.c:52-60 | all nodes before the found one have digests lexicographically below the key's, and the found one has not |
| Ring.SearchStart | ring.c:49-60 | the loop finds the first node whose digest is not lexicographically below the key's, or the first node of the ring if there is none |
| Ring.VisitNode | ring.c:69-82 | one turn of the walk lists a node exactly if its server is new, and makes progress within two passes |
| Ring.TwoPassesSuffice | ring.c:69-82 | rest of the ring and one whole pass list the same servers as one cycle from the start |
| Ring.CollectServers | ring.c:62-84 | the walk ends and lists the wanted number of servers, or all of them |
| Ring.RingGetNodesForKey | ring.c:34-85 | returns null exactly if no node is wanted; otherwise the first replica is the first node whose digest is not lexicographically below that of the key, or the ring's first node, and the list goes on clockwise with the first node of every further server until there are enough |
| Ring.IsReplicaListIff | ring.c:34-85 | a list is the one the walk finds exactly if its nodes stand in increasing places clockwise from the key's successor, on different servers, no more than wanted, and every place up to its end is on a server already listed |
| Ring.ReplicasExact | ring.c:62-84 | the list has the wanted number of replicas, or all servers if there are fewer, all on different servers of the ring |
| Ring.FirstOccurrences | ring.c:69-75 | a node of the walk is listed exactly when it is its server's first, at the place after the servers met before it |
| Ring.PrefixMonotone | ring.c:34-85 | fewer wanted replicas give a prefix of the list for more |
| Ring.PreferenceWithout | ring.c:49-82 | without one server, every key has the same preference order without that server |
| Ring.MinimalDisruption | ring.c:34-85 | after a server leaves, a key keeps its other replicas, in order and in front, and gets at most one new one; keys without a replica there keep their list |
| Ring.ClientsAgree | ring.c:13-26 | server lists that are permutations of each other give the same ring and the same replicas |
| Ring.ServerLeaves | ring.c:13-85 | minimal disruption between clients with and without the lines of one server in their lists |
| Wire.FormatPutRequest | network-utils.c:41-66 | the loops build key, NUL, value, with sizes given or taken from the C strings |
| Wire.ParsePutRequest | network-utils.c:76-94 | the loops leave the message's C string as key and what follows its NUL, up to one byte past the message, as value |
| Wire.PutParts | network-utils.c:41-94 | parsing an encoded put gives back the key, and the value exactly if the byte behind the message is NUL |
| Wire.DispatchPut | pps-launch-server.c:63-151 | an encoded put is decoded as itself exactly if the byte behind it is NUL and key and value are not both empty; that last put is decoded as a dump |
| Wire.DispatchGet | pps-launch-server.c:63-174 | an encoded get is decoded as itself exactly if the byte behind it is NUL and the key is not empty; the empty get is a ping |
| Wire.DispatchTail | pps-launch-server.c:52-68 | once the byte behind a message is NUL, nothing else behind it matters to the server |
| Wire.DispatchDump | pps-launch-server.c:68-70 | the one-byte NUL message is a dump, and only the put of two empty strings looks like it |
| Dump.TerminatesIffAllFit | pps-launch-server.c:87-133 | the packing loop ends exactly when every pair, with its separator, is shorter than a message |
| Dump.AdmittedPairFits | pps-launch-server.c:89-90 | of the pairs a client may put only the longest possible one does not fit |
| Dump.DumpMayDiverge | pps-launch-server.c:87-133 | one legal put is enough to keep the loop from ending |
| Dump.PackSplits | pps-launch-server.c:87-135 | the datagrams carry consecutive runs of whole pairs; the first starts with the count, the others with a NUL; and a datagram ends only where the next pair would not leave it shorter than a message |
| Dump.PackIsSplit | pps-launch-server.c:87-135 | the sent datagrams are the only ones with whole pairs in order, every pair with room where it is and without room in the datagram before |
| Dump.HeaderBigEndian | pps-launch-server.c:82-84 | the four count bytes have the weights 2^24, 2^16, 2^8 and 1, modulo 2^32 |
| Dump.PackConserves | pps-launch-server.c:74-135 | the datagrams concatenate to the count and all keys and values separated by NULs; an empty table sends one empty datagram |
| Dump.PackBoundedIff | pps-launch-server.c:90-111 | all datagrams fit a message exactly if the first pair leaves room for the count |
| Dump.OnePacketIff | pps-launch-server.c:87-135 | one datagram is sent exactly when count and pairs fit a message |
| Dump.AppendPair | pps-launch-server.c:91-121 | the requests built for a pair append it to the packet, behind the count if it is the first |
| Dump.SendDump | pps-launch-server.c:74-135 | the loop ends when all pairs fit, and sends whole pairs in order, each datagram filled until the next pair has no room; for an empty table it sends one empty datagram |
| DumpClient.HeaderNumber | pps-dump-node.c:24-29 | the client reads the count back modulo 2^32 |
| DumpClient.ParseNext | pps-dump-node.c:178-205 | one turn of the parser's loop on its buffers, indices and mode |
| DumpClient.Parse | pps-dump-node.c:164-210 | the parser fails exactly when it would go on behind the announced number; otherwise it stores the fields between the NULs two by two from the given index, a key left over with an empty value, and returns the absolute index behind the last |
| DumpClient.ParseWhole | pps-dump-node.c:164-210 | pairs joined by NULs are stored in consecutive entries, empty keys and values included, whatever the buffers held |
| DumpClient.ContinuationShifts | pps-dump-node.c:174-210 | a datagram that starts with NUL is read out of step: its first key becomes a value under the empty key, each value the key of the next key, and the last value a key without a value |
| DumpClient.PrintsIff | pps-dump-node.c:82-135 | for all received datagrams: the client prints exactly when after some of them, or at the time-out, its count (doubled and increased by the pairs read, at every datagram) is the announced number, and it prints what was read up to then |
| DumpClient.PrintedComplete | pps-dump-node.c:96-131 | a printed list has all its entries exactly when the first datagram alone has as many as it announces |
| DumpClient.TimeOutPrintsIff | pps-dump-node.c:107-125 | a first datagram with fewer pairs than announced and then a time-out: printed exactly if twice its pairs and one more make the announced number, failed otherwise |
| DumpClient.DumpPrintsIff | pps-dump-node.c:82-135 | when the first k datagrams of a dump arrive, all or not, and nothing else: printed exactly if the count meets the number of pairs modulo 2^32 after one of them or at the time-out |
| DumpClient.SeveralPacketsPrintIff | pps-dump-node.c:107-131 | a whole dump in several datagrams fails, unless the count meets the number of pairs between the second and the last but one |
| DumpClient.DumpMayMislead | pps-dump-node.c:107-135 | a dump of four different large pairs that is printed as a success after two of its four datagrams, with wrong pairs and one missing |
| DumpClient.OnePacketReturns | pps-dump-node.c:82-135 | a dump in one datagram is printed exactly |
| DumpClient.SeveralPacketsLose | pps-dump-node.c:107-128 | a dump in several datagrams is never printed right, whatever its pairs |
| DumpClient.DumpRoundTrip | pps-dump-node.c:82-135 | server packing and client reading are inverse exactly for non-empty tables that fit one datagram |
| DumpClient.DumpMain | pps-dump-node.c:82-141 | the client loop ends for every sequence of received datagrams, prints exactly when the count after some call of the parser is the announced number, and prints the entries read by the calls up to that one, in their places |
| Server.ReplyIsRead | pps-launch-server.c:156-173 | the client reads a stored value back, cut at the message limit, and never takes an empty value for not-found |
| Server.ServerState.StorePut | pps-launch-server.c:138-151 | a put updates the store at the parsed key with the parsed value |
| Server.ServerState.ReadValue | pps-launch-server.c:155-173 | a read answers with the value's C string at the start of a datagram of exactly 32753 bytes, or with one NUL for an unknown key |
| Server.ServerState.DumpTable | pps-launch-server.c:70-136 | a dump leaves the store as it is and sends a packing of all its bindings |
| Server.ServerState.Handle | pps-launch-server.c:47-175 | one turn of the loop: an empty datagram is echoed, one NUL dumps the bindings, a longer message with a NUL stores what follows its first NUL under what precedes it, and any other reads its C string; with the replies of each, on the map the table stands for |
| Network.TallyExact | network.c:44-76 | while a read goes on, the table holds each value's number of votes modulo 256 and no value has enough |
| Network.ThresholdIsQuorum | network.c:68-71 | the votes that end a read are R, for R up to 127; for R from 128 to 2^31 - 1 no number of votes does |
| Network.ThresholdIsFirst | network.c:66-71 | for every R, cast to a 32-bit int, the threshold is the first count whose signed char is not below it, and there is none exactly if no char is |
| Network.ReturnsFirstToReach | network.c:45-78 | a read returns a value exactly when it is the first to reach the threshold |
| Network.OutcomeByVotes | network.c:45-83 | a read that returns no value says not-found exactly if some server said so, otherwise network error |
| Network.OrderIndependentIff | network.c:45-83 | the result is the same for every arrival order exactly when at most one value has enough votes |
| Network.MajorityHasOneWinner | network.c:45-83 | with 2R > N the arrival order does not matter |
| Network.TargetsDistinct | network.c:31-37 | the N requests go to the addresses of the key's N replicas, in order, which are different servers of the ring |
| Network.SendToReplicas | network.c:31-37 | N requests, the i-th to the address of the i-th replica of the key's digest, each with the given bytes |
| Network.CountVote | network.c:54-73 | one vote is added in the local table unless it is the deciding one |
| Network.ReceiveReplies | network.c:44-83 | the receive loop over the local table returns what the vote count says |
| Network.ReceiveAcks | network.c:114-128 | the receive loop succeeds exactly if W datagrams, and at least one, arrive before the time-out |
| Network.NetworkGet | network.c:24-84 | refuses keys that are too long without sending; otherwise sends the key to the address of each of its first N replicas and returns the outcome of the vote count |
| Network.NetworkPut | network.c:94-130 | refuses keys and values that are too long without sending; otherwise sends key, NUL and value to the address of each of the key's first N replicas and succeeds exactly if W datagrams, and at least one, arrive |
| Protocol.OpOfCall | pps-launch-server.c:63-174 | what a server makes of the request of each call, the empty ones included |
| Protocol.TargetsOfReplicas | network.c:31-37 | a session of the step machine sends to the addresses of the key's replica list, in order |
| Protocol.OneReply | pps-launch-server.c:148-172 | every request but a dump is answered by exactly one datagram |
| Protocol.InvNext | network.c:24-130 | every step keeps the invariant: a call and a server exchange one datagram at a time, answers come from different replicas, and the result of a call is the one its receive loop returns for the replies heard |
| Protocol.InvRun | network.c:24-130 | the invariant holds in every state of every run |
| Quorum.StoreChange | pps-launch-server.c:138-151 | a server's store changes only by a put request in flight |
| Quorum.NoFabrication | network.c:45-78 | what a server stores, and what a read of a non-empty key returns, was written to that key |
| Quorum.PutApplied | network.c:114-124 | a successful put, other than of two empty strings, has been applied by W different replicas since it began |
| Quorum.ReadYourQuorum | network.c:24-130 | with meeting quorums a read after a successful write returns the written value |
| Limits.EmptyRequestSucceeds | pps-launch-server.c:63-70 | reading the empty key, and putting two empty strings, succeed although nothing is stored |
| Limits.GenuineReadsIff | network.c:24-84 | reads return only written values exactly for non-empty keys |
| Limits.EmptyPairNeverHeld | pps-launch-server.c:68-70 | no server ever stores the empty value under the empty key |
| Limits.AppliedPutsIff | network.c:94-130 | successful puts have been applied by a write quorum exactly if key and value are not both empty |
| Stale.EmptyKeyReads | network.c:45-78 | a read of the empty key returns only the empty value |
| Stale.StaleRead | network.c:24-130 | whenever the quorums need not meet, some run has a read return the value before the last successful write |
| Stale.ReadsLastWriteIff | network.c:24-130 | reads return the last successful write in all runs exactly when R + W exceeds both replica counts (for the empty key: when the value is empty) |

## Left out

- Server.ServerState.Handle: asks, for a dump request, that all stored pairs fit, because otherwise the loop does not end and there is no state after it; Dump.TerminatesIffAllFit says so, and Protocol.Answers allows any number of datagrams then.
- Network.NetworkGet: asks for 0 < N <= number of servers, because the code indexes N entries of the replica list.
- Network.NetworkPut: asks for 0 < N <= number of servers, for the same reason.
- Ring.RingGetNodesForKey: asks for a ring with a node, because the code reads the first one unconditionally.
- NodeList.List.Sort: models `qsort` by some sorted arrangement computed on values and written back.
- Stale.ReadsLastWriteIff: is about quorums the option check lets through (W <= N for the write, R <= N for the read) and R that a signed char can count to; without that check a read or write that cannot succeed has the property trivially.
- Duplicated datagrams, which would let one server be counted twice.
- Sockets, binding, sender addresses, time-out lengths and failing sends: a receive either delivers a datagram in flight or times out.
- Parsing of `servers.txt` and of command line options: the model starts from records of address, port and count, and from N, R and W.
- SHA-1 and the parsing of dotted addresses, which are parameters.
- Memory: failing allocation, `free`, sharing of a pair between the table and its listing (hashtable.c:304; the model copies), one-byte overruns of heap buffers (parse_put_request, the first pair of a dump, identity strings), and undefined reads behind unterminated digests.
- `delete_Htable_and_content`, `kv_list_free`, `node_end` and other release functions.
- The order of bindings in a dump, which depends on the hash function, is not tied to the abstract map.
- Datagrams of a dump that arrive out of order: `DumpClient.PrintsIff` covers any received sequence, but no corollary counts the pairs of a permuted dump.
- The end of a key that a datagram leaves without a value: the parser does not terminate it, and what then follows it comes from longer keys before it or from the stack; `DumpClient.Parse` says what it starts with, and all of it if the key before it was no shorter.
- `pps-client-cat`, `pps-client-find`, `pps-client-substr`, `pps-list-nodes` and the logging tool: thin mains over reads, writes and pings.
- `network_del` and `del_Htable_key`, which are declared but not defined.
