# NodeX, modelled and verified in Dafny

NodeX is a peer-to-peer messenger: a Kademlia network stores and finds values, messages travel
as encrypted envelopes through mailboxes kept in that network, and each client keeps its own
outbox, replay cache and message store. This project models that core and proves what it
guarantees. Time is always a parameter. Hashes, checksums, ciphers, signatures, JSON and the
text form of socket addresses are abstract functions or values with stated laws.

What is proved, from the network inwards:

- **Routing and lookup** (`NodeIds`, `Sorting`, `RoutingTables`, `ReceiveLoops`, `Lookup`,
  `Networks`, `Upkeep`, `Dht`). The XOR metric and the bucket of an id are characterised bit by bit
  and as numbers. The routing table keeps its invariant over every run, with the exact condition
  under which `replace_oldest` does, and over every interleaving of the receive loop in which no
  sender is pinged for twice at once. The iterative lookup is proved as the source's loop, against
  arbitrary replies: it terminates and returns the nearest candidates it knows. The routing
  condition of a network says that a bucket names a running node whenever one belongs into it, and
  that fewer than K contacts of a table are silent; any set of nodes can meet it, and the receive
  loop and the lookups keep it. Under it the lookup reaches the closest running node through the
  wire codec, although nodes fail and tables change meanwhile, and `put` and `get` agree from any
  two nodes, on plain values and on mailboxes.
- **Delivery** (`MessengerDbs`, `Replay`, `Outbox`, `Messengers`, `Effects`, `Delivery`,
  `Outcomes`). Each component is a class proved against a value-level specification, and `Effects`
  says what each operation does to the messages, case by case. Their combination is a protocol over
  a network that may lose, duplicate and reorder every envelope, with dishonest users who send
  anything under their own identity. Over every run: delivered means stored, no id is announced
  twice, what is held was written by its sender (the exception is below), what was tombstoned stays
  gone, and what was not acknowledged is handed over again after a restart.
- **The wire** (`Codec`, `Chunking`, `Reassembly`, `Rpc`, `Formats`). Encoder and decoder work in
  buffers with a cursor and are proved against a grammar, which `Formats` writes out byte by byte;
  the chunk assembler is proved safe and complete under arbitrary interleaving; together a message
  that is sent is the message that is received.
- **Bounded stores and formats** (`Storages`, `Mailbox`, `Stego`, `Hex`, `StateFile`). Eviction with
  byte accounting and what it cannot reach, the two mailbox merges and their agreement, what a
  deposit reaches, steganography in pixel bits, and the hand-written state file.

Properties that do not hold of the code as it is are stated with the exact condition:

- An id can be stored twice, because nothing is rechecked after the ping. A step breaks the table
  exactly as `ReceiveLoops.NextKeepsTable` says; `RunKeepsTable` and `SecondPingCanDuplicate` show
  that two pings at once for one sender are what it takes
  (`RoutingTables.LateReplacementDuplicates` is the plain instance).
- An envelope can be accepted again: within the window and with room, exactly if some attempt in
  between came at a clock at which it had expired (`Replay.AcceptedAgain`; `ClockSetBack` is an
  instance).
- An envelope of 48 KiB - 1 or 48 KiB bytes empties the mailbox and is reported as accepted
  (`Mailbox.NewestSurvives`, `DepositOutcome`).
- A mailbox is kept as it was put exactly if its items are distinct and within the bounds
  (`Mailbox.MergeKeepsExactly`).
- A plain value of more than 65536 bytes that a node has put into its own store is emptied by the
  first FIND_VALUE for it, exactly then (`Dht.LargeValueEmptied`).
- A message held from an honest sender need not have been sent: a reaction is read as a text
  exactly if its emoji is invalid (`Delivery.ReactionIsText`), which only the receiver checks.
- A record within its TTL can be lost to eviction: exactly if there is no room beside the records
  as recent (`Storages.EvictedExactly`).
- A card too long to be extracted is embedded all the same (`Stego.EmbedThenExtract`).
- An IPv6 address ends the list of contacts read back from the state file
  (`StateFile.SurvivesExactly`).

The readme speaks of message envelopes of version 4, while the desktop code writes version 3
(nodex-messenger/src/crypto.rs, line 17); the model follows the code and does not depend on the
version.

`dafny verify dfyconfig.toml` checks everything.

## Model

| member | source | states |
|---|---|---|
| NodeIds.SharedPrefixBits | core-ffi/src/lib.rs:123-135 | the loop counts exactly the leading bits on which the two ids agree: the first `count` bits are equal and, below 160, the next one differs |
| NodeIds.PrefixIsBitwise | core-ffi/src/lib.rs:123-135 | the count made byte by byte is the bit-by-bit count |
| NodeIds.AgreementUnique | core-ffi/src/lib.rs:123-135 | only one number fits that bit-by-bit description |
| NodeIds.LessIsNumeric | nodex-kademlia/src/node.rs:14-15 | comparing distances as byte arrays is comparing them as 160-bit numbers |
| NodeIds.DistInjective | nodex-kademlia/src/node.rs:40-46 | for a fixed target, different ids lie at different distances |
| NodeIds.DistZero | nodex-kademlia/src/node.rs:40-46 | the distance is zero exactly from an id to itself |
| NodeIds.BucketGeometry | nodex-kademlia/src/node.rs:196-203 | an id shares exactly i prefix bits with the local one if and only if its distance lies in [2^(159-i), 2^(160-i)) |
| NodeIds.SameBucketIsCloser | nodex-kademlia/src/node.rs:196-203 | if one id of a bucket is closer to a target than the local id, so is every id of that bucket |
| RoutingTables.KBucket.Update | nodex-kademlia/src/node.rs:137-150 | a known id moves to the end keeping its address, a new one is appended while there is room, otherwise nothing changes and the oldest contact is reported |
| RoutingTables.KBucket.ForceUpdate | nodex-kademlia/src/node.rs:152-163 | the same, but a known id takes the new address |
| RoutingTables.KBucket.Remove | nodex-kademlia/src/node.rs:165-171 | the first contact with the id is taken out and returned |
| RoutingTables.KBucket.ReplaceOldest | nodex-kademlia/src/node.rs:173-178 | the oldest contact leaves and the new one is appended, unchecked |
| RoutingTables.RoutingTable.constructor | nodex-kademlia/src/node.rs:188-194 | 160 empty buckets, which satisfy the table invariant |
| RoutingTables.RoutingTable.Update | nodex-kademlia/src/node.rs:205-214 | local id, port 0, unspecified and multicast addresses are ignored; otherwise only the bucket of the id changes, as `KBucket.Update` says |
| RoutingTables.RoutingTable.ForceUpdate | nodex-kademlia/src/node.rs:216-225 | likewise for `force_update` |
| RoutingTables.RoutingTable.Remove | nodex-kademlia/src/node.rs:227-230 | only the bucket of the id changes |
| RoutingTables.RoutingTable.ReplaceOldest | nodex-kademlia/src/node.rs:232-235 | only the bucket of the id changes |
| RoutingTables.RoutingTable.FindClosest | nodex-kademlia/src/node.rs:237-246 | the result is the list of at most `count` contacts, strictly increasing in distance, such that whatever is left out is farther than whatever is listed |
| RoutingTables.ApplyKeepsTable | nodex-kademlia/src/node.rs:205-235 | every operation keeps the table invariant (at most 20 contacts a bucket, each in its own bucket, ids distinct and not local); `replace_oldest` keeps it if and only if the new id is neither local nor among the contacts that stay |
| RoutingTables.RunKeepsTable | nodex-kademlia/src/node.rs:137-235 | the invariant holds after every run of operations in which each `replace_oldest` meets that condition |
| RoutingTables.LateReplacementDuplicates | nodex-kademlia/src/rpc.rs:591-609 | whenever a sender finds its bucket full twice before the first ping has failed, the two replacements leave an id stored twice |
| ReceiveLoops.NextKeepsTable | nodex-kademlia/src/rpc.rs:591-609 | a step of the receive loop breaks the table invariant if and only if it is a failed ping whose sender is already among the contacts that stay |
| ReceiveLoops.RunKeepsTable | nodex-kademlia/src/rpc.rs:591-609 | over every interleaving of datagrams, pings, replacements and lookups in which no ping is started for a sender already waited for, the table keeps its invariant |
| ReceiveLoops.SecondPingCanDuplicate | nodex-kademlia/src/rpc.rs:591-609 | and that condition cannot be weakened: from every such state, one second ping for a waiting sender has a continuation that stores an id twice |
| ReceiveLoops.LoopExactly | nodex-kademlia/src/rpc.rs:591-609 | a datagram enters its sender; whoever finds 20 others in its bucket, and a task free, waits; it takes the place of the oldest if the ping fails and not if it is answered |
| RoutingTables.RunOfUpdatesKeepsAddress | nodex-kademlia/src/node.rs:137-150 | over any run of `update`s a known id keeps the address it was first stored with |
| RoutingTables.UpdateExactly | nodex-kademlia/src/node.rs:137-150 | `update`: a known id goes behind the others, which keep their order, with its old address and the new time; a new one is appended below 20; otherwise nothing changes and the head is named |
| RoutingTables.ForceUpdateExactly | nodex-kademlia/src/node.rs:152-163 | `force_update`: the same, but a known id takes the new address |
| RoutingTables.RemoveExactly | nodex-kademlia/src/node.rs:165-171 | `remove`: the contact with the id leaves and is returned, the others stay in order |
| RoutingTables.ReplaceOldestExactly | nodex-kademlia/src/node.rs:173-178 | `replace_oldest`: the head leaves and the new contact comes last |
| RoutingTables.RunKeepsSeniority | nodex-kademlia/src/node.rs:137-171 | over every run of updates and removals a bucket is ordered by when its contacts were last heard of, so the one named to be pinged is the one not heard of for longest |
| RoutingTables.BucketIndexExactly | nodex-kademlia/src/node.rs:196-203 | an id belongs into the bucket of the number of leading bits it shares with the local one, at most 159 |
| RoutingTables.IgnoredExactly | nodex-kademlia/src/node.rs:205-214 | ignored are exactly the local id, port 0, 0.0.0.0 and ::, 224.0.0.0 to 239.255.255.255, and ff00::/8 |
| RoutingTables.ClosestIsNearest | nodex-kademlia/src/node.rs:237-246 | `find_closest` returns the `count` nearest contacts, strictly increasing in distance: whatever is left out is farther than whatever is listed |
| RoutingTables.NearestUnique | nodex-kademlia/src/node.rs:237-246 | no other list has that property |
| Sorting.SortedUnique | nodex-kademlia/src/lookup.rs:63-66 | with distinct keys no sorting algorithm could return another list than the modelled one |
| Lookup.SelectBatch | nodex-kademlia/src/lookup.rs:69-80 | the first ALPHA unqueried candidates, in order, are put in flight and nobody else changes |
| Lookup.SelectedMeaning | nodex-kademlia/src/lookup.rs:69-85 | the batch is exactly the candidates put in flight, nobody unqueried precedes a member, and it is empty only if nobody is unqueried |
| Lookup.JoinBatch | nodex-kademlia/src/lookup.rs:112-143 | in whatever order the calls end, each candidate asked becomes Queried, Failed or (after a panic) stays InFlight, and the new contacts are exactly those named in the replies and kept; a value ends a value lookup at once |
| Lookup.Absorb | nodex-kademlia/src/lookup.rs:145-159 | new contacts enter the routing table by `update`, in order, and the shortlist once per id; the table invariant is kept |
| Lookup.RoundKeepsInvariant | nodex-kademlia/src/lookup.rs:68-172 | against arbitrary replies a round keeps the shortlist sorted, free of duplicates and of the local id, every state justified by a reply, and every contact named by an answered candidate on the list |
| Lookup.RoundDone | nodex-kademlia/src/lookup.rs:68-172 | each round strictly shrinks the finite set of ids never queried, so the lookup terminates |
| Lookup.QueryRound | nodex-kademlia/src/lookup.rs:68-172 | one pass through the loop body, with the facts of the two lemmas above; the routing table changes exactly by `update` with the contacts learned, all of them kept contacts that some reply named |
| Lookup.LookupNodes | nodex-kademlia/src/lookup.rs:39-190 | terminates against every network; at exit nobody is left to ask or the stop condition holds, and the result is the first 20 non-failed candidates; the routing table changes exactly by `update` with the contacts learned: each of those was named in a reply, every candidate the lookup did not start from is among them, and none has this node's id or address |
| Lookup.LookupValue | nodex-kademlia/src/lookup.rs:192-346 | terminates likewise; a value returned was in a reply of a contact heard of, and without a value no queried candidate had one; the routing table changes as in a node lookup, by kept contacts that replies named |
| Lookup.TopSettled | nodex-kademlia/src/lookup.rs:164-176 | if no task panics, the first 20 candidates have all been queried or have failed at exit |
| Lookup.AnswerIsNearest | nodex-kademlia/src/lookup.rs:174-182 | the result is strictly increasing in distance, without the local id, and holds the at most 20 nearest of all non-failed candidates known |
| Storages.Storage.Put | nodex-kademlia/src/storage.rs:51-73 | a value over 64 MiB changes nothing; otherwise exactly the key's record is written and the evicted ones are gone, where eviction is oldest-first and takes not one record more than needed; byte counter and both limits stay right |
| Storages.Storage.MakeRoom | nodex-kademlia/src/storage.rs:60-70 | the eviction loop terminates with room for the value; it always finds an oldest record and never saturates the counter |
| Storages.Storage.Remove | nodex-kademlia/src/storage.rs:84-90 | exactly the key is removed and returned, and the byte counter follows |
| Storages.Storage.Clear | nodex-kademlia/src/storage.rs:92-95 | nothing is left and the counter is zero |
| Storages.Storage.CleanupStale | nodex-kademlia/src/storage.rs:97-106 | exactly the expired records go, the result counts them, and the recomputed counter is right |
| Storages.TotalWithout | nodex-kademlia/src/storage.rs:51-106 | taking out one record takes exactly its length off the sum of lengths |
| Storages.StepExactly | nodex-kademlia/src/storage.rs:51-106 | record by record, what a put, a removal, a cleanup and a clearing leave: after a cleanup just the records within their TTL |
| Storages.ReadExactly | nodex-kademlia/src/storage.rs:75-82 | a read returns the value until its TTL has passed, and nothing after that |
| Storages.RecordExactly | nodex-kademlia/src/storage.rs:25-33 | a record is stamped when it is written, keeps its TTL and is due for republishing after an hour |
| Storages.ReadableUntilTtl | nodex-kademlia/src/storage.rs:51-106 | over any run of operations a stored value is readable until its TTL, and not after it, unless it was replaced, removed or evicted |
| Storages.EvictedExactly | nodex-kademlia/src/storage.rs:51-73 | a record is safe from a new value for which there is room beside all records at least as recent; if no other record is of the same instant, it is evicted in every other case |
| Storages.ReadableWhileRoom | nodex-kademlia/src/storage.rs:51-106 | over any run, no eviction reaches a record as long as the records at least as recent and everything put meanwhile stay within 50000 records and 64 MiB: it is readable until its TTL unless removed or replaced |
| Mailbox.MergeStoreValue | nodex-kademlia/src/lib.rs:43-86 | stored value, acceptance and the pruned count for every existing and incoming value |
| Mailbox.BoundedMailboxMerge | deploy/linux/bootstrap-node-lib.rs:43-85 | the same value and acceptance; the pruned count is the whole excess |
| Mailbox.PlainReplaces | nodex-kademlia/src/lib.rs:78-86 | a value that is no JSON array replaces whatever was there, if it has at most 65536 bytes; a larger one is refused and what was there stays |
| Mailbox.MergeExactly | nodex-kademlia/src/lib.rs:43-77 | an array is merged into what was there, extended by what is new and not oversize in order of arrival, without as many of the oldest items as it takes to fit into 50 items and 48 KiB, and not one more; accepted means that none was oversize |
| Mailbox.MergeKeepsAll | nodex-kademlia/src/lib.rs:43-77 | as long as everything fits nothing is lost: the old items, then the new ones |
| Mailbox.BothAgree | deploy/linux/bootstrap-node-lib.rs:43-85 | run on the same input the two implementations store the same value, and the pruned counts differ by exactly the overflow over 50 items |
| Mailbox.LongestBoundedSuffix | nodex-kademlia/src/lib.rs:65-77 | a suffix of the combined list is within 50 items and 48 KiB if and only if it is no longer than what is kept |
| Mailbox.CombineMembers | nodex-kademlia/src/lib.rs:50-64 | the combined list extends the existing one by exactly the incoming items that are not oversize |
| Mailbox.NewestSurvives | nodex-kademlia/src/lib.rs:65-77 | the newest item survives if and only if it prints in at most 48 KiB - 2 bytes; otherwise the mailbox is emptied |
| Mailbox.DepositOutcome | nodex-kademlia/src/lib.rs:43-86 | putting a list whose last item is new stores that item, or empties the mailbox while reporting acceptance (48 KiB - 1 and 48 KiB bytes), or refuses it; accepted means that no item of the list was oversize |
| Mailbox.DepositEnvelope | nodex-messenger/src/messenger.rs:1865-1890 | the payload a sender puts: the mailbox found, its envelope unless already there, cut to the last 30 |
| Mailbox.DepositReaches | nodex-messenger/src/messenger.rs:1865-1890 | a new envelope of at most 48 KiB - 2 bytes is in the mailbox of every node that stores that payload, whatever the node held before and however full the mailbox was |
| Mailbox.DepositExactly | nodex-messenger/src/messenger.rs:1865-1890 | the payload holds the items of the mailbox found, array or single envelope, then the new one unless it is there, but for the oldest beyond 30 |
| Mailbox.MergeKeepsExactly | nodex-kademlia/src/lib.rs:43-86 | a merge into an empty mailbox keeps all items if and only if they are distinct, at most 50 and at most 48 KiB in print |
| Mailbox.MergeIdempotent | nodex-kademlia/src/lib.rs:43-86 | storing the merged value again changes nothing |
| Networks.AnyNodesWellConnected | nodex-kademlia/src/node.rs:196-214 | the routing condition of the network theorems can be met by every finite set of nodes with distinct, routable addresses, any of them running, with at most one contact in a bucket |
| Upkeep.NextKeepsCovers | nodex-kademlia/src/rpc.rs:591-609 | fewer than K nodes being silent, every step of the receive loop keeps the routing condition of its node |
| Upkeep.RunKeepsCovers | nodex-kademlia/src/rpc.rs:591-609 | so the condition looks after itself: it holds after every run of datagrams from running nodes, pings, replacements and contacts learned of nodes of the network in which no sender is pinged for twice at once |
| Upkeep.TaughtFromNetwork | nodex-kademlia/src/lookup.rs:145-159 | what a lookup on the network teaches the table are nodes of the network at their real addresses, as the theorem above asks |
| Upkeep.NodeLookupKeepsCovers | nodex-kademlia/src/lookup.rs:39-190 | a node lookup keeps the routing condition of the searching node |
| Upkeep.ValueLookupKeepsCovers | nodex-kademlia/src/lookup.rs:192-346 | so does a value lookup, whatever is stored where |
| Networks.RunningIsNamed | nodex-kademlia/src/node.rs:237-246 | a list of closest contacts is never exhausted by silent nodes: it names a running one at least as close as any running contact of the table |
| Networks.ContactsOverWire | nodex-kademlia/src/rpc.rs:194-322 | a reply of routable contacts passes encoder and decoder unchanged but for time stamps |
| Networks.ValueOverWire | nodex-kademlia/src/rpc.rs:63-269 | a value arrives unchanged if it has at most 65536 bytes, and is never sent otherwise |
| Networks.NamesACloserNode | nodex-kademlia/src/lib.rs:221-234 | under the routing condition every running node that is not the closest answers FIND_NODE with a list that names a strictly closer running node |
| Networks.LookupReachesClosest | nodex-kademlia/src/lookup.rs:39-190 | convergence, with nodes that do not answer and tables that change from round to round: the closest running node has answered and every candidate before it on the final shortlist has failed |
| Networks.ClosestIsAmong | nodex-kademlia/src/lookup.rs:39-190 | the closest running node is the searching node or the first contact in the result of its lookup |
| Networks.AnswersAreOtherNodes | nodex-kademlia/src/lookup.rs:174-182 | the result names different nodes of the network at their real addresses, never the searcher |
| Networks.NotHeldByClosest | nodex-kademlia/src/lookup.rs:192-346 | a value lookup that finds nothing has asked the closest running node |
| Dht.HandleStore | nodex-kademlia/src/lib.rs:197-220 | a STORE merges with the readable value and, if accepted, writes exactly that record; otherwise nothing changes |
| Dht.HandleFindValue | nodex-kademlia/src/lib.rs:235-278 | FIND_VALUE answers with the readable value, shortened to the mailbox bounds if oversized, and in that case only writes the shortened value back |
| Dht.RepairedExactly | nodex-kademlia/src/lib.rs:235-278 | what is answered: a plain value of at most 65536 bytes as it is and nothing of a larger one, a mailbox within the bounds as it is and of a larger one as many of its newest items as fit into 50 items and 48 KiB |
| Dht.AnsweredExactly | nodex-kademlia/src/lib.rs:235-278 | after answering the node holds what it answered, with a new lease of a day if it had to shorten it, and is unchanged otherwise |
| Dht.LargeValueEmptied | nodex-kademlia/src/lib.rs:235-278 | a plain value a node holds stays readable through FIND_VALUE if and only if it has at most 65536 bytes: a larger one, put by the node itself, is answered and replaced by nothing |
| Networks.RepairedFits | nodex-kademlia/src/lib.rs:235-278 | so whatever is stored, what is answered has at most 65536 bytes and can be sent |
| Dht.MergedSame | nodex-kademlia/src/lib.rs:43-86 | a plain value of at most 65536 bytes is accepted by every node whatever it holds, an array of distinct items within the bounds by every node that holds nothing or the same, and both keep their meaning |
| Dht.RepairedSame | nodex-kademlia/src/lib.rs:235-278 | repairing before answering keeps that meaning too, and what is answered can be sent |
| Dht.Put | nodex-kademlia/src/lib.rs:342-392 | for every value, the store of each holder changes by one accepted merge and no other store changes; the count is the number of holders; after a put of a plain value of at most 65536 bytes every holder, the closest running node among them, has exactly those bytes whatever it held before; the routing condition of the node is kept |
| Dht.Replicate | nodex-kademlia/src/lib.rs:364-389 | every contact of the list is a holder if and only if it is running and accepts the value; the count is that of the holders |
| Dht.Get | nodex-kademlia/src/lib.rs:394-420 | a local value is returned as it is; any other result is what some running node answered and is cached locally, and every node asked has written back what it had to shorten; none means the closest running node has none; the routing condition of the node is kept |
| Dht.PutThenGet | nodex-kademlia/src/lib.rs:342-420 | after a put of a plain value, whatever was held before, or of a mailbox under a key where nothing else can be read, a get from any running node returns something until it expires: a value with the same bytes or items, or what a node that did not store it could already read; where everybody agreed before, always the value put; nodes may stop, start and change their tables, as long as the closest running node stays the closest |
| Codec.EncodeMessage | core-ffi/src/lib.rs:138-251 | writes exactly the wire form, returns its length, and fails exactly if the buffer is too small or a payload is missing |
| Codec.DecodeMessage | core-ffi/src/lib.rs:254-412 | on every input stays within the buffer and returns what the wire grammar says, or fails |
| Codec.MessageRoundTrip | core-ffi/src/lib.rs:138-412 | decoding what was encoded, whatever bytes follow, gives the message back, values and lists cut to their limits |
| Codec.PayloadRoundTrip | core-ffi/src/lib.rs:138-412 | the same for every kind of payload |
| Codec.ListRoundTrip | core-ffi/src/lib.rs:186-205 | a contact list comes back cut to 20 entries |
| Formats.HeaderLayout | core-ffi/src/lib.rs:138-165 | one byte of type, eight of request id, twenty of sender id, then the payload |
| Formats.PayloadLayout | core-ffi/src/lib.rs:165-251 | where each field of each payload stands: values behind four bytes of length, lists behind one byte of count, contacts in 39 bytes |
| Formats.DecodedIsEncoding | core-ffi/src/lib.rs:254-412 | the decoder accepts nothing but encodings: what it reads, encoded again, is what stood in the buffer |
| Rpc.Encode | nodex-kademlia/src/rpc.rs:246-260 | the buffer that is estimated always suffices, and the result is the wire form of the converted message |
| Rpc.Decode | nodex-kademlia/src/rpc.rs:262-269 | parsing, then conversion |
| Rpc.EstimateSuffices | nodex-kademlia/src/rpc.rs:246-260 | no message needs more than the estimate, and none is longer than 65589 bytes |
| Rpc.EncodableExactly | nodex-kademlia/src/rpc.rs:63-152 | a message can be encoded if and only if its value has at most 65536 bytes |
| Rpc.ContactSurvives | nodex-kademlia/src/rpc.rs:282-326 | a contact comes back with a fresh time stamp if and only if it is routable; the receiver refuses all others |
| Rpc.RoutableExactly | nodex-kademlia/src/rpc.rs:300-326 | routable are all addresses but port 0, 0.0.0.0, ::, 255.255.255.255 and the multicast ranges |
| Formats.MessageNumbers | nodex-kademlia/src/rpc.rs:63-152 | the eight kinds of message are numbered 1 to 8, an acknowledgement of success is 0, an IPv4 address is kind 4 in the first four bytes, an IPv6 address kind 6 |
| Rpc.RoundTrip | nodex-kademlia/src/rpc.rs:63-269 | every encodable message of all eight types decodes to itself as received (20 contacts, new time stamps, none beside a value) if and only if its contacts are routable |
| Rpc.SendMessage | nodex-kademlia/src/rpc.rs:386-429 | one datagram, or one per chunk, as `DatagramSizes` says; an error if the message cannot be encoded |
| Rpc.DatagramSizes | nodex-kademlia/src/rpc.rs:386-429 | no datagram has more than 1100 bytes; a message of at most 1100 bytes goes out as itself, a larger one as one datagram of at most 528 bytes for each 500 bytes or part of them, which follow a header of 28 |
| Rpc.HandleDatagram | nodex-kademlia/src/rpc.rs:546-585 | the demultiplexer as a function of the assembler state |
| Rpc.ReceiveExactly | nodex-kademlia/src/rpc.rs:546-585 | "NXCA" marks audio, "NXCK" a chunk for the assembler, whose output is decoded; anything else is decoded as it is; what does not decode is dropped |
| Rpc.DirectIsNoChunk | nodex-kademlia/src/rpc.rs:546-556 | an encoded message is never taken for an audio frame or a chunk |
| Rpc.DirectTransparent | nodex-kademlia/src/rpc.rs:386-585 | a message sent whole is received as that message, whatever is being reassembled |
| Rpc.ChunkedTransparent | nodex-kademlia/src/rpc.rs:386-585 | if fewer than 256 messages, fewer than 16 of them from the sender's address, were begun within the timeout, datagrams of a chunked message arriving in time, in any order, repeated and among any other traffic, make the loop decode exactly that message when the last missing one arrives, and nothing before |
| Chunking.SplitData | nodex-kademlia/src/chunking.rs:34-63 | the loop produces the list of 500-byte slices with index, count and checksum; one empty chunk for no data |
| Chunking.PartsJoin | nodex-kademlia/src/chunking.rs:34-63 | the slices in order are the data |
| Chunking.ChunkRoundTrip | nodex-kademlia/src/chunking.rs:66-109 | parsing the binary form of a chunk gives the chunk back |
| Formats.ChunkLayout | nodex-kademlia/src/chunking.rs:66-109 | "NXCK", sixteen bytes of message id, two of index, two of count, four of checksum, then the bytes |
| Chunking.ChunkAssembler.AddChunk | nodex-kademlia/src/chunking.rs:153-216 | the in-place assembler does what its value-level step says, with all checks and limits |
| Chunking.ChunkAssembler.CleanupExpired | nodex-kademlia/src/chunking.rs:219-222 | exactly the assemblies older than the timeout go |
| Reassembly.RunKeepsBounds | nodex-kademlia/src/chunking.rs:153-216 | at every moment of every run at most 256 assemblies are pending, at most 16 per address, and none of them is complete |
| Reassembly.ExpiresExactly | nodex-kademlia/src/chunking.rs:153-222 | after an arrival at `now` no assembly begun the timeout or longer ago is pending; the younger ones of other keys stay as they are, the own one unless it comes out complete |
| Reassembly.AdmittedExactly | nodex-kademlia/src/chunking.rs:178-196 | the first chunk of a message is kept if and only if fewer than 256 messages, and fewer than 16 from its address, were begun within the timeout |
| Reassembly.StoredExactly | nodex-kademlia/src/chunking.rs:196-216 | a chunk is put under its index if its count is that of the assembly; a chunk with another count changes nothing; nothing is put out before all are there |
| Reassembly.PassingExactly | nodex-kademlia/src/chunking.rs:153-176 | chunks of no sensible geometry or with a wrong checksum are dropped, a message of one chunk comes out at once, and neither touches what is pending |
| Reassembly.BegunByArrivals | nodex-kademlia/src/chunking.rs:153-216 | from the empty table, every pending assembly was begun by an arrival under its key at that time |
| Reassembly.FullMeansAll | nodex-kademlia/src/chunking.rs:203-206 | as many parts as the chunk count means that every index is there |
| Reassembly.NothingMissing | nodex-kademlia/src/chunking.rs:205-209 | so joining the parts never meets a missing one |
| Reassembly.RunSafe | nodex-kademlia/src/chunking.rs:153-216 | in any interleaving of chunks from any senders, what comes out under a key is exactly the message sent under it |
| Reassembly.EmittedWhenComplete | nodex-kademlia/src/chunking.rs:153-216 | and it comes out exactly when its last missing index arrives, not before, if its first chunk is admitted |
| Replay.ReplayProtectionCache.CheckAndInsert | nodex-messenger/src/crypto.rs:163-191 | the in-place check does what its value-level form says |
| Replay.WindowExactly | nodex-messenger/src/crypto.rs:163-191 | a time stamp more than 604800 seconds away from the clock is refused; entries are kept for 604800 seconds after theirs; a hash not kept is accepted while there are fewer than 100000 |
| Replay.AcceptedExactly | nodex-messenger/src/crypto.rs:163-191 | in any run with any clock, an attempt is accepted if and only if its time stamp is within seven days of the clock, there is room, and no earlier accepted attempt with its hash is still held and unexpired |
| Replay.CacheIs | nodex-messenger/src/crypto.rs:163-191 | after any run the cache holds exactly the hashes accepted and not swept since, under their time stamps |
| Replay.AcceptedAgain | nodex-messenger/src/crypto.rs:163-191 | the exact condition for a second acceptance of a pair: within the window, room, and in between some attempt within its own window came at a clock at which the pair had expired |
| Replay.NeverAcceptedTwice | nodex-messenger/src/crypto.rs:163-191 | while the clock does not run backwards no (signature, time stamp) pair is accepted twice, whatever the hash function |
| Replay.ClockSetBack | nodex-messenger/src/crypto.rs:163-191 | an instance of that: the clock runs past the expiry and is set back, and the pair is accepted twice |
| Replay.CacheBounded | nodex-messenger/src/crypto.rs:163-191 | the cache never exceeds 100000 entries |
| Outbox.MessageQueue.PushAfter | nodex-messenger/src/message_queue.rs:34-51 | appended unless its id is queued already or the queue is full |
| Outbox.MessageQueue.PopPending | nodex-messenger/src/message_queue.rs:53-62 | the first due message is taken out with its attempt counted |
| Outbox.MessageQueue.ScheduleRetry | nodex-messenger/src/message_queue.rs:64-80 | back into the queue with its backoff, or as failed after six attempts |
| Outbox.MessageQueue.MarkDelivered | nodex-messenger/src/message_queue.rs:82-88 | the first message with the id leaves the queue |
| Outbox.MessageQueue.Drain | nodex-messenger/src/messenger.rs:237-248 | the worker's inner loop terminates and hands over exactly the messages that were due, in order, each once; the queue then holds the others followed by the rescheduled ones, none of them due |
| Outbox.BackoffValues | nodex-messenger/src/message_queue.rs:69-71 | the delays are 2, 4, 8, 16 and 32 seconds |
| Outbox.PopExactly | nodex-messenger/src/message_queue.rs:53-62 | taken out is the first message being sent whose time has come, with its attempt counted, and the others keep their order |
| Outbox.RescheduledExactly | nodex-messenger/src/message_queue.rs:64-80 | after the n-th attempt in vain it is due again 2, 4, 8, 16 or 32 seconds later, after the sixth never |
| Outbox.StepsAreQueueOperations | nodex-messenger/src/message_queue.rs:34-88 | the run model below changes the queue exactly as these operations do |
| Outbox.RunKeepsOutbox | nodex-messenger/src/message_queue.rs:34-88 | over every run with one worker the bookkeeping invariant holds |
| Outbox.HandoversOfAnyRun | nodex-messenger/src/message_queue.rs:34-88 | each push is handed over at most six times, the n-th retry no sooner than its backoff |
| Outbox.QueueBounded | nodex-messenger/src/message_queue.rs:34-88 | after every run the queue and the message in flight are together at most 101 |
| MessengerDbs.MessengerDb.AddMessage | nodex-messenger/src/db.rs:388-397 | refused if the id was deleted, replaced if present, appended otherwise |
| MessengerDbs.MessengerDb.MarkMessageDelivered | nodex-messenger/src/db.rs:399-403 | only the delivered flag of the first message with the id changes |
| MessengerDbs.MessengerDb.DeleteMessages | nodex-messenger/src/db.rs:549-555 | all ids are remembered as deleted and their messages go |
| MessengerDbs.MessengerDb.DeleteMessagesByAuthor | nodex-messenger/src/db.rs:558-573 | only the author's own messages go; the result lists their ids |
| MessengerDbs.MessengerDb.RegisterPendingTombstones | nodex-messenger/src/db.rs:215-219 | one pending entry per id, scoped to the author |
| MessengerDbs.MessengerDb.ClearMessagesForContact | nodex-messenger/src/db.rs:575-583 | the messages from and to the contact go, except group messages, and their ids are remembered |
| MessengerDbs.MessengerDb.EditMessageByAuthor | nodex-messenger/src/db.rs:457-470 | the first message with the id gets the new text if the author sent it; nothing else changes |
| MessengerDbs.MessengerDb.EditMessage | nodex-messenger/src/db.rs:445-454 | the first message with the id gets the new text, whoever wrote it; the result says whether there is one |
| MessengerDbs.AddKeeps | nodex-messenger/src/db.rs:388-397 | ids stay distinct and disjoint from the deleted ones, and the list grows exactly for a new, undeleted id |
| MessengerDbs.DeleteByAuthorKeeps | nodex-messenger/src/db.rs:558-573 | exactly the author's messages under the ids disappear, and an id becomes deleted only that way |
| MessengerDbs.HandleTombstoneKeeps | nodex-messenger/src/messenger.rs:574-601 | a tombstone removes all and only the author's messages under its ids and blocks those ids |
| MessengerDbs.HandleTextKeeps | nodex-messenger/src/messenger.rs:756-767 | a text is acknowledged unless tombstoned, stored if acknowledged, and new exactly if its id was absent |
| MessengerDbs.PresentAfter | nodex-messenger/src/messenger.rs:574-767 | after any sequence of one author's texts and tombstones, the ids present are exactly those sent and not tombstoned |
| MessengerDbs.OrderIndependent | nodex-messenger/src/messenger.rs:574-767 | so two deliveries of the same texts and tombstones, in any order with any repetitions, leave the same ids |
| MessengerDbs.SameMessages | nodex-messenger/src/messenger.rs:574-767 | and the very same messages if no id was used for two texts |
| MessengerDbs.MessagesWereSent | nodex-messenger/src/messenger.rs:574-767 | each message present from an author was there before or is one of its texts |
| Effects.AddExactly | nodex-messenger/src/db.rs:388-397 | adding leaves exactly the message and those under other ids, or nothing changed if the id was deleted |
| Effects.MarkDeliveredExactly | nodex-messenger/src/db.rs:399-403 | exactly the message with the id is shown delivered, everything else is as it was |
| Effects.EditTextExactly | nodex-messenger/src/db.rs:445-454 | exactly the message with the id has the new text |
| Effects.EditByAuthorExactly | nodex-messenger/src/db.rs:457-470 | exactly the author's message under the id has the new text |
| Effects.DeleteAllExactly | nodex-messenger/src/db.rs:549-555 | exactly the messages under the ids are gone, the others keep their order, and exactly those ids are newly remembered |
| Effects.DeleteByAuthorExactly | nodex-messenger/src/db.rs:558-573 | exactly the author's messages under the ids are gone; remembered and reported are exactly the ids under which it had one |
| Effects.ClearForExactly | nodex-messenger/src/db.rs:575-583 | exactly the messages from and to the contact outside groups are gone, and exactly their ids are newly remembered |
| Messengers.Messenger.FromDb | nodex-messenger/src/messenger.rs:157-170 | at start the outbox holds the recorded outgoing messages not yet delivered |
| Effects.RefillExactly | nodex-messenger/src/messenger.rs:157-170 | the outbox at start is exactly the unacknowledged messages to peers, in order, the first hundred of them, as never tried and due at once |
| Messengers.Messenger.SendMessage | nodex-messenger/src/messenger.rs:1013-1117 | what sending does to store and outbox for a blocked contact, a note to self, and each outcome of the first delivery attempt |
| Effects.SendExactly | nodex-messenger/src/messenger.rs:1013-1117 | nothing changes for a blocked or refused peer; otherwise exactly the message is recorded, delivered if it is a note to oneself; a message to a peer is queued for now, or for eight seconds later if it was accepted, unless queued already or the queue holds 100 |
| Messengers.Messenger.ReceiveEnvelope | nodex-messenger/src/messenger.rs:472-786 | the whole effect of one envelope on messages, outbox and replay cache: recipient, echo, block and replay checks, delivery and read receipts, tombstones, calls, reactions, edits, texts, and whom to acknowledge |
| Effects.RefusedExactly | nodex-messenger/src/messenger.rs:472-528 | an envelope for somebody else, an echo, one from a blocked sender, and a replayed or stale one leave no trace but in the replay cache, and the first and third not even there |
| Effects.ReceiptExactly | nodex-messenger/src/messenger.rs:538-562 | a receipt its sender signed marks the message sent to it, and nothing else, and takes it out of the queue; otherwise it changes nothing |
| Effects.LiveExactly | nodex-messenger/src/messenger.rs:564-676 | read receipts, calls, audio and valid reactions change nothing here and are not acknowledged |
| Effects.TombstoneExactly | nodex-messenger/src/messenger.rs:574-601 | a tombstone signed by its sender for this user deletes exactly that sender's messages under its ids and blocks exactly those ids |
| Effects.EditExactly | nodex-messenger/src/messenger.rs:678-697 | an edit gives exactly its sender's message under the id the new text |
| Effects.TextExactly | nodex-messenger/src/messenger.rs:699-786 | anything else is stored as received, acknowledged to its sender, and announced exactly if its id was new, unless its sender has deleted the id; a text without an id is filed under time stamp and sender |
| Effects.DecimalIsTheNumber | nodex-messenger/src/messenger.rs:699-710 | such a time stamp is written in decimal digits without leading zeros |
| Delivery.SendIsItsSteps | nodex-messenger/src/messenger.rs:1075-1116 | sending to a peer is its protocol steps in the source's order |
| Delivery.NextKeeps | nodex-messenger/src/messenger.rs:157-1486 | every protocol step keeps the network-wide invariant |
| Delivery.DeliveredMeansStored | nodex-messenger/src/messenger.rs:500-530 | delivery soundness: over a network that loses, duplicates and reorders, with dishonest users, a message shown delivered to an honest peer was stored by it under that id from that sender |
| Delivery.DeliveredWasHeld | nodex-messenger/src/messenger.rs:500-767 | in terms of the stores themselves: at some moment of the run the recipient's store held an incoming message with that id from that sender |
| Delivery.AnnouncedOnce | nodex-messenger/src/messenger.rs:756-786 | no id raises MessageReceived twice, although every retry is a new envelope, across deletions and restarts |
| Delivery.HeldMeansSent | nodex-messenger/src/messenger.rs:644-767 | a message held from an honest sender was written by it for this user under that id with that text, as a message or as an edit, unless it is a reaction with an invalid emoji or the holder edited its own copy |
| Delivery.HeldMeansStarted | nodex-messenger/src/messenger.rs:690-767 | in a run without edits and invalid reactions, what is held from an honest sender was sent to this user with that id and text |
| Delivery.ReactionIsText | nodex-messenger/src/messenger.rs:1583-1605 | a reaction that arrives is stored as a text if and only if its emoji is empty or longer than four characters, which the sender never checks |
| Delivery.AckMeansStored | nodex-messenger/src/messenger.rs:756-775 | an acknowledgement goes to the sender of the envelope, and the message it names is stored |
| Outcomes.DeletedStaysDeleted | nodex-messenger/src/messenger.rs:574-601 | from the moment a user takes in an author's tombstone, in whatever reachable state, no later step of any run brings a message of that author under its ids back |
| Outcomes.DeletedForEveryone | nodex-messenger/src/messenger.rs:1398-1486 | deleting for everyone removes exactly the own messages under the ids and sends a tombstone for exactly those that existed |
| Outcomes.SentOnTheWire | nodex-messenger/src/messenger.rs:1075-1116 | a send begins with an envelope to the peer that will be taken for exactly that text |
| Outcomes.DeliverExactly | nodex-messenger/src/messenger.rs:472-786 | a delivery does to the user exactly what the envelope does, and owes exactly the acknowledgement it asks for |
| Outcomes.AcknowledgeExactly | nodex-messenger/src/messenger.rs:1335-1384 | paying it puts a signed receipt for that message on its way, and changes nothing else |
| Outcomes.HandedOverAfterRestart | nodex-messenger/src/messenger.rs:157-248 | nothing unacknowledged is lost by a restart: from every reachable state with at most a hundred unacknowledged messages, the worker hands each of them over again |
| Outcomes.RestartExactly | nodex-messenger/src/messenger.rs:157-170 | a restart keeps the store, the blocks and what was announced, refills the outbox and forgets the replay cache and the acknowledgements owed |
| Outcomes.AtHome | nodex-messenger/src/messenger.rs:1386-1513 | local deletion, clearing a chat, blocking and notes to oneself have exactly their effect in the user's own store and nowhere else |
| Outcomes.EditAtHome | nodex-messenger/src/messenger.rs:1608-1640 | an edit changes exactly the text of the local copy and sends it to the peer |
| Outcomes.LiveOnTheWire | nodex-messenger/src/messenger.rs:1583-1738 | call signals, and reactions with a valid emoji, reach the peer as what they are |
| Delivery.OneExchangeSuffices | nodex-messenger/src/messenger.rs:500-786 | from every reachable state one accepted envelope and one accepted receipt make the sender's copy delivered |
| Stego.WriteBits | nodex-messenger/src/stego.rs:91-111 | the pixel loops write exactly the payload bits into the colour channels, in order, skipping alpha |
| Stego.ReadBytes | nodex-messenger/src/stego.rs:139-158 | the reading loops assemble exactly the hidden bytes, zeros past the end of the image |
| Stego.Embed | nodex-messenger/src/stego.rs:61-111 | fails, changing nothing, exactly if the packet needs more bits than there are colour channels |
| Stego.Extract | nodex-messenger/src/stego.rs:129-229 | magic, length, capacity, checksum and decryption are checked in this order |
| Stego.HiddenIsPayload | nodex-messenger/src/stego.rs:91-201 | what was written is what is read, byte for byte |
| Stego.StampIsGentle | nodex-messenger/src/stego.rs:91-111 | each colour changes by at most one; alpha and every channel past the payload not at all |
| Stego.EmbedThenExtract | nodex-messenger/src/stego.rs:61-229 | a card embedded in an image with room for it comes back if its ciphertext has at most 1000000 bytes; for every length, extraction refuses it if the length as 32 bits is larger than that, and otherwise opens the packet cut at that length |
| Formats.CarrierLayout | nodex-messenger/src/stego.rs:91-111 | bit by bit, the most significant first, in red, green and blue, pixel after pixel, the lowest bit of the channel is the bit of the payload |
| Formats.PacketLayout | nodex-messenger/src/stego.rs:61-75 | "NXSTG1", the length in four bytes, salt, nonce, ciphertext, and the checksum of all that |
| Formats.ExtractExactly | nodex-messenger/src/stego.rs:129-229 | signature, a length of at most 1000000, capacity, checksum and decryption are checked in this order, and what is left is what is returned |
| Hex.FromHex | nodex-kademlia/src/node.rs:52-63 | the parsing loop on any text: an id for forty bytes of digit pairs after trimming, else an error, or the panic of cutting a character in two |
| Hex.HexRoundTrip | nodex-kademlia/src/node.rs:48-63 | reading a printed id gives the id |
| Hex.PrintedForm | nodex-kademlia/src/node.rs:48-63 | of all texts of forty lower-case digits only the printed one reads as the id |
| Formats.PrintedNumber | nodex-kademlia/src/node.rs:48-50 | an id is printed as the number its bytes denote in base 16, two digits a byte |
| Hex.ReadExactly | nodex-kademlia/src/node.rs:52-63 | read as an id, white space around it aside, is exactly a text of forty characters, each two of which are read as a byte |
| Hex.PairMeans | nodex-kademlia/src/node.rs:52-63 | two digits of either case are read as their number; a plus sign may stand for a leading zero |
| Hex.OnlyPairs | nodex-kademlia/src/node.rs:52-63 | nothing else is read |
| Hex.PanicsExactly | nodex-kademlia/src/node.rs:52-63 | the reading panics if and only if a cut through a character is the first thing that stops it |
| Hex.SpaceAround | nodex-kademlia/src/node.rs:52-54 | white space of any script around a text is overlooked |
| StateFile.JsonGetContactsArray | nodex-kademlia/src/state.rs:62-80 | the splitting loop finds the pairs of all blocks, or that there is no array, or that the slice would panic |
| StateFile.LoadState | nodex-kademlia/src/state.rs:10-29 | id and contacts, entries that do not parse skipped; the exact cases in which an id or the contact list is missing, invalid or makes it panic |
| StateFile.LoadPrinted | nodex-kademlia/src/state.rs:10-80 | reading back a printed state gives the id and, in order, the contacts before the first one with an IPv6 address |
| StateFile.SurvivesExactly | nodex-kademlia/src/state.rs:10-80 | a state survives printing and reading if and only if no contact has an IPv6 address |
| StateFile.LoadExactly | nodex-kademlia/src/state.rs:10-29 | how a start on any file ends: without an id, with an invalid one, in a panic, exactly when, or with the id and the contacts that parse |
| StateFile.BadEntrySkipped | nodex-kademlia/src/state.rs:18-27 | an entry whose id or address does not parse is skipped, wherever it stands |
| StateFile.GoodEntryRead | nodex-kademlia/src/state.rs:18-27 | a good entry becomes a contact with the present time, in its place |
| StateFile.FatalExactly | nodex-kademlia/src/state.rs:18-27 | reading the contacts panics if and only if some id is cut through a character |
| StateFile.AfterExactly | nodex-kademlia/src/state.rs:48-60 | the search finds what stands behind the first occurrence |
| StateFile.AfterNowhere | nodex-kademlia/src/state.rs:48-60 | and nothing if there is none |
| StateFile.StringExactly | nodex-kademlia/src/state.rs:48-60 | a value is what stands between the next two quotation marks behind its key |
| StateFile.ArrayMissing | nodex-kademlia/src/state.rs:62-80 | without a bracket of either kind behind the key there is no array |
| StateFile.ArrayFound | nodex-kademlia/src/state.rs:62-80 | the array is what stands between the first brackets of either kind |
| StateFile.ArrayFatal | nodex-kademlia/src/state.rs:62-80 | a closing bracket before the first opening one panics |
| StateFile.EntriesExactly | nodex-kademlia/src/state.rs:62-80 | a block up to its brace yields its id and address if it has both, and nothing otherwise |
| Formats.EntryText | nodex-kademlia/src/state.rs:31-45 | a contact is written as an object of two strings |
| Formats.EmptyStateText | nodex-kademlia/src/state.rs:31-45 | what a node without contacts writes, character by character |

## Left out

- Dht.PutThenGet: a node that is running answers every call, one that is not answers none, and this does not change while one lookup runs. A put of a mailbox over one with other items merges at each node on its own, so nodes need not agree; for mailboxes the theorem is about keys under which nothing of another meaning can be read.
- Upkeep.RunKeepsCovers: nodes that stop can break the routing condition; the theorem is about what the running ones do.
- Dht.Get: which other nodes answered in the same round is a parameter; what they do is modelled.
- Lookup.LookupNodes: the order in which the parallel calls of a round end is arbitrary, but a call has one outcome per round and contact.
- ReceiveLoops.RunKeepsTable: which pings are answered, and when, is arbitrary; `force_update` and `remove`, which the loop never calls, are operations of `RoutingTables`.
- Rpc.HandleDatagram: matching replies with pending requests, retries, rate limits and metrics; the table update for each sender is `ReceiveLoops`.
- Rpc.SendMessage: the datagrams are its result; sockets, pauses between chunks and the rewriting of an unspecified target address are not modelled.
- Rpc.ContactSurvives: the flow and scope fields of IPv6 addresses.
- Chunking.ChunkAssembler.AddChunk: the hexadecimal copy of the payload that a chunk carries besides its raw bytes.
- Codec.DecodeMessage: the output structure is returned instead of overwritten, so what it held before is not visible.
- Mailbox.MergeStoreValue: JSON is a parser, a printer and item sizes with the law that an array prints as its items, commas and brackets.
- Storages.Storage.Put: instants are whole numbers; periodic republishing is left out.
- Outbox.MessageQueue.Drain: the delivery attempt between taking a message and rescheduling it, which does not touch the queue; the gap is a pair of separate steps in the run model and in `Delivery`.
- Messengers.Messenger.ReceiveEnvelope: what read receipts, calls, audio and reactions do beyond the messages, outbox and replay cache; attachments and the contact list.
- Delivery.DeliveredMeansStored: files, voice notes and group messages set the flag without a receipt and, sent by honest users, are no steps of the protocol; neither are edits sent to oneself, call audio (which travels outside envelopes), wiping a messenger's data, and restoring an identity from its phrase.
- Delivery.NextKeeps: message ids are chosen by the sender and not assumed unique; envelopes carry the identity whose key signed them, since decryption checks the signature and the binding of key and id.
- Delivery.OneExchangeSuffices: that the two envelopes do arrive is its assumption; nothing is claimed about how soon.
- MessengerDbs.MessengerDb.AddMessage: of a message only the fields that delivery and deletion depend on; encryption and saving of the file.
- Stego.EmbedThenExtract: PNG encoding.
- StateFile.LoadState: reading and writing the file itself, and IPv6 addresses with a scope.
- Bootstrap, presence and peer discovery, STUN, UPnP, hole punching, relay, onion packets, mesh, interface, command line and mobile clients.
- Envelope encryption, key derivation and mnemonic phrases; the database file format and backups.
