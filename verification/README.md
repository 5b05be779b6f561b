# DVM verification

A Dafny model of the storage, encoding and consensus core of a blockchain node written in Go, and proofs about it.
Objects whose methods update fields are classes, loops are loops with invariants, and the pure parts are functions.
Each imperative method is proved against a specification, about which the lemmas then speak.

- **Trie database** (`TrieNode`, `TrieCache`, `TrieReach`, `TrieFlush`, `TrieCommit`, `TrieRead`, `TrieLinks`,
  `TrieDatabase`): the reference-counted cache of trie nodes in front of the disk. Collection by counts is collection
  by reachability; eviction and commit write children first; no run of operations loses a node that the meta-root
  leads to, no read changes, and what is on disk can be read on to the end. The references that are counted are
  exactly the hashes that reading meets.
- **RLP** (`Rlp`, `RlpEncode`, `RlpEncBuf`, `RlpRead`, `RlpDecode`, `RlpRaw`): the encoder that leaves out list
  headers and splices them in later, its three outputs, the streaming decoder, and the second parser. The decoder
  accepts exactly the encoder's image.
- **State and journal** (`StateStorage`, `StateJournal`, `StateDB`): nested snapshots and reverts restore every
  observable, and an account not touched yet shows what is stored.
- **Tries, proofs, iteration** (`TrieEncoding`, `TrieInsert`, `TrieDelete`, `TrieUnique`, `TrieMissing`, `TrieMap`,
  `TrieHash`, `TrieProof`, `TrieWalk`, `TrieIterator`): partly loaded tries refine maps and fail exactly for want of a
  node, their shape depends on the content alone, proofs are sound and complete, and iteration from any start gives
  exactly the content, in order.
- **Gossip** (`Gossips`, `GossipRuns`, `GossipOnce`, `GossipTwice`, `GossipQueue`, `GossipSteps`, `GossipService`):
  delegates as a state machine. In every run what is executed has a quorum of genuine rumors behind it, any two
  quorums overlap, and a gossip with enough rumors that is in time is queued, once, and executed.
- **Ledger, gas, configuration** (`Ledger`, `StateTransition`, `ChainConfigs`): conservation of tokens and of gas, and
  where a chain must be rewound to when its rules change.
- **Sponge and hash** (`Sponge`, `Keccak`): hashing does not depend on how input and output are cut into pieces, and
  blocks are mixed in bit by bit, so that different ends lead to different states.
- **ABI** (`Abi`, `AbiLayout`, `AbiRead`, `AbiCodec`): arguments with dynamic offsets are read back as they were
  packed, every byte that is packed is accounted for, and for any data it is said exactly what is read from it.

The cache, decoder and hash state are parameterised: hash functions, the permutation, signatures and the virtual
machine are functions or open steps about which only what is named in a `requires` is assumed.

## Findings

Properties that one would expect and that the program does not have, with the exact condition under which it has them.

- **A copied hash state while squeezing** (`dvm/ethereum/crypto/sha3.go:66-75`): the copy finds its place from the
  capacity of a slice that was cut from 168 bytes, so it is behind by 168 minus the rate, or out of bounds.
  `Keccak.State.clone` and `Keccak.State.Sum` say when it panics and where it is otherwise; it is right exactly for a
  rate of 168, and always while absorbing.
- **Balances go through JSON numbers** (`commons/types/account.go:115-117`): above 2^53 they are rounded.
  `Ledger.ConservesExactly`: transfers conserve a 64-bit supply if and only if it is at most 2^53 or at least 2^63 -
  512; `Ledger.LosingRun` gives the transfers that lose tokens in between, and `Ledger.Frozen` says that from 2^63 -
  512 on no transfer ever passes.
- **A delegate may issue two rumors about one transaction** (`dapos/dapos_handshake.go:250-265`): a gossip received
  without the delegate's own rumor can be put back over the one that has it. `GossipTwice.TwoRumors` is a run from the
  start in which this happens; `GossipOnce.KeepingExact` says that a step keeps one rumor each if and only if the
  gossip it puts back has the delegate's own rumor, and `GossipOnce.OneRumorEach` follows the condition over whole
  runs.
- **"All rumors known" looks at the last rumor only** (`dapos/dapos_handshake.go:147-155`):
  `GossipOnce.OnlyLastCounts`.
- **Node sizes are 16 bits wide** (`dvm/ethereum/trie/database.go:294-318`): the accounted size is wrong by multiples
  of 65536 exactly for blobs whose stored size exceeds 65503 (`TrieCache.SizeWraps`, and the drift that
  `TrieDatabase.Database.insert` states). No other operation adds to the drift.
- **Parent counts are 16 bits wide** (`dvm/ethereum/trie/database.go:305-310` and `:427-429`):
  `TrieDatabase.Database.insert` and `TrieDatabase.Database.Reference` keep the state valid if and only if no count
  overflows, inserted children are known, and a registered child is older than its parent or on disk.
- **Dereferencing a counted node that the meta-root does not reference** (`dvm/ethereum/trie/database.go:458-500`)
  takes a count that stands for another node's reference. `TrieReach.CountLost`: exact counts stay exact if and only
  if the meta-root references the root or the count is 0. `TrieReach.NodeLost`: with a count of one the node goes
  while another still refers to it.
- **Packing reduces big integers modulo 2^256** (`dvm/ethereum/abi/numbers.go:42-44`): `AbiCodec.RoundTripExact`:
  unpacking gives the arguments back if and only if every integer fits.
- **A loaded account has nonce 0** (`dvm/ethereum/state/state_object.go:136`): `StateDB.StateObject.constructor`.
- **The mark of address 3 survives a revert**, deliberately (`dvm/ethereum/state/state_object.go:173-187`); every
  observable is restored all the same: `StateDB.StateObject.touch`.

## Model

| member | source | states |
|---|---|---|
| TrieDatabase.Database.Run | dvm/ethereum/trie/database.go:266-740 | after any sequence of permitted operations the database is still valid and everything a chain of references from the meta-root leads to is cached or on disk; if only genuine nodes are inserted, the disk stays readable: what is read from it leads on to what is on it |
| TrieDatabase.Database.permitted | dvm/ethereum/trie/database.go:294-319 | decides exactly whether an operation meets what `insert`, `reference`, `Dereference`, `Cap` and `Commit` need of the state, counter room included |
| TrieDatabase.Database.NothingLost | dvm/ethereum/trie/database.go:505-602 | in a valid state the end of every chain of references from the meta-root is in memory or on disk |
| TrieDatabase.Database.constructor | dvm/ethereum/trie/database.go:266-272 | a new cache holds the meta-root alone and its counts are exact |
| TrieDatabase.Database.InsertBlob | dvm/ethereum/trie/database.go:283-288 | a blob becomes the newest entry with no children, or nothing changes if it is cached |
| TrieDatabase.Database.insert | dvm/ethereum/trie/database.go:294-319 | the node becomes the newest entry, each embedded child is counted once per occurrence, and the state stays valid if and only if every child is cached or on disk and no 16-bit count overflows; `nodesSize` drifts by 65536 exactly for blobs whose stored size exceeds 65503; the cache stays genuine |
| TrieDatabase.Database.CountChildren | dvm/ethereum/trie/database.go:305-310 | each cached child gains one parent per occurrence, modulo 2^16 |
| TrieDatabase.Database.Append | dvm/ethereum/trie/database.go:311-318 | the entry is put behind the newest one, repairing a stale `newest` when the list is empty |
| TrieDatabase.Database.Reference | dvm/ethereum/trie/database.go:408-430 | one more edge and one more parent, once only for a parent other than the meta-root; valid afterwards exactly if the child was on disk or older than the parent and neither counter was full |
| TrieDatabase.Database.Dereference | dvm/ethereum/trie/database.go:433-455 | from exact counts with every entry parented, what is left is exactly what the meta-root still reaches; the flush order and the accounted size follow; a root that is not cached, or that nothing counts, is handled too, and nothing needed is lost in any valid state |
| TrieDatabase.Database.dereference | dvm/ethereum/trie/database.go:458-501 | pays one owed reference: counts go on covering all live and owed references, entries on the path being removed stay out of the flush list, and survivors keep content and children |
| TrieDatabase.Database.Release | dvm/ethereum/trie/database.go:471-486 | lowers a positive count and collects the node at zero; counts cover what is still owed |
| TrieDatabase.Database.Collect | dvm/ethereum/trie/database.go:480-500 | the node leaves flush list, cache and accounted size, and each of its children loses one parent per reference |
| TrieDatabase.Database.Cascade | dvm/ethereum/trie/database.go:493-497 | every listed child is dereferenced once, in order, with shared and repeated children |
| TrieDatabase.Database.Unlink | dvm/ethereum/trie/database.go:482-492 | takes one node out of the doubly linked list at either end or in the middle; only links change |
| TrieDatabase.Database.Childs | dvm/ethereum/trie/database.go:168-177 | the registered children in any order followed by the embedded hashes with their multiplicity |
| TrieReach.CountLost | dvm/ethereum/trie/database.go:458-479 | exact counts survive the first step of `Dereference(root)`, for a cached root, if and only if the meta-root references the root or its count is 0 |
| TrieReach.NodeLost | dvm/ethereum/trie/database.go:476-500 | a root with a count of one that the meta-root does not reference would be deleted although another cached node refers to it |
| TrieReach.CollectedExactly | dvm/ethereum/trie/database.go:748-782 | with exact counts and no parentless entry, the cached nodes are exactly the reachable ones |
| TrieDatabase.Database.Cap | dvm/ethereum/trie/database.go:505-602 | on success the size is within the limit or the list is empty, the dropped nodes are a prefix of the flush order no longer than needed and are all on disk, and no reader sees a difference; a failed write drops nothing; the disk stays readable |
| TrieDatabase.Database.Flush | dvm/ethereum/trie/database.go:541-567 | batches the oldest nodes one by one, children already on disk or in the batch, until the rest is within the limit |
| TrieDatabase.Database.Drop | dvm/ethereum/trie/database.go:570-591 | the first `m` nodes leave the cache, their sizes leave the account, and the list stays linked |
| TrieDatabase.Database.Put | dvm/ethereum/trie/database.go:545-558 | adds a serialised node to the batch and writes the batch out when it is large enough |
| TrieDatabase.Database.Write | dvm/ethereum/trie/database.go:560-566 | a batch is written as a whole or not at all, and what is on disk is closed under children |
| TrieDatabase.Database.Size | dvm/ethereum/trie/database.go:731-740 | the reported size: accounted bytes plus two hashes per listed node |
| TrieDatabase.Database.commit | dvm/ethereum/trie/database.go:675-697 | writes everything reachable from the hash, children first |
| TrieDatabase.Database.CommitAll | dvm/ethereum/trie/database.go:682-686 | commits the listed children in turn |
| TrieDatabase.Database.uncache | dvm/ethereum/trie/database.go:703-727 | removes exactly the cached nodes reachable from the hash, keeping the others and the list order |
| TrieDatabase.Database.UncacheAll | dvm/ethereum/trie/database.go:722-724 | uncaches the listed children in turn |
| TrieDatabase.Database.Commit | dvm/ethereum/trie/database.go:608-672 | all that the hash reaches is on disk, serialised, and gone from the cache; no reader sees a difference; a failed write leaves the cache as it was; a committed node is on disk, and so is whatever reading from disk leads to from there, to the end |
| TrieDatabase.Database.node | dvm/ethereum/trie/database.go:335-350 | reads from the cache, else from disk; in a valid state over a readable disk, whatever it leads on to can be read too |
| TrieRead.BlobReads | dvm/ethereum/trie/database.go:146-164 | parsing what a cached node is written as gives the node the cache would hand out |
| TrieRead.WrittenReads | dvm/ethereum/trie/database.go:335-350 | writing nodes and dropping only written ones changes no read of any hash |
| TrieLinks.Gathered | dvm/ethereum/trie/database.go:179-199 | the gathered hashes stand one for one at the places of the node where following a key ends at a hash: no place is left out, none is counted twice, none begins another |
| TrieLinks.LinksAreEmbedded | dvm/ethereum/trie/database.go:179-199 | a node embeds a hash if and only if some full key, followed through the node as it is read back, ends at that hash |
| TrieLinks.WrittenReadable | dvm/ethereum/trie/database.go:541-566 | writing genuine nodes, each after its children, keeps the disk closed under reading |
| TrieLinks.NoDangling | dvm/ethereum/trie/database.go:335-350 | in a sound cache over a readable disk whatever is read leads on only to what can be read |
| TrieLinks.WayStays | dvm/ethereum/trie/database.go:675-697 | reading on from disk to disk never ends at a missing node |
| TrieCache.HashInjective | dvm/ethereum/trie/database.go:187-196 | different 32-byte hashes are different keys of the cache |
| TrieDatabase.Database.accumulate | dvm/ethereum/trie/database.go:770-782 | adds exactly the cached nodes the hash reaches |
| TrieDatabase.Database.verifyIntegrity | dvm/ethereum/trie/database.go:748-766 | reports whether every cached node is reachable from the meta-root |
| TrieFlush.WithinLimit | dvm/ethereum/trie/database.go:541-602 | stopping as `Cap` stops leaves the reported size within the limit or the list empty |
| TrieCache.SizeWraps | dvm/ethereum/trie/database.go:302-318 | truncation to 16 bits and 16-bit addition differ from integer arithmetic exactly for stored sizes above 65503 |
| RlpEncBuf.EncBuf.encode | dvm/ethereum/rlp/encode.go:181-188 | the buffer gains exactly the string bytes of the value and one header entry per list, at the right offset |
| RlpEncBuf.EncBuf.encodeString | dvm/ethereum/rlp/encode.go:201-209 | a single byte below 128 stands for itself, any other string gets a header |
| RlpEncBuf.EncBuf.encodeStringHeader | dvm/ethereum/rlp/encode.go:190-199 | appends the header of a string of the given size |
| RlpEncBuf.EncBuf.writeUint | dvm/ethereum/rlp/encode.go:390-404 | an unsigned integer is appended as the string of its minimal big-endian bytes |
| RlpEncBuf.EncBuf.list | dvm/ethereum/rlp/encode.go:211-215 | records where a list starts |
| RlpEncBuf.EncBuf.listEnd | dvm/ethereum/rlp/encode.go:217-224 | fixes the size of the list from what was appended since, its own inner headers included |
| RlpEncBuf.EncBuf.encodeList | dvm/ethereum/rlp/encode.go:507-525 | a list is its header entry and its elements |
| RlpEncBuf.EncBuf.toBytes | dvm/ethereum/rlp/encode.go:230-246 | splices the deferred headers in: the result is the recursive encoding |
| RlpEncBuf.EncBuf.toWriter | dvm/ethereum/rlp/encode.go:248-270 | the pieces written one after the other are a prefix of the recursive encoding, and all of it on success |
| RlpEncBuf.EncodeToBytes | dvm/ethereum/rlp/encode.go:97-105 | the bytes are the encoding of Appendix B of the Ethereum Yellow Paper |
| RlpEncBuf.EncodeTo | dvm/ethereum/rlp/encode.go:80-93 | the writer receives the encoding, or a prefix of it if a write fails |
| RlpEncBuf.EncodeToReader | dvm/ethereum/rlp/encode.go:112-119 | the reader has the whole encoding to give, and the size is its length |
| RlpEncBuf.EncReader.next | dvm/ethereum/rlp/encode.go:306-337 | the next piece: string data or a header, in output order |
| RlpEncBuf.EncReader.Read | dvm/ethereum/rlp/encode.go:281-302 | any sequence of reads of any lengths yields the encoding in order and then the end |
| RlpEncBuf.puthead | dvm/ethereum/rlp/encode.go:150-158 | writes tag and size within bounds, as the specification puts them |
| RlpEncBuf.putint | dvm/ethereum/rlp/encode.go:585-640 | writes the minimal big-endian bytes and says how many |
| RlpEncBuf.intsize | dvm/ethereum/rlp/encode.go:643-649 | the number of bytes an integer needs, at least one |
| RlpEncBuf.headsize | dvm/ethereum/rlp/encode.go:141-146 | the length of a header for a size |
| RlpEncode.SpliceIsEncode | dvm/ethereum/rlp/encode.go:230-246 | string data with deferred headers spliced in is the recursive encoding, for every value tree |
| RlpEncode.PutIntIsBE | dvm/ethereum/rlp/encode.go:585-640 | the case split by magnitude produces minimal big-endian bytes |
| Rlp.EncodePrefix | dvm/ethereum/rlp/encode.go:181-188 | no encoding is a proper prefix of another: what follows a value cannot change it |
| Rlp.EncodeAllInjective | dvm/ethereum/rlp/encode.go:507-525 | different lists of values have different encodings |
| RlpDecode.Stream.DecodeBytes | dvm/ethereum/rlp/decode.go:136-146 | accepts exactly the image of the encoder: a result encodes back to the input, and an error means that no value does |
| RlpDecode.Stream.decodeInterface | dvm/ethereum/rlp/decode.go:511-533 | takes one value whose encoding is the bytes consumed, or fails when none starts here |
| RlpDecode.Stream.decodeListSlice | dvm/ethereum/rlp/decode.go:323-336 | takes a list, the values of which encode to its content |
| RlpDecode.Stream.decodeListBody | dvm/ethereum/rlp/decode.go:323-336 | between opening and closing a list all its content is consumed |
| RlpDecode.Stream.decodeSliceElems | dvm/ethereum/rlp/decode.go:338-365 | takes values up to the end of the innermost list |
| RlpDecode.Stream.Kind | dvm/ethereum/rlp/decode.go:869-900 | looks ahead without consuming: the cached header is the header at the position, checked against every enclosing list and the input |
| RlpDecode.Stream.readKind | dvm/ethereum/rlp/decode.go:902-962 | reads a header as the specification has it; sizes that should be short are rejected |
| RlpDecode.Stream.readUint | dvm/ethereum/rlp/decode.go:964-988 | reads a canonical size, or reports leading zeros |
| RlpDecode.Stream.readFull | dvm/ethereum/rlp/decode.go:990-1003 | fills the buffer or reports the end of input |
| RlpDecode.Stream.readByte | dvm/ethereum/rlp/decode.go:1005-1014 | takes one byte |
| RlpDecode.Stream.willRead | dvm/ethereum/rlp/decode.go:1016-1034 | advances every enclosing list and the remaining input, or refuses to pass an end |
| RlpDecode.Stream.List | dvm/ethereum/rlp/decode.go:757-769 | enters a list: its end is pushed |
| RlpDecode.Stream.ListEnd | dvm/ethereum/rlp/decode.go:773-788 | leaves a list only at its end |
| RlpDecode.Stream.Bytes | dvm/ethereum/rlp/decode.go:648-669 | takes a string, a single byte in its shortest form only |
| RlpDecode.Stream.Raw | dvm/ethereum/rlp/decode.go:672-694 | returns exactly the bytes consumed, header included |
| RlpDecode.Stream.uint | dvm/ethereum/rlp/decode.go:703-734 | takes a canonical unsigned integer of a width, or fails when the input has none |
| RlpDecode.Stream.Bool | dvm/ethereum/rlp/decode.go:739-752 | takes zero or one |
| RlpRaw.Split | dvm/ethereum/rlp/raw.go:39-45 | content and rest of the first value; the rest is shorter than the input |
| RlpRaw.SplitSound | dvm/ethereum/rlp/raw.go:39-45 | an accepted split is a canonical frame followed by the rest |
| RlpRaw.SplitComplete | dvm/ethereum/rlp/raw.go:86-125 | a canonical frame is split whatever follows it |
| RlpRaw.SplitRejects | dvm/ethereum/rlp/raw.go:86-125 | a rejected input starts with no canonical frame |
| RlpRaw.readSize | dvm/ethereum/rlp/raw.go:127-156 | a size is accepted exactly in minimal form above 55 |
| RlpRaw.SplitStringOfEncoding | dvm/ethereum/rlp/raw.go:49-58 | splitting an encoded string gives the string and what follows |
| RlpRaw.SplitListOfEncoding | dvm/ethereum/rlp/raw.go:62-71 | splitting an encoded list gives the encoded elements and what follows |
| RlpRaw.CountSound | dvm/ethereum/rlp/raw.go:74-84 | a counted input is a row of as many canonical frames |
| RlpRaw.CountComplete | dvm/ethereum/rlp/raw.go:74-84 | a row of canonical frames is counted |
| RlpRaw.CountOfEncodings | dvm/ethereum/rlp/raw.go:74-84 | concatenated encodings are counted as many as there are |
| RlpRaw.CountValues | dvm/ethereum/rlp/raw.go:74-84 | the loop counts as specified |
| StateDB.StateDB.Attempt | dvm/ethereum/state/statedb.go:611-636 | a snapshot, any operations with snapshots and reverts nested among them, and a revert restore every observable: existence, balance, nonce, code, storage, suicide mark, logs, log count, refund and preimages |
| StateDB.StateDB.RevertToSnapshot | dvm/ethereum/state/statedb.go:621-636 | restores the state recorded at the snapshot, keeps earlier revisions valid and drops later ones; an unknown id changes nothing |
| StateDB.StateDB.Snapshot | dvm/ethereum/state/statedb.go:611-618 | a fresh id for the current state; earlier ids stay valid |
| StateDB.StateDB.revert | dvm/ethereum/state/journal.go:61-74 | undoes entries from the end one by one until the snapshot's length |
| StateDB.StateDB.revertEntry | dvm/ethereum/state/journal.go:137-231 | undoing the last entry gives back the state before it |
| StateDB.StateDB.revertAccount | dvm/ethereum/state/journal.go:154-201 | an account entry puts back the field it recorded |
| StateDB.StateDB.revertCreate | dvm/ethereum/state/journal.go:137-140 | undoing a creation removes the object and its mark |
| StateDB.StateDB.revertReset | dvm/ethereum/state/journal.go:146-148 | undoing a reset puts the replaced object back |
| StateDB.StateDB.revertOther | dvm/ethereum/state/journal.go:207-231 | refund, log and preimage entries are undone; an emptied log list disappears |
| StateDB.StateDB.append | dvm/ethereum/state/journal.go:52-57 | an entry is recorded and its address counted |
| StateDB.StateDB.dirty | dvm/ethereum/state/journal.go:79-81 | one more mark for an address, without an entry |
| StateDB.StateDB.dropEntry | dvm/ethereum/state/journal.go:66-73 | the last entry goes, and its address is counted down and forgotten at zero |
| StateJournal.HistoryBack | dvm/ethereum/state/journal.go:61-74 | undoing the last record of a history leads to the state saved before it |
| StateJournal.AccountBack | dvm/ethereum/state/journal.go:154-201 | undoing what was recorded about an account restores it |
| StateJournal.TrackedNext | dvm/ethereum/state/journal.go:52-57 | the count per address stays the number of entries about it plus marks |
| StateJournal.TrackedBack | dvm/ethereum/state/journal.go:66-73 | and so it does when an entry is dropped |
| StateJournal.Search | dvm/ethereum/state/statedb.go:623-626 | binary search finds the revision of an id if there is one |
| StateJournal.RetainedRevert | dvm/ethereum/state/statedb.go:633-635 | reverting keeps the revisions before the one reverted to |
| StateDB.StateDB.getStateObject | dvm/ethereum/state/statedb.go:434-460 | a live object, or a loaded one that is then live; a deleted one counts as none |
| StateDB.StateDB.createObject | dvm/ethereum/state/statedb.go:486-521 | a new object replaces what was there, and the entry knows what that was |
| StateDB.StateDB.register | dvm/ethereum/state/statedb.go:496-520 | records a creation or a reset, and makes the object live |
| StateDB.StateDB.GetOrNewStateObject | dvm/ethereum/state/statedb.go:474-482 | the object, created if there is none |
| StateDB.StateDB.CreateAccount | dvm/ethereum/state/statedb.go:533-540 | a fresh account that keeps the old balance |
| StateDB.StateDB.AddBalance | dvm/ethereum/state/statedb.go:322-330 | adds to a balance, creating the account; adding zero to an empty account is recorded as a touch |
| StateDB.StateDB.SubBalance | dvm/ethereum/state/statedb.go:333-342 | subtracts from a balance |
| StateDB.StateDB.SetBalance | dvm/ethereum/state/statedb.go:344-351 | sets a balance |
| StateDB.StateDB.SetNonce | dvm/ethereum/state/statedb.go:353-360 | sets a nonce |
| StateDB.StateDB.SetCode | dvm/ethereum/state/statedb.go:362-369 | sets code and its hash |
| StateDB.StateDB.SetState | dvm/ethereum/state/statedb.go:371-378 | sets one storage slot, all others as they were |
| StateDB.StateDB.Suicide | dvm/ethereum/state/statedb.go:385-402 | marks an existing account and clears its balance |
| StateDB.StateDB.AddRefund | dvm/ethereum/state/statedb.go:187-192 | raises the refund, modulo 2^64 |
| StateDB.StateDB.AddLog | dvm/ethereum/state/statedb.go:143-154 | appends a log to the current transaction's |
| StateDB.StateDB.AddPreimage | dvm/ethereum/state/statedb.go:171-180 | records a preimage once |
| StateDB.StateDB.Prepare | dvm/ethereum/state/statedb.go:689-695 | sets the transaction that logs belong to |
| StateDB.StateDB.Exist | dvm/ethereum/state/statedb.go:196-200 | whether there is an account; of an account not loaded yet, whether the trie has it |
| StateDB.StateDB.GetBalance | dvm/ethereum/state/statedb.go:212-222 | the balance, zero without an account; of an account not loaded yet, what the trie has |
| StateDB.StateDB.GetNonce | dvm/ethereum/state/statedb.go:224-233 | the nonce, zero without an account; of an account not loaded yet, zero, whatever the trie has |
| StateDB.StateDB.GetCode | dvm/ethereum/state/statedb.go:235-243 | the code; of an account not loaded yet, what is stored under its code hash, if that is not the hash of nothing |
| StateDB.StateDB.GetCodeHash | dvm/ethereum/state/statedb.go:269-277 | the code hash; of an account not loaded yet, the stored one or the hash of nothing |
| StateDB.StateDB.GetState | dvm/ethereum/state/statedb.go:279-287 | the value of the slot, zero by default; of an account not loaded yet, the value whose trimmed encoding the storage trie of its root has, or zero if it has none; reading changes no observable |
| StateDB.StateDB.HasSuicided | dvm/ethereum/state/statedb.go:307-315 | the mark |
| StateDB.StateObject.constructor | dvm/ethereum/state/state_object.go:128-146 | a loaded object shows the stored account field by field, its nonce zeroed, its slots as the storage trie of its root has them |
| StateDB.StateObject.GetState | dvm/ethereum/state/state_object.go:209-234 | the value of a slot through dirty values, cache and trie; caching changes nothing seen |
| StateDB.StateObject.setState | dvm/ethereum/state/state_object.go:252-258 | one slot changes |
| StateDB.StateObject.updateTrie | dvm/ethereum/state/state_object.go:261-277 | pending values move to the trie, zero as deletion; every slot reads as before and the trie stays canonical; it holds exactly the trimmed encodings of the slots that are not zero |
| StateDB.StateObject.Reopened | dvm/ethereum/state/state_object.go:190-234 | an account opened again over a store that has the trie that was left under its root shows the slots it showed before |
| StateDB.LoadedShows | dvm/ethereum/state/statedb.go:434-460 | what the getters show of a stored account is what the store has, the nonce excepted |
| StateDB.StoredOnce | dvm/ethereum/state/state_object.go:209-277 | a stored value is the encoding of one slot value only |
| StateDB.StateObject.touch | dvm/ethereum/state/state_object.go:173-187 | recorded so that undoing it is harmless; the precompiled address 3 keeps its mark |
| StateDB.StateObject.AddBalance | dvm/ethereum/state/state_object.go:307-322 | zero on an empty account is a touch, anything else a new balance |
| StateDB.StateObject.SubBalance | dvm/ethereum/state/state_object.go:326-334 | zero changes nothing |
| StateDB.StateObject.SetBalance | dvm/ethereum/state/state_object.go:336-347 | the old balance is recorded before the new one is set |
| StateDB.StateObject.SetNonce | dvm/ethereum/state/state_object.go:448-459 | the old nonce is recorded |
| StateDB.StateObject.SetCode | dvm/ethereum/state/state_object.go:419-432 | the old code is recorded |
| StateDB.StateObject.SetState | dvm/ethereum/state/state_object.go:237-250 | the old value of the slot is recorded |
| StateStorage.UnpackPacked | dvm/ethereum/state/state_object.go:209-277 | trimming, encoding, splitting and padding give the value back |
| StateStorage.PadTrim | dvm/ethereum/state/state_object.go:272-275 | left padding undoes trimming of leading zeros |
| StateStorage.PutCanonical | dvm/ethereum/state/state_object.go:261-277 | storing a value keeps the trie canonical: no zero values, no untrimmed ones |
| StateStorage.DeleteCanonical | dvm/ethereum/state/state_object.go:264-270 | deleting keeps it canonical too |
| StateStorage.SameValuesSameTrie | dvm/ethereum/state/state_object.go:261-277 | canonical storage tries with the same values are the same |
| TrieInsert.GetInsert | dvm/ethereum/trie/trie.go:225-292 | after setting a key, that key has the value and every other key what it had, also on partly loaded tries |
| TrieInsert.InsertCanon | dvm/ethereum/trie/trie.go:225-292 | insertion keeps the canonical form |
| TrieInsert.Get | dvm/ethereum/trie/trie.go:147-183 | lookup through short, full and referenced nodes |
| TrieDelete.GetDelete | dvm/ethereum/trie/trie.go:318-425 | after deleting a key it has no value, and every other key what it had |
| TrieDelete.DeleteCanon | dvm/ethereum/trie/trie.go:318-425 | deletion keeps the canonical form: full nodes with one child collapse, short nodes merge |
| TrieDelete.OnlyChild | dvm/ethereum/trie/trie.go:374-386 | finds the only remaining child, or that there are several |
| TrieUnique.Unique | dvm/ethereum/trie/trie.go:225-425 | loaded canonical tries with the same content are equal: the shape depends on the content alone |
| TrieMap.SameMapSameTrie | dvm/ethereum/trie/trie.go:205-313 | and so for the content under byte keys |
| TrieMap.TryGetIs | dvm/ethereum/trie/trie.go:147-183 | lookup that loads nodes returns what plain lookup returns, and the new trie holds the same |
| TrieMap.InsertRoot | dvm/ethereum/trie/trie.go:205-223 | setting a byte key changes that key only |
| TrieMap.DeleteRoot | dvm/ethereum/trie/trie.go:303-313 | deleting a byte key changes that key only |
| TrieMap.Trie.TryGet | dvm/ethereum/trie/trie.go:136-145 | the value, or the node that is missing; the trie's content does not change |
| TrieMap.Trie.TryUpdate | dvm/ethereum/trie/trie.go:205-223 | refines a map update, an empty value being deletion; an error changes nothing; it fails exactly if lookup of the key needs a missing node, or, deleting, if the only sibling of what goes is missing |
| TrieMap.Trie.TryDelete | dvm/ethereum/trie/trie.go:303-313 | refines map removal; an error changes nothing; it fails exactly if lookup needs a missing node or the only sibling of what goes is missing |
| TrieMissing.InsertMissing | dvm/ethereum/trie/trie.go:225-292 | insertion needs a missing node if and only if lookup of the key does, and it is the same node |
| TrieMissing.DeleteMissing | dvm/ethereum/trie/trie.go:318-425 | deletion needs a missing node if and only if lookup does, or where the key ends its node has a single sibling, which is that node |
| TrieEncoding.CompactRoundTrip | dvm/ethereum/trie/encoding.go:37-63 | `compactToHex(hexToCompact(h)) = h` for nibble keys with or without terminator |
| TrieEncoding.CompactInjective | dvm/ethereum/trie/encoding.go:37-52 | different hex keys have different compact forms |
| TrieEncoding.KeyInjective | dvm/ethereum/trie/encoding.go:65-74 | different byte keys have different hex forms |
| TrieEncoding.hexToCompact | dvm/ethereum/trie/encoding.go:37-52 | the in-place nibble packing computes the specified form |
| TrieEncoding.keybytesToHex | dvm/ethereum/trie/encoding.go:65-74 | two nibbles a byte and the terminator |
| TrieEncoding.hexToKeybytes | dvm/ethereum/trie/encoding.go:78-88 | inverts it, and has no result for an odd number of nibbles |
| TrieEncoding.decodeNibbles | dvm/ethereum/trie/encoding.go:90-94 | packs nibble pairs into the given stretch of a buffer |
| TrieEncoding.prefixLen | dvm/ethereum/trie/encoding.go:97-108 | the length of the longest common prefix |
| TrieHash.DecodeBack | dvm/ethereum/trie/node.go:129-215 | for every well-formed collapsed node, `decodeNode(rlp(n))` is the expanded node, whatever follows |
| TrieHash.DecodeShortBack | dvm/ethereum/trie/node.go:149-169 | the same for short nodes |
| TrieHash.DecodeFullBack | dvm/ethereum/trie/node.go:171-188 | the same for full nodes |
| TrieHash.RefBack | dvm/ethereum/trie/node.go:192-215 | a child slot is read back: nothing, a hash, or an embedded node of at most 32 bytes |
| TrieHash.NodeRejects | dvm/ethereum/trie/node.go:129-147 | what is no list of 2 or 17 elements is no node |
| TrieHash.RefRejects | dvm/ethereum/trie/node.go:192-215 | embedded nodes of more than 32 bytes, and strings that are neither empty nor 32 bytes long, are rejected |
| TrieProof.ProofSound | dvm/ethereum/trie/proof.go:105-129 | on any content-addressed proof a verdict other than failure is the truth about the trie of the root hash |
| TrieProof.ProofComplete | dvm/ethereum/trie/proof.go:37-129 | the proof built for a key is accepted, with the value or with proof of absence |
| TrieProof.VerifyProof | dvm/ethereum/trie/proof.go:105-129 | the loop computes the verdict |
| TrieProof.Prove | dvm/ethereum/trie/proof.go:37-89 | puts exactly the encodings of the nodes on the key's path that are stored under hashes, from a level on |
| TrieProof.CollectPath | dvm/ethereum/trie/proof.go:39-63 | collects the nodes on the key's path |
| TrieProof.PutNodes | dvm/ethereum/trie/proof.go:66-87 | skips the given number of elements and stores the others under their hashes |
| TrieProof.WalkFold | dvm/ethereum/trie/proof.go:131-153 | walking a node as read from a proof follows the trie: down to the next hash, a value, or nothing |
| TrieProof.RootIsHashed | dvm/ethereum/trie/hasher.go:176-196 | the root is hashed even if it is small |
| TrieIterator.IterationIsContent | dvm/ethereum/trie/iterator.go:44-57 | from any start the entries are, strictly increasing by hex path, each held key with its value whose path is at least the start path, up to the first missing node if there is one |
| TrieIterator.NewIterator | dvm/ethereum/trie/iterator.go:38-57 | a new iterator is left with just those entries; with nothing missing there is no error |
| TrieIterator.Iterator.Next | dvm/ethereum/trie/iterator.go:45-57 | yields the first entry left and leaves the others; at the end says so, with an error exactly if a node is missing |
| TrieIterator.nodeIterator.constructor | dvm/ethereum/trie/iterator.go:133-140 | starts before the first node whose path is not less than the key |
| TrieIterator.nodeIterator.Next | dvm/ethereum/trie/iterator.go:219-236 | goes to the next node in path order, skipping what is below the current path if asked; a missing node is reported again and again |
| TrieIterator.nodeIterator.seek | dvm/ethereum/trie/iterator.go:238-254 | skips exactly the nodes whose path is less than the key |
| TrieIterator.nodeIterator.peek | dvm/ethereum/trie/iterator.go:257-291 | the next node, loaded, with nothing of what is ahead changed |
| TrieIterator.nodeIterator.nextChild | dvm/ethereum/trie/iterator.go:305-341 | the first child after the index that is not empty |
| TrieIterator.nodeIterator.push | dvm/ethereum/trie/iterator.go:343-349 | goes to the peeked node: it is no longer ahead, what is below it is |
| TrieIterator.nodeIterator.pop | dvm/ethereum/trie/iterator.go:351-355 | leaves the current node, and path and stack agree |
| TrieIterator.nodeIterator.resolve | dvm/ethereum/trie/iterator.go:293-303 | loads a referenced node or reports it missing |
| TrieIterator.nodeIterator.LeafKey | dvm/ethereum/trie/iterator.go:160-167 | the byte key of the current value |
| TrieIterator.nodeIterator.LeafBlob | dvm/ethereum/trie/iterator.go:169-176 | the current value |
| TrieWalk.WalkOrdered | dvm/ethereum/trie/iterator.go:257-341 | a pre-order walk goes by strictly increasing paths |
| TrieWalk.WalkHas | dvm/ethereum/trie/iterator.go:257-341 | the walk meets a value at a path if and only if lookup finds that value for the key |
| TrieWalk.WalkProper | dvm/ethereum/trie/iterator.go:156-158 | a path ends in the terminator exactly at values |
| TrieWalk.Loadable | dvm/ethereum/trie/trie.go:441-449 | a trie without circles of references can be loaded as far as the database goes |
| Keccak.State.Write | dvm/ethereum/crypto/sha3.go:125-157 | absorbing does not depend on chunking: after `m` has been absorbed and `p` is written, `m + p` has been |
| Keccak.State.buffer | dvm/ethereum/crypto/sha3.go:143-154 | the slow path absorbs what it took |
| Keccak.State.absorbSome | dvm/ethereum/crypto/sha3.go:135-155 | either path absorbs what it took |
| Keccak.State.Read | dvm/ethereum/crypto/sha3.go:160-181 | after a message has been absorbed the bytes are the sponge's; reading goes on from the place reached |
| Keccak.State.squeezeSome | dvm/ethereum/crypto/sha3.go:170-178 | gives out what is buffered and permutes when dry |
| Keccak.State.Sum | dvm/ethereum/crypto/sha3.go:185-192 | appends the hash of what has been absorbed and leaves the running state as it is; while squeezing it panics exactly when the rate and the place add up to less than 168, and else hashes from an earlier place unless the rate is 168 |
| Keccak.State.clone | dvm/ethereum/crypto/sha3.go:66-75 | a copy while absorbing; while squeezing its place is behind by 168 minus the rate, or it panics |
| Keccak.State.permute | dvm/ethereum/crypto/sha3.go:79-94 | mixes in and permutes, or permutes and copies out; no other block of the rate leads to the same state |
| Keccak.State.pad | dvm/ethereum/crypto/sha3.go:98-115 | the block is padded as section 5.1 of FIPS 202 has it, with the suffix byte |
| Keccak.State.padAndPermute | dvm/ethereum/crypto/sha3.go:98-121 | output starts at the padded and permuted state |
| Keccak.State.Reset | dvm/ethereum/crypto/sha3.go:57-64 | nothing has been absorbed |
| Keccak.State.NewKeccak256 | dvm/ethereum/crypto/crypto.go:31 | rate 136, 32 bytes of output, suffix 1 |
| Sponge.AbsorbTwice | dvm/ethereum/crypto/sha3.go:125-157 | absorbing in two steps is absorbing at once |
| Sponge.OutputTwice | dvm/ethereum/crypto/sha3.go:160-181 | squeezing in two steps is squeezing at once |
| Sponge.OutputIsSqueeze | dvm/ethereum/crypto/sha3.go:160-181 | buffered output is the output of section 4 of FIPS 202 |
| Sponge.Xor | dvm/ethereum/crypto/xor_unaligned.go:13-46 | a bit of the result is set exactly if the two bits differ |
| Sponge.XorIn | dvm/ethereum/crypto/xor_unaligned.go:13-46 | each byte of the block is mixed into the byte at its place, and no other byte changes |
| Sponge.MixedDiffer | dvm/ethereum/crypto/sha3.go:79-94 | different blocks mixed into one state give different states |
| Sponge.PadIs | dvm/ethereum/crypto/sha3.go:98-115 | the padded block byte by byte |
| Sponge.PadInjective | dvm/ethereum/crypto/sha3.go:98-115 | different ends of messages have different padded blocks |
| Sponge.EndsDiffer | dvm/ethereum/crypto/sha3.go:98-157 | messages that differ after a common row of full blocks end with the permutation of different states |
| AbiCodec.RoundTripExact | dvm/ethereum/abi/argument.go:201-280 | unpacking what was packed gives the arguments back if and only if every integer fits in 256 bits |
| Abi.PackRoundTrip | dvm/ethereum/abi/argument.go:201-280 | for arguments that fit: every dynamic offset leads to its own tail, and all is read back |
| Abi.WordRoundTrip | dvm/ethereum/abi/unpack.go:39-117 | every elementary value takes one word and is read back from it, negative integers in two's complement |
| Abi.TailRoundTrip | dvm/ethereum/abi/unpack.go:224-253 | what stands behind an offset and a length is read back |
| Abi.HeadRoundTrip | dvm/ethereum/abi/unpack.go:176-221 | what stands in place is read back |
| Abi.ElementsRoundTrip | dvm/ethereum/abi/unpack.go:131-172 | elements are read back one word each |
| Abi.HeadsSize | dvm/ethereum/abi/argument.go:242-251 | heads take the space that the input offset says |
| AbiCodec.Pack | dvm/ethereum/abi/argument.go:234-280 | nothing if the count or a type does not match; else every argument stands in whole words where it should: in place, or where its offset leads, tails in order without gaps, lengths exact, filled up with the least number of zeros, numbers modulo 2^256 |
| AbiCodec.packType | dvm/ethereum/abi/type.go:175-200 | nothing if the type does not match; else the value alone: elements one word each, a slice after its length, strings and bytes after their length and filled up to whole words with zeros |
| AbiCodec.UnpackValues | dvm/ethereum/abi/argument.go:201-225 | each argument at its head, arrays taking as many head words as elements; nothing if one cannot be read; exactly the values that stand in the data, for any data |
| AbiCodec.toGoType | dvm/ethereum/abi/unpack.go:176-221 | reads one argument; no input leads out of bounds; it reads exactly what stands there, and nothing otherwise |
| AbiLayout.PackedIsLaidOut | dvm/ethereum/abi/pack.go:27-61 | the layout of a packed list, byte by byte |
| AbiLayout.PackedData | dvm/ethereum/abi/pack.go:29-32 | a string is its length, its bytes, and the zeros up to the next multiple of 32 |
| AbiRead.WordExact | dvm/ethereum/abi/unpack.go:39-117 | for any word: integers are read modulo the size of their type, booleans only from zero and one, functions only with zeros behind |
| AbiRead.UnpackExact | dvm/ethereum/abi/unpack.go:176-253 | for any data: an argument is read if and only if it is there within bounds, and then as it is there |
| AbiRead.UnpackAllExact | dvm/ethereum/abi/argument.go:201-225 | for any data: a list is read if and only if every argument is |
| AbiCodec.forEachUnpack | dvm/ethereum/abi/unpack.go:131-172 | reads the words one after the other, or nothing if there are too few |
| AbiCodec.readBoolWord | dvm/ethereum/abi/unpack.go:76-90 | only the words zero and one are booleans |
| AbiCodec.SameWord | dvm/ethereum/abi/numbers.go:42-44 | packing reduces modulo 2^256, changing a number exactly if it does not fit |
| Abi.lengthPrefixPointsTo | dvm/ethereum/abi/unpack.go:224-253 | what it points to lies within the output |
| GossipRuns.RunInv | dapos/dapos_handshake.go:136-278 | in every run each gossip under way, cached, in a channel or queued has at most one rumor per delegate, about its transaction, each issued by that delegate |
| GossipRuns.ChosenQuorum | dapos/dapos_handshake.go:210-241 | what is queued for execution or executed has distinct rumors of at least two thirds of the delegates behind it |
| GossipRuns.QuorumsOverlap | dapos/dapos_handshake.go:210-241 | any two such quorums share at least a third of the delegates, each of which issued both rumors |
| GossipRuns.DoWorkSound | dapos/dapos_handshake.go:338-366 | a queued gossip has a first rumor to look at, so taking it never panics |
| GossipRuns.DistinctBackers | commons/types/gossip.go:114-121 | rumors are of distinct delegates if and only if there are as many delegates as rumors |
| GossipOnce.OneRumorEach | dapos/dapos_handshake.go:136-179 | if what is put back into the cache always has the own rumor, no delegate issues two rumors about a transaction |
| GossipOnce.KeepingExact | dapos/dapos_handshake.go:250-265 | a step keeps this if and only if the gossip it puts back has the delegate's own rumor |
| GossipTwice.TwoRumors | dapos/dapos_handshake.go:136-265 | a run of three delegates from the start in which one issues two different rumors about one transaction |
| GossipTwice.SecondComes | dapos/dapos_handshake.go:160-175 | a delegate whose cached gossip lacks its rumor issues a second one at the next gossip without it |
| GossipOnce.MergeIsUnion | dapos/dapos_handshake.go:146-155 | merging gives the delegates of both gossips, the other's as far as they verify, ours first |
| GossipOnce.OnlyLastCounts | dapos/dapos_handshake.go:147-155 | among distinct rumors the last alone decides whether a gossip is passed on |
| GossipQueue.RunQueues | dapos/dapos_handshake.go:210-241 | in every run the record of queued transactions is right, and none is queued twice |
| GossipQueue.ReadyIsQueued | dapos/dapos_handshake.go:200-241 | in every run a gossip in time with the rumors of two thirds of the delegates is queued once the worker takes it |
| GossipQueue.QueuedIsExecuted | dapos/dapos_handshake.go:338-366 | in every run what is taken from the queue is executed exactly if its receipt is known, it is in time, and it has not been executed before |
| GossipQueue.WorkSendsOn | dapos/dapos_handshake.go:245-275 | a gossip with too few rumors goes to the chosen delegate, back to the channel if that fails, or to the cache if there is no one; a late one is dropped |
| GossipSteps.StartExact | dapos/dapos_handshake.go:40-113 | each refusal exactly when its check is the first to fail, with nothing changed; else the gossip with the own rumor is cached, waits for the worker, and goes to exactly the others not sent to |
| GossipSteps.ReceiveExact | dapos/dapos_handshake.go:136-179 | what becomes of cache, heap and channel when a gossip arrives, and when a rumor is issued |
| GossipSteps.ReceiveSends | dapos/dapos_handshake.go:87-113 | the merged gossip goes to exactly the other delegates that have not been sent it |
| GossipService.DAPoSService.startGossiping | dapos/dapos_handshake.go:40-85 | checks in order, then caches, sends to every other delegate, and queues for the worker |
| GossipService.DAPoSService.cacheOnFirstReceive | dapos/dapos_handshake.go:87-113 | caches gossip, receipt and transaction and sends to each delegate not sent to before |
| GossipService.DAPoSService.synchronizeGossip | dapos/dapos_handshake.go:136-179 | merges into the cached gossip and issues the own rumor at first |
| GossipService.DAPoSService.GossipGrpc | dapos/dapos_transport_grpc.go:146-166 | it is the received gossip, not the merged one, that goes to the worker |
| GossipService.DAPoSService.gossipWorker | dapos/dapos_handshake.go:182-278 | drops, queues once, puts back or sends on, as specified |
| GossipService.DAPoSService.getRandomDelegate | dapos/dapos_handshake.go:291-325 | an available delegate not sent to before, and none only if there is none |
| GossipService.DAPoSService.doWork | dapos/dapos_handshake.go:338-366 | takes one gossip off the queue and executes it unless late, unknown or done |
| GossipService.DAPoSService.haveSent | commons/types/gossip.go:42-54 | scans the list of addresses sent to |
| GossipService.containsRumor | commons/types/gossip.go:114-121 | whether some rumor is of the address |
| GossipService.mergeRumors | dapos/dapos_handshake.go:146-155 | the loop merges as specified, with the flag set anew each time |
| GossipService.validateTimeDelta | commons/types/rumor.go:239-267 | the latest rumor is fresh and no gap is too long |
| Ledger.ConservesExactly | dapos/dapos_handshake.go:369-423 | over all 64-bit supplies, transfers conserve the supply if and only if it is at most 2^53, or so close to 2^63 that the first account reads back as negative |
| Ledger.AllSound | dapos/dapos_handshake.go:369-423 | up to 2^53: the sum stays the supply, no balance is negative, no addition overflows, and each hash is applied once |
| Ledger.LosingRun | commons/types/account.go:115-117 | above, one or two transfers lose or make tokens |
| Ledger.Frozen | commons/types/account.go:115-117 | near 2^63 no transfer ever passes |
| Ledger.ReloadExact | commons/types/account.go:100-173 | a balance up to 2^53 survives being written as an integer and read as a float |
| Ledger.ReloadLossy | commons/types/account.go:115-117 | 2^53 + 1 does not |
| Ledger.NearestFloat | commons/types/account.go:115-117 | the number read is the closest multiple of the spacing, the even one in the middle |
| Ledger.TransferMoves | dapos/dapos_handshake.go:369-423 | a transfer is refused, with nothing changed, exactly if it is known or tokens are missing; else it moves just its value, to a new account or an old one |
| Ledger.Accounts.executeTransaction | dapos/dapos_handshake.go:369-423 | applies a transfer once, if the balance suffices |
| Ledger.GenesisSound | dapos/dapos_service.go:97-119 | the first state has the whole supply in one account |
| ChainConfigs.CheckCompatible | dvm/ethereum/params/config.go:228-242 | no error exactly if the past up to the height keeps its rules; else the head to rewind to is the greatest that does, or 0 if none does |
| ChainConfigs.CompatibleIsSamePast | dvm/ethereum/params/config.go:244-273 | no conflict is found at a head if and only if both configurations have the same rules in force at every block up to it |
| ChainConfigs.ConflictRewind | dvm/ethereum/params/config.go:309-324 | a conflict comes with a lower head, or 0, just before a block with a conflict |
| StateTransition.IntrinsicGas | dvm/ethereum/state_transition.go:81-111 | the sum of all prices, or an error exactly if it exceeds 64 bits |
| StateTransition.Transition.TransitionDb | dvm/ethereum/state_transition.go:185-252 | refused, with nothing changed, exactly if the nonce is too high or too low, the balance does not pay for the gas, or the pool is short, in this order; else gas and pool are lost if it does not cover the intrinsic gas or the balance is insufficient for the transfer; else what the machine left, with the refund to the sender and the fee to the coinbase, the pool less just the gas used, and the total of all balances what it was |
| StateTransition.Transition.proceed | dvm/ethereum/state_transition.go:207-252 | everything after the gas is bought |
| StateTransition.Transition.settle | dvm/ethereum/state_transition.go:243-250 | what is left and what is used, at one price, go to sender and coinbase |
| StateTransition.Transition.refundGas | dvm/ethereum/state_transition.go:254-269 | the refund is the counter, at most half of the gas used, and giving gas back never overflows the pool |
| StateTransition.Transition.buyGas | dvm/ethereum/state_transition.go:154-167 | all gas is paid and taken from the pool, or nothing happens |
| StateTransition.Transition.preCheck | dvm/ethereum/state_transition.go:169-180 | each refusal exactly when it is due, with nothing changed; else the gas is bought |
| StateTransition.Transition.run | dvm/ethereum/state_transition.go:214-231 | the machine creates, and then the nonce of the sender is one higher; or the nonce is, and then the machine calls |
| StateTransition.Transition.useGas | dvm/ethereum/state_transition.go:145-152 | takes gas if there is enough |
| StateTransition.GasPool.AddGas | dvm/ethereum/gaspool.go:29-35 | the pool grows |
| StateTransition.GasPool.SubGas | dvm/ethereum/gaspool.go:39-45 | the pool shrinks, or is too small |

## Left out

Admitted limits of single members:

- TrieDatabase.Database.dereference: called by the meta-root it asks for a child that the meta-root references, that
  is not cached, or that has no count; for the others `TrieReach.CountLost` and `TrieReach.NodeLost` say what goes
  wrong, as the state is then no longer valid.
- TrieDatabase.Database.Dereference: the same condition, for the same reason.
- TrieDatabase.Database.perform: states validity and readability only; what each operation does is the contract of
  that operation.
- GossipService.DAPoSService.doWork: does not model the execution of a contract, only that the transaction is handed
  on.

Trie database:

- `cachedNode` is a value in a map; two pointers to one entry are never kept across a change, so aliasing is not
  modelled.
- Preimages, locks, metrics and logging; a blob that fails to encode.
- `simplifyNode` and `expandNode` only add or drop cached hashes and flags, which nodes here do not have.
- That no node is its own descendant is a ghost rank: it stands for nodes being addressed by the hash of their
  content.
- Blobs inserted as such are taken not to be trie nodes that lead on to others; their references are not counted.
- `Node`, `Nodes` and the read-only accessors beside `node` and `Size`.

RLP:

- Reflection, the type cache, struct tags, pointers, interfaces other than the empty one, arrays, and user-defined
  encoders.
- Readers that return data together with the end of input, and running out of memory on unlimited streams.

State:

- `Finalise`, `IntermediateRoot`, `Commit`, `Copy`, `DeleteSuicides`, `GetCodeSize`, `StorageTrie`, `ForEachStorage`,
  and the remembered database error.
- Two log slices that share an array; logs are values here.

Tries:

- Cached hashes, generations and unloading of old nodes; the callback for leaves while hashing.
- Proofs from partly loaded tries; `Prove` starts from a loaded one.
- During an iteration trie and store are constant: that a seek which failed on a missing node can be resumed once the
  node has arrived is outside the theorem.
- `Hash`, `Parent` and `LeafProof` of the iterator; the difference and union iterators. Stack frames are values.

Gossip and ledger:

- Expiry of cache entries, restarts, and time-outs by the wall clock; times are parameters.
- The order of the work queue by time: any queued gossip may be taken next. Concurrency inside one handler.
- A call that fails is a message that may or may not arrive.
- The two-thirds threshold is computed in 32-bit floating point; `3r >= 2n` agrees with it for fewer than 2^22
  delegates.
- Signatures and hashes are functions; deployment and execution of contracts; paging of transactions; synchronisation
  with peers.

Hash, gas and ABI:

- The Keccak permutation and the word-wise way of mixing in; rates are 72, 104, 136, 144 and 168.
- The virtual machine is an open step that conserves tokens and gas.
- Arrays of arrays, arrays of size 0, indexed event arguments, unpacking into Go structures, and addresses and
  function values of other than their length.
- Outputs so long that a 64-bit length overflows.
