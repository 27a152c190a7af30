# Omega node: a verified model

A Dafny model of the stateful and arithmetic cores of the Omega full node (a descendant of btcd), with proofs
of what they promise. `dafny verify dfyconfig.toml` checks the whole project.

What is modelled, and the main results:

- **Address manager** (`AddrBook`, `AddrRuns`, `AddrEffects`, `AddrStore`, `AddrFiles`, `Shuffling`, `AddrManager`). The class `AddrManager` holds the
  fields of the real manager (index, 1024 new buckets, 64 tried lists, two counters, one mutable object per
  address) and a ghost value `book` that the objects represent. Each method is proved to do to `book` what a
  function says. The function level carries the theorems: one invariant over every run of every operation (`refs`
  is the number of new buckets holding the address; every address is either tried, in exactly one tried slot, or
  untried, in one to eight new buckets; both counters exact), conservation of addresses by `Good`, what each operation
  leaves in every record and bucket, the round
  trip of saving and loading, exactly which files start a node whose tables keep the invariant, and that each sample of addresses comes from exactly one sequence of random picks. Random rolls, the clock, map iteration order and the set of bad addresses are
  parameters, so the theorems hold for all of them.
- **Compact difficulty numbers** (`Compact`). Packing then unpacking is the best approximation from below, with its
  exact error bound and range, for numbers of either sign; unpacking then packing is the identity on exactly the canonical forms; packing is
  monotone; work is the exact bracketed quotient and antitone in the target.
- **Websocket notifications** (`NotifyQueue`, `ChainScan`, `Rescan`, `WatchIndex`, `WatchRuns`, `LiveAndRescan`). The two queueing goroutines as
  state machines over their channel steps (losslessness, order, no blocked sender, and that everything queued is
  written once the steps run out); the two-way index of watched outpoints and addresses; a rescan as a fold over
  blocks; the manager's loop as an independent fold for each client, over any sequence of blocks, pool
  transactions and requests; and exactly for which address strings and runs live watching ends with the outpoints that
  a rescan of the blocks leaves.
- **Server book-keeping** (`Peers`, `Inventory`, `Checkpoints`). Group counters equal to counts over two tables after
  every sequence of messages to the server; the backward rotation scan against a forward definition; the bounded merge of two block lists, entry by entry;
  merging of checkpoints and the cached search for the latest one.
- **Transfers between chains** (`ChainTree`, `CrossChain`). The tree of chains: exactly one simple path between two
  chains, which is what the fee computation charges along and what the pass-through test decides; acceptance of a
  transaction exactly when every chain is paid what it is owed; conservation of fees over all chains; greedy matching
  of an arriving transaction against the pool as multiset equality with a bijection.
- **Multi-signature scripts** (`MultiSig`). Cutting the signers' scripts into pushes, serializing them and scanning the
  result gives back the same bytes.

`Options` and `Sequences` hold shared definitions.

Places where the code does not do what its documentation or a reader would expect. The model follows the code:

- Expiring a new bucket drops the bad addresses and also an oldest remaining one; its comment speaks of the oldest only
  when no bad one is found.
- The expiry test in the address manager is `>` and not `>=`, so a new bucket holds up to 65 addresses, not 64.
- A load that fails after counting an entry empties the tables but leaves both counters (`FailedLoad`,
  `FailedLoadMiscounts`).
- The loader accepts files that break the tables' invariant, such as one naming an address twice in a bucket
  (`AcceptedLoad`, `RepeatedEntry`).
- Time stamps are saved by the address manager and not restored; services are neither saved nor restored.
- For a negative number that is not a multiple of its unit, packing can carry out of the mantissa, or round past the largest
  exponent, and lose the number (`NegativeRounding`, `CarryExample`, `WrappedIsZero`); an exponent above 255 wraps around
  (`RoundingError`, `Overflowed`, `PackingMonotoneIff`, `RoundedIsBestIff`).
- Live watching files address strings as they are given, a rescan decodes them. A hash asked for in hexadecimal, or by the
  address of another network, is found by a rescan and missed live (`AgreesIff`, `HexExample`, `OtherNetworkExample`).
- An output of a pool transaction stays watched although no block ever includes the transaction (`WatchingIsRescanning`,
  `NeverMined`).
- The bytes of a pay-to-script-hash output are hashed once more before they are looked up, so asking for a script hash by
  its own string finds no payment to it, live or in a rescan (`ScriptHashUnseen`).
- The handler for a finished peer lowers the group counter only when the version is known. That is so for every listed
  peer: the version is set at btcd/peer/peer.go:2246, before the only call that lists a peer (omgd/server.go:651).
- Answering getblocks counts a leading proof-of-work block twice unless a rotation block follows, which can move a miner
  block forward (`TrackedIff`, `CountedTwice`).
- The cached search for a checkpoint advances by at most one checkpoint a call (`FindPrevious`, `LagExample`).
- Adding a chain asks neither whether its parent is known nor whether it goes by 0, and removing one does not ask whether
  it has children (`AddChain`, `AddExamples`, `RemoveChain`, `RemoveExample`).
- The scanner for pushed data turns round for ever on any opcode but two (`ScannerReads`, `TurnsForEver`).
- The header push of a multi-signature script is stated as 5 bytes and is 4 long; the script builder corrects it.

## Model

| member | source | states |
|---|---|---|
| AddrBook.FreshInv | btcd/addrmgr/addrmanager.go:1162-1183 | a new manager satisfies the invariant |
| AddrBook.UpdatedKeepsInv | btcd/addrmgr/addrmanager.go:170-246 | adding an address keeps the whole invariant for every roll, every set of bad addresses and every choice of an oldest entry |
| AddrBook.ExpiredMakesRoom | btcd/addrmgr/addrmanager.go:250-286 | expiring removes only entries of the bucket and at least one of them |
| AddrBook.MarkedGoodKeepsInv | btcd/addrmgr/addrmanager.go:886-970 | marking an address good keeps the whole invariant on every path: unknown, already tried, room in the tried bucket, eviction |
| AddrRuns.AttemptedKeepsInv | btcd/addrmgr/addrmanager.go:845-858 | recording an attempt keeps the invariant |
| AddrRuns.ConnectedKeepsInv | btcd/addrmgr/addrmanager.go:863-881 | refreshing the time of a connected address keeps the invariant |
| AddrRuns.ServicesKeepInv | btcd/addrmgr/addrmanager.go:973-989 | setting services keeps the invariant |
| AddrRuns.NextKeepsInv | btcd/addrmgr/addrmanager.go:170-989 | every operation keeps the invariant |
| AddrRuns.EveryRunKeepsInv | btcd/addrmgr/addrmanager.go:170-989 | after every operation of every run that starts with the invariant, from a new manager or a loaded one: refs counts the new buckets, each address is tried or in one to eight new buckets, every bucket entry is indexed, both counters are exact |
| AddrRuns.TriedSlotUnique | btcd/addrmgr/addrmanager.go:922-968 | two tried slots with the same address are the same slot, and the address is marked tried with no references |
| AddrRuns.TriedCountIsSlots | btcd/addrmgr/addrmanager.go:625-627 | nTried is the number of occupied tried slots, at most 64 times 256 |
| AddrRuns.AddressCountBounded | btcd/addrmgr/addrmanager.go:625-627 | nNew plus nTried is the number of known addresses; bounds of both |
| AddrRuns.AddRemembers | btcd/addrmgr/addrmanager.go:170-246 | adding never forgets a tried address, adds at most the new one, and does add it if it is routable and not our own |
| AddrRuns.GoodConserves | btcd/addrmgr/addrmanager.go:886-970 | the known addresses and nNew plus nTried stay; a known address, tried before or not, ends tried with no attempts, no references, both times now and everything else as before; at most one other address changes: an evicted one, which ends in exactly one new bucket with one reference |
| AddrEffects.GoodAgain | btcd/addrmgr/addrmanager.go:890-905 | an unknown address changes nothing; of one already tried only attempts and the two times change |
| AddrEffects.GoodRoom | btcd/addrmgr/addrmanager.go:907-938 | with room, the whole new state: k leaves every new bucket and goes to the end of its tried bucket |
| AddrEffects.GoodFull | btcd/addrmgr/addrmanager.go:940-969 | without room, the whole new state: k takes the slot of the first of the eldest entries, which goes to the new bucket its hash names if that has fewer than 64 entries without k, else to the first that held k |
| AddrEffects.AddRecords | btcd/addrmgr/addrmanager.go:170-246 | the whole record afterwards: an unknown address is blank with one reference; of a known one the services are joined, the time stamp is taken over iff it is later or a service is new, and one reference is added iff it enters its bucket; nothing happens if it is not routable or our own |
| AddrEffects.AddBuckets | btcd/addrmgr/addrmanager.go:200-286 | when the address enters the bucket of its hash, and what that does to every bucket and every other address: a bucket of more than 64 loses its bad entries and one more, and who loses the last reference is forgotten |
| AddrEffects.SurvivorsAreYounger | btcd/addrmgr/addrmanager.go:250-286 | whatever is left of an overflowing bucket is no older than an entry dropped although it is not bad |
| AddrEffects.AttemptRecords | btcd/addrmgr/addrmanager.go:845-858 | one attempt more and its time; nothing else changes |
| AddrEffects.ConnectedRecords | btcd/addrmgr/addrmanager.go:863-881 | the time stamp becomes now iff it is more than twenty minutes back; nothing else changes |
| AddrEffects.ServicesRecords | btcd/addrmgr/addrmanager.go:973-989 | the services are replaced; nothing else changes |
| AddrRuns.RollBoundPositive | btcd/addrmgr/addrmanager.go:205-215 | the bound given to the random generator is positive, and an untried address is found in some new bucket |
| AddrStore.LoadAfterSave | btcd/addrmgr/addrmanager.go:375-531 | loading into a new manager what any reachable manager saved, in any iteration order, passes all checks and restores key, tables, tried order, marks, references, attempts and counters; the times of attempt and success are cut to the second; addresses and sources are what their strings parse to |
| AddrStore.SavedRecords | btcd/addrmgr/addrmanager.go:381-394 | a saved record holds the strings of address and source, the attempts and the whole seconds of the three times |
| AddrStore.RestoredInv | btcd/addrmgr/addrmanager.go:446-532 | the restored manager satisfies the invariant again |
| AddrStore.FailedLoad | btcd/addrmgr/addrmanager.go:427-532 | after a load that fails and the reset, the invariant holds if and only if the file failed before its first counted entry |
| AddrStore.FailedLoadMiscounts | btcd/addrmgr/addrmanager.go:682-694 | a concrete file after which the manager counts one address and knows none |
| AddrStore.ReadAddressesExactly | btcd/addrmgr/addrmanager.go:471-487 | reading the address list succeeds iff every string parses, and then indexes exactly the parsed keys |
| AddrStore.ProgressAll | btcd/addrmgr/addrmanager.go:489-516 | reading bucket entries without repetition and all indexed goes through and builds exactly the listed tables, references and counts |
| AddrFiles.AcceptedLoad | btcd/addrmgr/addrmanager.go:446-532 | an accepted file gives the invariant if and only if no bucket repeats or overflows, no address is in more than eight new buckets and tried addresses are where their hash puts them |
| AddrFiles.EveryLifeKeepsInv | btcd/addrmgr/addrmanager.go:427-989 | over every run after reading a file, the invariant holds throughout if and only if the file is orderly or fails before its first counted entry |
| AddrFiles.RestartKeepsInv | btcd/addrmgr/addrmanager.go:369-989 | it holds throughout every run after a restart from what the manager saved |
| AddrFiles.RepeatedEntry | btcd/addrmgr/addrmanager.go:489-529 | a concrete accepted file after which the invariant fails |
| AddrManager.AddrManager.constructor | btcd/addrmgr/addrmanager.go:1162-1183 | a new manager is valid and empty |
| AddrManager.AddrManager.Find | btcd/addrmgr/addrmanager.go:839-841 | the object indexed under the key, null iff there is none |
| AddrManager.AddrManager.ExpireNew | btcd/addrmgr/addrmanager.go:250-286 | drops the bad entries of a bucket and an oldest one of the others, with references, index and count |
| AddrManager.AddrManager.UpdateAddress | btcd/addrmgr/addrmanager.go:170-246 | the objects follow Updated and stay valid |
| AddrManager.AddrManager.PickTried | btcd/addrmgr/addrmanager.go:291-303 | the first entry of a tried bucket with the least time stamp |
| AddrManager.AddrManager.Good | btcd/addrmgr/addrmanager.go:886-970 | the objects follow MarkedGood and stay valid |
| AddrManager.AddrManager.Attempt | btcd/addrmgr/addrmanager.go:845-858 | the objects follow Attempted and stay valid |
| AddrManager.AddrManager.Connected | btcd/addrmgr/addrmanager.go:863-881 | the objects follow MarkedConnected and stay valid |
| AddrManager.AddrManager.SetServices | btcd/addrmgr/addrmanager.go:973-989 | the objects follow ServicesSet and stay valid |
| AddrManager.AddrManager.SavePeers | btcd/addrmgr/addrmanager.go:375-410 | the file enumerates the index and every bucket once |
| AddrManager.AddrManager.DeserializePeers | btcd/addrmgr/addrmanager.go:446-532 | the objects follow Load, with its verdict, also when it fails half-way |
| AddrManager.AddrManager.ResetTables | btcd/addrmgr/addrmanager.go:682-694 | empties the tables and leaves both counters |
| AddrManager.AddrManager.LoadPeers | btcd/addrmgr/addrmanager.go:427-444 | the loaded tables, or the reset ones after a failure |
| AddrManager.AddrManager.AddressCache | btcd/addrmgr/addrmanager.go:648-678 | as many addresses as the percentage and the cap allow, each of a different known address: those that the picks take from the order of iteration |
| Shuffling.Shuffle | btcd/addrmgr/addrmanager.go:668-674 | swapping array slots in place leaves the array rearranged as the picks say |
| Shuffling.ArrangedIsPermutation | btcd/addrmgr/addrmanager.go:668-674 | whatever the picks, nothing is lost or doubled |
| Shuffling.PicksDetermined | btcd/addrmgr/addrmanager.go:668-674 | different picks never give the same selection |
| Shuffling.EverySelection | btcd/addrmgr/addrmanager.go:668-674 | every ordered selection of distinct addresses comes from some picks, so with the row above a uniform generator samples uniformly |
| Shuffling.SampleDetermined | btcd/addrmgr/addrmanager.go:657-677 | for one order of iteration, different picks never give the same sample |
| Shuffling.EverySample | btcd/addrmgr/addrmanager.go:657-677 | every sample of distinct addresses, in any order, comes from some picks |
| Compact.Packed | btcd/blockchain/difficulty.go:92-128 | the packed form of a positive number is its normalized exponent modulo 256 and mantissa |
| Compact.CompactMeans | btcd/blockchain/difficulty.go:60-86 | the value of every compact form, from its exponent, sign and mantissa bits |
| Compact.RoundedBelow | btcd/blockchain/difficulty.go:60-128 | packing and unpacking any number never exceeds it, and stays positive for one whose exponent fits |
| Compact.RoundedIsBest | btcd/blockchain/difficulty.go:60-128 | for a number whose exponent fits, no compact form without sign has a value between the rounded number and the number |
| Compact.RoundedIsBestIff | btcd/blockchain/difficulty.go:60-128 | for every number, rounding finds the best such form if and only if the exponent fits, or the mantissa is the largest and the exponent ends in the byte 255 |
| Compact.LimitIsNotBest | btcd/blockchain/difficulty.go:60-128 | the first number that does not fit, as the failing input |
| Compact.RoundedExact | btcd/blockchain/difficulty.go:60-128 | numbers below 2^23 survive packing |
| Compact.RoundingError | btcd/blockchain/difficulty.go:60-128 | less than one part in 2^15 is lost if and only if the exponent fits a byte |
| Compact.Overflowed | btcd/blockchain/difficulty.go:92-128 | beyond that limit at least half of the number is lost |
| Compact.PackingMonotone | btcd/blockchain/difficulty.go:92-128 | packing is monotone on the numbers whose exponent fits a byte |
| Compact.PackingDrops | btcd/blockchain/difficulty.go:92-128 | the first number that does not fit is packed below every positive one that does |
| Compact.PackingMonotoneIff | btcd/blockchain/difficulty.go:92-128 | packing is monotone below a bound if and only if all numbers below it fit |
| Compact.UnpackPackIff | btcd/blockchain/difficulty.go:60-128 | packing an unpacked form gives it back if and only if it is zero or canonical, signed or not |
| Compact.CarriedIsZero | btcd/blockchain/difficulty.go:92-128 | a negative number whose leading bytes carry is packed as zero |
| Compact.CarryExample | btcd/blockchain/difficulty.go:92-128 | a concrete such number |
| Compact.NegativeRounding | btcd/blockchain/difficulty.go:60-128 | for every negative number, less than one part in 2^15 is lost if and only if its leading bytes do not carry and rounding them up stays within the largest exponent |
| Compact.WrappedIsZero | btcd/blockchain/difficulty.go:60-128 | between the limits of the two signs a negative number is packed as zero without a carry |
| Compact.WorkBounds | btcd/blockchain/difficulty.go:140-152 | work is 0 for a target that is not positive and otherwise the quotient of 2^256 by target plus one |
| Compact.WorkAntitone | btcd/blockchain/difficulty.go:140-152 | a larger target needs no more work |
| Compact.WorkOfRounded | btcd/blockchain/difficulty.go:60-152 | rounding a target to compact form never lowers its work |
| Compact.HashToBig | btcd/blockchain/difficulty.go:25-35 | the number a hash stands for in little-endian order |
| NotifyQueue.QueueHandler.OnReceive | omgd/rpcwebsocket.go:156-198 | an item goes straight through iff the queue is empty and the reader ready, else to the end of the queue |
| NotifyQueue.QueueHandler.OnDeliver | omgd/rpcwebsocket.go:156-198 | delivers the head of the queue |
| NotifyQueue.QueueIsFifo | omgd/rpcwebsocket.go:156-198 | in every run, received is sent followed by the queue; direct send is enabled iff the queue is empty; next is its head |
| NotifyQueue.MovedKeeps | omgd/rpcwebsocket.go:1618-1743 | every step of notification loop, senders and writer keeps the client invariant |
| NotifyQueue.ClientRunInv | omgd/rpcwebsocket.go:1618-1743 | in every run: waiting exactly while one notification or token is under way, nothing pending when not waiting, the done channel never blocks, written is a prefix of queued, and the replies written are a prefix of those sent |
| NotifyQueue.QuietMeansDelivered | omgd/rpcwebsocket.go:1618-1708 | when no internal step is possible, every notification queued and every reply sent has been written, in order |
| NotifyQueue.InternalMovesEnd | omgd/rpcwebsocket.go:1618-1708 | every internal step uses up a bounded measure |
| NotifyQueue.DrainDelivers | omgd/rpcwebsocket.go:1618-1708 | any run of internal steps is short, and when it cannot go on everything queued or sent by its start is written, in order |
| ChainScan.SpendsAre | omgd/rpcwebsocket.go:2127-2140 | an outpoint counts as spent iff it is an input of a transaction that is not cross-chain and its hash is not zero |
| ChainScan.CreatesAre | omgd/rpcwebsocket.go:2160-2252 | an outpoint counts as created iff the output at its position hits |
| ChainScan.FollowAllExactly | omgd/rpcwebsocket.go:2114-2253 | after following transactions, the outpoints left are those watched before or created by a hit, and not spent later |
| Rescan.RescanKeys.ScanInputs | omgd/rpcwebsocket.go:2127-2158 | removes the spent outpoints; one redeeming note iff some watched one was spent |
| Rescan.RescanKeys.ScanOutputs | omgd/rpcwebsocket.go:2160-2252 | adds the outpoints paying a watched key; one received note iff there is one |
| Rescan.RescanKeys.RescanBlock | omgd/rpcwebsocket.go:2114-2253 | one block follows the fold, in unspent set and notes |
| Rescan.RescanKeys.RescanBlocks | omgd/rpcwebsocket.go:2114-2253 | a sequence of blocks follows the fold over all transactions |
| Rescan.OneTxNotes | omgd/rpcwebsocket.go:2114-2253 | the notes of one transaction, in order: redeeming iff an ordinary input was unspent, then received iff an output that is no separator has a wanted address |
| Rescan.AtMostOneNote | omgd/rpcwebsocket.go:2114-2253 | at most one redeeming and one received note per scanned transaction |
| WatchIndex.Watch.AddAll | omgd/rpcwebsocket.go:981-1014 | exactly the requested keys become watched by the client; both sides of the index agree |
| WatchIndex.Watch.Add | omgd/rpcwebsocket.go:1231-1248 | adds one pair to both sides |
| WatchIndex.Watch.Remove | omgd/rpcwebsocket.go:1030-1050 | removes one pair from both sides and leaves no empty inner map |
| WatchIndex.Watch.Drop | omgd/rpcwebsocket.go:601-614 | removes exactly the client's pairs |
| WatchIndex.Manager.AddSpentRequests | omgd/rpcwebsocket.go:981-1014 | the outpoints are watched, and for each pool transaction that spends one of them every watcher of its inputs is told once |
| WatchIndex.Manager.UnregisterClient | omgd/rpcwebsocket.go:601-614 | afterwards the client occurs in no map and the others are untouched |
| WatchIndex.Manager.NotifyForTxIns | omgd/rpcwebsocket.go:1179-1217 | notifies each watcher of a spent outpoint once; in a block, the spent outpoints are no longer watched |
| WatchIndex.Manager.NotifyForTxOuts | omgd/rpcwebsocket.go:1087-1136 | notifies each watcher of a paid address once and makes it watch the new outpoint |
| WatchIndex.Manager.NotifyForTx | omgd/rpcwebsocket.go:1164-1173 | both together: who is told of a spent outpoint and who of a paid address, in terms of inputs, outputs and requests; each client's outpoints follow the transaction |
| WatchIndex.Manager.BlockConnected | omgd/rpcwebsocket.go:537-547 | each client's outpoints follow all transactions of the block |
| WatchIndex.SpentIsUnwatched | omgd/rpcwebsocket.go:1179-1217 | after a block, no outpoint spent in it is watched by anyone |
| WatchRuns.ServeRequest | omgd/rpcwebsocket.go:601-626 | a request adds or removes exactly the pairs it names, for its own client only |
| WatchRuns.ServeAll | omgd/rpcwebsocket.go:528-652 | whatever blocks, pool transactions and requests of whichever clients arrive, each client's strings and outpoints are the fold of the events over what it had |
| WatchRuns.LiveExactly | omgd/rpcwebsocket.go:537-586 | a client that asks nothing new watches in the end exactly what following the blocks leaves, and what pool transactions created by a hit and no later block spent |
| LiveAndRescan.Codec.RoundTrip | btcutil/address.go:107-152 | the string of an address found in a script decodes to that address |
| LiveAndRescan.Codec.DecodesToKey | btcutil/address.go:107-116 | a string decodes to a public key iff it is 66 or 130 hexadecimal digits that parse as one |
| LiveAndRescan.Codec.DecodesToHash | btcutil/address.go:119-152 | any other string decodes to a hash iff it holds twenty bytes behind an identifier of that kind, in base58 with a checksum or else in hexadecimal |
| LiveAndRescan.WantsAsked | omgd/rpcwebsocket.go:2166-2225 | what a rescan wants, for every kind of address, in terms of the strings asked for; a key of known length also through its hash |
| LiveAndRescan.BuildLookups | omgd/rpcwebsocket.go:2471-2525 | fails iff a string does not decode or is a key of unknown length; otherwise the lookups hold exactly what the strings decode to |
| LiveAndRescan.LiveIsRescanned | omgd/rpcwebsocket.go:2160-2225 | every output that live watching sees, a rescan with the same strings sees |
| LiveAndRescan.AgreeIff | omgd/rpcwebsocket.go:2160-2225 | both follow the same outpoints through the transactions of all blocks if and only if every hash asked for that scripts can pay to is also asked for by the string the node would write for it |
| LiveAndRescan.WatchingIsRescanning | omgd/rpcwebsocket.go:537-586 | with such strings, after any run of blocks and pool transactions, a client watches what a rescan of the blocks leaves and what pool transactions created for it and no later block spent; the two are equal if and only if the blocks leave the latter too |
| LiveAndRescan.AgreesIff | omgd/rpcwebsocket.go:537-586 | strings are of that kind if and only if live watching and a rescan agree after exactly the runs whose blocks leave all that the pool has left |
| LiveAndRescan.MinedIsConfirmed | omgd/rpcwebsocket.go:582-586 | blocks leave all that the pool has left when every pool transaction that pays the client is mined afterwards |
| LiveAndRescan.NeverMined | omgd/rpcwebsocket.go:582-586 | a pool transaction that is never mined, as the failing input |
| LiveAndRescan.HandOver | omgd/rpcwebsocket.go:2599-2619 | a rescan hands its outpoints and strings over: after any further run the client watches what it would have watched anyway, what the rescan would have left had it gone on, and what the pool has left |
| LiveAndRescan.Missed | omgd/rpcwebsocket.go:2160-2225 | a hash asked for in another form only: a payment to it is found by a rescan and missed live |
| LiveAndRescan.ScriptHashUnseen | btcd/blockchain/indexers/addrindex.go:712-716 | a payment to a script hash asked for by its own string is seen, on either side, if and only if the hash is its own hash |
| LiveAndRescan.HexExample | btcutil/address.go:119-138 | the bytes of an address in hexadecimal are such a string |
| LiveAndRescan.OtherNetworkExample | btcutil/address.go:128-138 | the address of another network is one |
| Peers.RemoveFromList | omgd/server.go:231-252 | ends with the list without the peer, in the same order |
| Peers.PeerState.RemovePeer | omgd/server.go:231-252 | takes the peer out of every committee list |
| Peers.PeerState.HandleAddPeer | omgd/server.go:1939-2056 | admits exactly when not shutting down, not banned and below the limit; replaces outbound duplicates; the miner's committee list gains the peer at its end and all lists lose the replaced ones; only an expired ban of the peer's own host is lifted; group counters stay exact |
| Peers.PeerState.HandleDonePeer | omgd/server.go:2093-2120 | the peer leaves its table and every committee list, nobody else does, and the tables and group counters agree afterwards, for every peer listed or not |
| Peers.PeerState.RemoveNode | omgd/server.go:2384-2397 | removes one matching persistent peer if there is one; counters stay exact |
| Peers.PeerState.DisconnectOutbound | omgd/server.go:2428-2444 | ends with no matching outbound peer left; counters stay exact |
| Peers.PeerState.DisconnectNode | omgd/server.go:2415-2451 | one matching inbound peer, or else all matching outbound peers |
| Peers.PeerState.ServeAll | omgd/server.go:1939-2477 | after any sequence of add, done, remove and disconnect messages, also of peers that go before their version and id are known, the group counters are exact |
| Peers.FindMatch | omgd/server.go:2462-2477 | finds a matching peer iff there is one |
| Inventory.ScanRotation | omgd/server.go:979-994 | the backward scan computes the forward rotation count |
| Inventory.CountedIsTracked | omgd/server.go:1005-1042 | on the chain the merge's own count is the start count advanced over the ordinary blocks sent |
| Inventory.TrackedIff | omgd/server.go:979-1042 | that count differs from the true rotation count of the last block sent if and only if the first block was found by work and no rotation block was sent since |
| Inventory.CountedTwice | omgd/server.go:979-1042 | a concrete request in which the count is 4 instead of 2 and a miner block goes first because of it |
| Inventory.AnswerGetBlocks | omgd/server.go:964-1042 | scan and merge together: every entry of the answer is a miner block iff one was due, with the count started from the true rotation count and the nonce from the first block's if negative, else -1 |
| Inventory.Merge | omgd/server.go:1001-1042 | an interleaving of a prefix of each list, of the least of both lengths together and 500; each entry a miner block iff one is left and either no ordinary one is, or the compared height is known and the last nonce is at most -18 or the count plus one reaches that height; a continue hash is the last one sent unless none or all were |
| Checkpoints.MergeCheckpoints | omgd/server.go:4115-4139 | sorted; exactly the last configured checkpoint per height and the built-in ones of other heights, with repetition; strictly increasing iff the kept built-in ones have distinct heights |
| Checkpoints.LastCounts | omgd/server.go:4116-4121 | of several checkpoints configured for one height the last counts |
| Checkpoints.Cache.FindPrevious | btcd/blockchain/checkpoints.go:87-168 | keeps the cached pair adjacent; answers with the latest checkpoint reached if and only if it is the first search or at most one checkpoint lies beyond the cached one |
| Checkpoints.AnswerIsLatestIff | btcd/blockchain/checkpoints.go:87-168 | the same of the position the cache moves to |
| Checkpoints.LagExample | btcd/blockchain/checkpoints.go:130-168 | a concrete run of two calls, at heights 15 and 35, whose second answer lags |
| Checkpoints.RunOfCalls | btcd/blockchain/checkpoints.go:87-168 | over any run of calls on a growing chain the cached position never falls and never overtakes the scan |
| Checkpoints.RepeatedCalls | btcd/blockchain/checkpoints.go:87-168 | k further calls at one tip close the gap by k, until it is closed |
| ChainTree.PathUnique | omega/chainmap/chainmap.go:86-136 | there is only one simple path between two chains |
| ChainTree.PathBack | omega/chainmap/chainmap.go:86-136 | the way back is the same path reversed |
| ChainTree.Decendant | omega/chainmap/chainmap.go:72-84 | true exactly for proper descendants |
| ChainTree.PassThru | omega/chainmap/chainmap.go:154-179 | between known chains, true exactly for the chains on the simple path; with an unknown end, for a known chain that is an end or above one |
| ChainTree.CutAtMeeting | omega/chainmap/chainmap.go:105-122 | the trimming loop cuts two lines of ancestors at the point where they first meet |
| ChainTree.JoinLines | omega/chainmap/chainmap.go:86-126 | the chains collected are the simple path |
| ChainTree.CtxFees | omega/chainmap/chainmap.go:86-136 | one script and one flat fee for each chain of the path that is not legacy, in order; none for an unknown destination |
| ChainTree.PayableExactly | omega/chainmap/chainmap.go:128-134 | each chain of a path that is not legacy is charged once, no other is |
| ChainTree.PayableInOrder | omega/chainmap/chainmap.go:128-134 | charging a path is charging its parts one after the other |
| ChainTree.FeeScriptBytes | omega/chainmap/chainmap.go:138-147 | every byte of a fee script |
| ChainTree.FeeScriptRoundTrip | omega/chainmap/chainmap.go:138-147 | a chain is read back from its fee script modulo 2^24, so unchanged if and only if it is below 2^24 |
| ChainTree.FOCMap.AddChain | omega/chainmap/chainmap.go:283-320 | when a chain is added, and that the map stays a tree if and only if the chain is not 0 and its parent is known |
| ChainTree.AddExamples | omega/chainmap/chainmap.go:283-320 | a chain with an unknown parent and a chain 0, added to the root, leave no tree |
| ChainTree.FOCMap.RemoveChain | omega/chainmap/chainmap.go:344-364 | the map stays a tree if and only if the removed chain has no children |
| ChainTree.RemoveExample | omega/chainmap/chainmap.go:344-364 | a chain removed from above its child leaves no tree |
| CrossChain.CheckTransfer | btcd/blockchain/accept.go:46-87 | a transfer passes exactly when its chains are known and the paths go as required |
| CrossChain.AddTolls | btcd/blockchain/accept.go:92-100 | adds the flat fee once per script to the ledger of fees due |
| CrossChain.ChargeAll | btcd/blockchain/accept.go:32-101 | fails iff some output is not allowed; otherwise the ledger holds what each chain is owed |
| CrossChain.Settle | btcd/blockchain/accept.go:103-119 | fails iff a payment is in the wrong token or to a chain owed nothing; otherwise takes the payments off |
| CrossChain.CheckCrossChainTx | btcd/blockchain/accept.go:22-127 | accepts if and only if every output is allowed, every payment is in order and every chain is paid exactly what it is owed, where the source is another chain iff the one input has bit 23 set, and then the rest of that number |
| CrossChain.FlaggedInput | btcd/blockchain/accept.go:23-28 | a chain number with the flag added is read back as that source; without it the source is this chain |
| CrossChain.CallRules | btcd/blockchain/accept.go:33-41 | separators are allowed, contract calls iff the transaction is of this chain |
| CrossChain.ForeignCallRefused | btcd/blockchain/accept.go:36-39 | an arriving transaction with a contract call is never accepted |
| CrossChain.TransferRules | btcd/blockchain/accept.go:42-87 | in terms of token type and script bytes, exactly which payments, transfers and other outputs are allowed |
| CrossChain.FeeRules | btcd/blockchain/accept.go:89-100 | in terms of script bytes, what an output owes to each chain |
| CrossChain.PayRules | btcd/blockchain/accept.go:103-116 | in terms of script bytes, what an output pays to each chain |
| CrossChain.PaymentRules | btcd/blockchain/accept.go:107-118 | a payment is in order iff it is in the fee token, or in token 0 on chain 1, and some output owes its chain a fee |
| CrossChain.OrderIrrelevant | btcd/blockchain/accept.go:22-127 | the verdict does not depend on the order of the outputs |
| CrossChain.FeePerChain | btcd/blockchain/accept.go:92-100 | a transfer owes the flat fee to exactly the fee-taking chains on its path |
| CrossChain.FeesConserved | btcd/blockchain/accept.go:22-127 | what an accepted transaction pays to miners in all is the flat fee times the number of fee-taking chains passed |
| CrossChain.MatchIsEquality | btcd/wire/msgtx.go:270-288 | matching outputs are equal outputs |
| CrossChain.MatchOutputs | btcd/blockchain/accept.go:174-196 | for every iteration order, succeeds if and only if outputs and pool agree as multisets, and then pairs them one to one |
| MultiSig.AddLong | omgd/rpcserver.go:551-571 | the pushes of a long script join up to it and are each 26 to 255 bytes long |
| MultiSig.CreateMultiSigScript | omgd/rpcserver.go:535-575 | the script byte by byte: a push of the two numbers in little-endian order, the signature text, one push after the other, the signature text again; scanning it gives back the numbers and pushes that join up to the signers' scripts |
| MultiSig.ScriptBuilder.Script | omega/ovm/scriptbuilder.go:109-127 | writes every instruction, a push with its real length and a signature text with its first byte |
| MultiSig.ScanSerialized | omega/ovm/scriptbuilder.go:109-142 | scanning serialized instructions gives exactly the pushed data |
| MultiSig.PushedData | omega/ovm/scriptbuilder.go:129-142 | the scanner's loop computes Scan, where it ends |
| MultiSig.ScannerEndsIff | omega/ovm/scriptbuilder.go:129-142 | the loop comes to a normal end if and only if Scan reads the script, and then has found what Scan gives |
| MultiSig.ScannerReads | omega/ovm/scriptbuilder.go:109-142 | the loop ends exactly on the scripts made of pushes that state their length and signature texts, the last of which may be cut off, and finds what they push |
| MultiSig.TurnsForEver | omega/ovm/scriptbuilder.go:129-142 | on a script that starts with another opcode no number of rounds changes anything |

## Left out

- Choosing an address to dial (`GetAddress`, `chance`): a random retry loop that ends only with probability one.
- What makes an address bad: any set of addresses may be bad. Bucket hashes: any functions into the bucket range.
- File, JSON and network handling, clocks, mutexes, logging, RPC handlers: values that come from them are parameters, and
  a section under a lock is one step.
- AddrStore.LoadAfterSave: assumes that the text of a saved address parses back to the same key, and RestoredInv that
  the parsed address has the bucket of the saved one.
- AddrManager.AddrManager.UpdateAddress: iteration order over a new bucket shows only in which of several oldest entries
  is expired.
- Services are a set of bits, not a 64-bit word; times are integers in nanoseconds.
- NotifyQueue.ClientRunInv: the steps before the client quits; clean-up after quitting is not modelled.
- Marshalling failures in rescans and notifications, and the miner-block registrations.
- WatchIndex.Watch.AddAll: does not model the check of the mempool for spends of the added outpoints, which
  Manager.AddSpentRequests adds; the notices of that check for outputs watched automatically are not modelled. Neither
  changes the index.
- WatchIndex.SpentIsUnwatched: assumes that the output spent was not created by the spending
  transaction or a later one of the block.
- LiveAndRescan.AgreesIff: base58, hexadecimal, hashing and public-key parsing are any functions for which encodings with a checksum can
  be read back; the scripts' addresses are those the extraction of the source yields.
- Peers.PeerState.HandleAddPeer: assumes a fresh peer id, a known version and that equal addresses are in equal groups, as
  the server gives them out.
- Inventory.Merge: counts are unbounded integers, not 32-bit.
- Checkpoints.Cache.FindPrevious: the best chain holds the checkpoints at or below its height and only grows between calls;
  reorganizations and the lookup errors of an inconsistent index are not modelled.
- CrossChain.CheckCrossChainTx: fee sums are unbounded integers, not 64-bit; scripts are long enough for the bytes the code
  reads unchecked; which of several errors is returned is not modelled.
- CrossChain.MatchOutputs: the lookups of the pool entry and its block, chain and finality before the matching.
- ChainTree.FOCMap.AddChain: the clash test on names, ports and genesis blocks is any relation; the stored copy of the map is
  not modelled.
- MultiSig.PushedData: covers the scripts on which the loop ends, which ScannerEndsIff determines; reading past the end of
  the script counts as a failure, also where spare capacity of the slice would let it through.
- MultiSig.CreateMultiSigScript: the address is the hash of the returned bytes; the hash function is not modelled.
- Difficulty retargeting, which is commented out in the source; committee connections; storing and connecting blocks;
  addresses and keys in `btcutil`.
