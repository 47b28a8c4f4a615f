# LcRyp: a verified model of the node's stateful cores

LcRyp is a node of a Bitcoin-derived network. This project models the parts of it that keep
state over many calls and that have a simple law behind a complicated implementation, and proves
that law for every input, every run or every reachable state.

Code that updates fields, buffers or tables in place is modelled by classes and loops. Each method
is proved against a specification on values, and the laws are proved about the specification.

| files | component | main results |
|---|---|---|
| Coins | write-back caches of unspent outputs, stacked to any depth | `Run`: every sequence of operations acts on the top view like the same sequence on one flat map, the FRESH throw is unreachable and the usage counters stay exact |
| AddrManState, AddrManOps, AddrManTimes, AddrManager | address manager | `RunOk`: every run keeps the invariant of all tables, maps and counters whatever the clock says, a tried slot stays occupied and ids are not reused; `GoodTimes` and its companions: exactly when the times stay in order |
| AddrManCheck | its runtime self-check | `CheckAddrman`: zero exactly on consistent states; `ReachablePasses`: every state reached with successes at positive and attempts at non-negative times passes; `ConsistentIsInv`: exactly what the check overlooks |
| AddrManSerial, AddrManFile, AddrManRebucket | peers file | `SaveAndLoad`: the same manager up to renaming of ids; `Unserialize`: any accepted file leaves a valid manager; `SaveAndRebucket`: under other hash functions only displaced entries are lost |
| HeadersSync | presync and redownload of headers | `RunSync`: what is released is a checked prefix, vouched for at that moment by work or by 13959 later headers with 23 commitments; `Replay`: an honest peer succeeds |
| CheckQueue | master and workers over a shared queue of checks | `WaitCorrect`, `NoDeadlock`, `WaitIsBounded` over every interleaving: the right verdict, always a useful step, and at most 5 for each outstanding check and 2 for each thread |
| MerkleBlock | partial Merkle trees of BIP 37 | `VerifySound` for arbitrary proofs and any hash, `RoundTrip` for honest ones |
| ArithUint256, CompactTarget | 256-bit integers on limbs, compact targets, block work | every operator is arithmetic modulo 2^256; `DecodeEncode`, `EncodeDecode`, `GetBlockProof` |
| SkipList, Chain | skip list and active chain | `GetAncestor` is the plain parent walk; `WalkIsShort`, `WalkIsNotLogarithmic`: its length is quadratic in the bits of the height; `SetTip`, `FindFork`, `LastCommonAncestor`, locators |
| MessageFraming, NetTransport | framing, receiving and the send queue | `ReceiveAll`: cuts do not matter; `Conversation`: from push to receipt over any socket |
| BlockEncodings | compact blocks of BIP 152 | `InitData`: slots, statuses and counters; `Rebuild`: an accepted compact block without short-id collisions becomes its block again |
| Bech32, Base58 | address codecs (BIP 173, BIP 350; Base58Check) | round trips in both directions, error detection, tight buffers |

Numbers and Basics hold powers, division facts and shared types.

Some laws hold only under a condition, and then the exact condition is proved:

- `AddCoin` marks an outpoint it does not hold as FRESH; that flag is truthful if and only if nothing
  unspent lies below (`FreshAddNeedsAbsence`, `AddCoin`, `AddCoins`), and with it wrong a spent coin comes
  back (`MisusedFreshResurrects`).
- A compact target survives decoding and encoding again if and only if it is canonical and fits into 256 bits
  (`EncodeDecode`); 0x227fff00 is canonical, overflows and does not come back (`CanonicalMayOverflow`).
- Decoding an encoded Bech32 text gives it back if and only if the prefix is non-empty and printable and
  the text has at most 90 characters (`DecodeEncode`).
- An honest partial Merkle tree yields the root if no two sibling hashes on the walked part are equal, and
  the null hash otherwise (`VerifyHonest`); a block that `ComputeMerkleRoot` does not call mutated has
  no such twins (`UnmutatedTwinFree`).
- A state passes `CheckAddrman` and meets what the check overlooks (no stale key in `mapAddr`, ids from the
  counter, valid addresses, collision set in order) if and only if it satisfies the invariant of the
  operations and its times are in order (`ConsistentIsInv`).
- Of the operations of the address manager only `Good` and `Attempt` depend on the clock for keeping its times
  in order, and `GoodTimes` and `AttemptTimes` are the exact conditions; announcing addresses and resolving
  pending collisions always keep them (`AddSingleTimes`, `ResolveOneTimes`).
- The number of steps of `GetAncestor` is not logarithmic: from height 2^k to height 2 it takes at least about
  k^2 / 4 steps (`WalkIsNotLogarithmic`), and never more than 2k(k + 1) below 2^k (`WalkIsShort`).
- The doubling step of a block locator fits into its 32-bit type if and only if the height is at most
  2^30 + 9 (`LimitIsExact`).

Hash functions, the random source, clocks, difficulty rules, block validation and sockets are parameters:
the results hold whatever they do. Soundness of a partial Merkle tree either holds or two different pairs
with the same hash are pointed out (`VerifySound`).

## Model

| member | source | states |
|---|---|---|
| `Coins.CoinsViewDB.BatchWrite` | src/txdb.cpp:82-130 | the stored coins become what the written layer showed over them |
| `Coins.CoinsViewCache.constructor` | src/coins.cpp:26 | a new cache shows exactly what its base shows |
| `Coins.CoinsViewCache.FetchCoin` | src/coins.cpp:30-43 | a fetch changes no view at any level, keeps every entry, and finds exactly what is cached or visible |
| `Coins.CoinsViewCache.GetCoin` | src/coins.cpp:44-51 | the answer is that of the flat map, and no view changes |
| `Coins.CoinsViewCache.HaveCoin` | src/coins.cpp:123-126 | true exactly for outpoints of the flat map |
| `Coins.CoinsViewCache.AddCoin` | src/coins.cpp:52-77 | the coin enters the flat map, unspendable ones are ignored; it throws exactly for an unspent coin of this cache without leave to overwrite, which keeps the view but lowers the usage counter by that coin; the flags are right afterwards exactly if no unspent coin below was passed over |
| `Coins.CoinsViewCache.SpendCoin` | src/coins.cpp:93-113 | the outpoint leaves the flat map whatever layer held it, the base is untouched, the spent coin is handed out; the result is also true for a coin cached as spent |
| `Coins.CoinsViewCache.Uncache` | src/coins.cpp:179-192 | the entry goes exactly if it is unmodified, and no view changes |
| `Coins.CoinsViewCache.WriteOne` | src/coins.cpp:139-172 | what one child entry does to the parent's entries, when it throws, and that the usage counter follows |
| `Coins.CoinsViewCache.BatchWrite` | src/coins.cpp:139-172 | the parent shows what the child showed, its invariant holds again, and the misapplied FRESH throw is unreachable |
| `Coins.CoinsViewCache.Flush` | src/coins.cpp:173-178 | the base takes over the view, the cache is empty and its usage is zero |
| `Coins.CoinsViewCache.FlushAt` | src/coins.cpp:173-178 | flushing any layer changes no view above it |
| `Coins.CoinsViewCache.UncacheAt` | src/coins.cpp:179-192 | uncaching in any layer changes no view above it |
| `Coins.WriteStep` | src/coins.cpp:139-172 | writing one entry of an order-free batch: the flag invariant holds in the parent and for the rest of the batch, which shows the same coins |
| `Coins.FreshAddNeedsAbsence` | src/coins.cpp:52-77 | the FRESH flag of a new entry keeps its promise if and only if nothing unspent lies below |
| `Coins.MisusedFreshResurrects` | src/coins.cpp:93-113 | with something below, the coin is back after being spent |
| `Coins.AddCoins` | src/coins.cpp:85-92 | all spendable outputs enter the flat map; it throws exactly when the cache holds one of them and no overwrite is allowed; the flags are right afterwards exactly if none was passed over below |
| `Coins.OutputsElsewhere` | src/coins.cpp:85-92 | adding the outputs of a transaction touches no other outpoint |
| `Coins.Run` | src/coins.cpp:30-192 | every run over a stack of any depth: the top view is the flat map, lookups and spends answer as the flat map does, and all usage counters are exact |
| `CheckQueue.StepSafe` | src/checkqueue.h:26-117 | each atomic step, the notification after the mutex is released included, keeps the invariant (outstanding work is queue plus batches in flight, no check is lost or doubled, verdicts add up, a sleeping master is owed a notification) and meets no underflow |
| `CheckQueue.RunSafe` | src/checkqueue.h:26-117 | the invariant holds in every state of every interleaving |
| `CheckQueue.WaitCorrect` | src/checkqueue.h:26-71 | `Wait` returns true exactly if all added checks pass, having run them all; false has a failed check that ran; nothing is left over and the verdict is reset |
| `CheckQueue.NoDeadlock` | src/checkqueue.h:26-71 | while the master is inside `Wait` some useful step is possible, and an unnotified sleeping master has a worker in flight |
| `CheckQueue.ProductiveDecreases` | src/checkqueue.h:26-71 | useful steps decrease a measure |
| `CheckQueue.WaitTerminates` | src/checkqueue.h:26-71 | in any run of thread steps, wake-ups out of nothing included, the number of useful steps is bounded, and a run without a useful step left has returned from `Wait` |
| `CheckQueue.InternalNeverIncreases` | src/checkqueue.h:26-71 | no step of a thread raises the measure |
| `CheckQueue.WaitIsBounded` | src/checkqueue.h:26-71 | in every interleaving, while the master is inside `Wait`, at most five useful steps for each outstanding check and two for each thread are made |
| `HeadersSync.HeadersSyncState.constructor` | src/headerssync.cpp:9-21 | the sync starts in presync with nothing accepted |
| `HeadersSync.HeadersSyncState.Finalize` | src/headerssync.cpp:22-33 | all memory is given up and nothing more is released |
| `HeadersSync.HeadersSyncState.ProcessNextHeaders` | src/headerssync.cpp:34-73 | for every message and state: when it succeeds, the next state, what is stored, what is released and when more is asked for |
| `HeadersSync.HeadersSyncState.ValidateAndStoreHeadersCommitments` | src/headerssync.cpp:74-99 | a presync message is accepted exactly if it connects, its difficulty transitions are allowed and the commitments stay within the limit; enough work starts redownload |
| `HeadersSync.HeadersSyncState.ValidateAndProcessSingleHeader` | src/headerssync.cpp:100-121 | the same for one header, with the commitments being those of all headers so far |
| `HeadersSync.HeadersSyncState.ValidateAndStoreRedownloadedHeader` | src/headerssync.cpp:122-163 | accepted exactly if it links, its difficulty is checked against its true predecessor, and it matches the commitments of presync |
| `HeadersSync.HeadersSyncState.PopHeadersReadyForAcceptance` | src/headerssync.cpp:164-176 | exactly the headers that may leave the buffer come out, in order, rebuilt from compressed form |
| `HeadersSync.CommitmentCount` | src/headerssync.cpp:100-121 | the number of commitments is the number of period heights passed |
| `HeadersSync.ReleasedIsVouchedFor` | src/headerssync.cpp:122-176 | a released header has the minimum work or at least 13959 later headers with at least 23 later matched commitments behind it |
| `HeadersSync.Receive` | src/headerssync.cpp:34-73 | whatever one message releases has the minimum work or at least 13959 later headers with 23 matched commitments behind it |
| `HeadersSync.RunSync` | src/headerssync.cpp:34-176 | over every sequence of messages the released headers are a prefix of a linked, checked and committed chain, what each message releases is vouched for by what is stored at that moment, and memory is bounded |
| `HeadersSync.ReplayAccepted` | src/headerssync.cpp:122-163 | replayed headers pass every check of redownload |
| `HeadersSync.ReplayMessage` | src/headerssync.cpp:34-73 | one replayed message succeeds, and reaching the work releases everything |
| `HeadersSync.Replay` | src/headerssync.cpp:34-176 | replaying presync in any messages succeeds throughout and hands over the whole chain with the message that reaches the work, no earlier |
| `MerkleBlock.CalcTreeWidthIsWidth` | src/merkleblock.h:17-19 | the shift formula counts the nodes of a level by halving |
| `MerkleBlock.CalcHashIsTreeHash` | src/merkleblock.cpp:42-54 | the indexed recursion is the hash of the tree over the leaves |
| `MerkleBlock.ComputeMerkleRoot` | src/consensus/merkle.cpp:3-20 | the in-place levels end in the root of the same tree, and mutation is reported exactly for equal siblings on some level |
| `MerkleBlock.BitsToBytes` | src/merkleblock.cpp:4-11 | each bit is where it belongs and the padding is clear |
| `MerkleBlock.BytesToBits` | src/merkleblock.cpp:12-19 | the inverse, with padding to whole bytes |
| `MerkleBlock.PartialMerkleTree.TraverseAndBuild` | src/merkleblock.cpp:55-67 | appends the honest proof of the subtree |
| `MerkleBlock.PartialMerkleTree.TraverseAndExtract` | src/merkleblock.cpp:68-97 | reads any bits and hashes as the recursive definition does, with all cursor and error effects |
| `MerkleBlock.PartialMerkleTree.constructor` | src/merkleblock.cpp:98-105 | builds the honest proof of the whole block |
| `MerkleBlock.PartialMerkleTree.ExtractMatches` | src/merkleblock.cpp:107-129 | the verdict on an arbitrary proof, with all size guards; indexes the caller had stay in front of the new ones |
| `MerkleBlock.ExtractSound` | src/merkleblock.cpp:68-97 | a subtree whose extracted hash is the true one reports only true matches, or a collision between a pair of the block and a pair of the proof is returned |
| `MerkleBlock.VerifySound` | src/merkleblock.cpp:68-129 | for arbitrary bits and hashes and any pair hash: a proof that yields the true root reports only transactions of the block, at their places, in order, or block and proof together show two different pairs with the same hash |
| `MerkleBlock.VerifyInjective` | src/merkleblock.cpp:68-129 | with a collision-free pair hash the reported matches are always true |
| `MerkleBlock.ExtractHonest` | src/merkleblock.cpp:68-97 | an honest proof is read back with all bits and hashes used |
| `MerkleBlock.VerifyHonest` | src/merkleblock.cpp:107-129 | an honest padded proof passes every guard; it gives the root exactly if no twins were walked |
| `MerkleBlock.LocateTwins` | src/consensus/merkle.cpp:3-20 | equal siblings in the tree are equal neighbours on a level |
| `MerkleBlock.UnmutatedTwinFree` | src/consensus/merkle.cpp:3-20 | a block not reported as mutated has no twins, whatever is matched |
| `MerkleBlock.HonestMatches` | src/merkleblock.cpp:55-67 | the honest proof is about exactly the matched transactions |
| `MerkleBlock.RoundTrip` | src/merkleblock.h:24-32 | build, pack, unpack and extract: the root and exactly the matched transactions and places, in order |
| `ArithUint256.Uint256.Set` | src/arith_uint256.h:61-68 | the value is the given number |
| `ArithUint256.Uint256.Add` | src/arith_uint256.h:101-111 | addition modulo 2^256 |
| `ArithUint256.Uint256.Not` | src/arith_uint256.h:45-51 | the complement to 2^256 - 1 |
| `ArithUint256.Uint256.Negate` | src/arith_uint256.h:52-60 | negation modulo 2^256 |
| `ArithUint256.Uint256.Sub` | src/arith_uint256.h:112-116 | subtraction modulo 2^256, exact when it does not go below zero |
| `ArithUint256.Uint256.Increment` | src/arith_uint256.h:134-140 | one more modulo 2^256, with the carry stopping early |
| `ArithUint256.Uint256.Decrement` | src/arith_uint256.h:147-153 | one less modulo 2^256, with the borrow stopping early |
| `ArithUint256.Uint256.ShiftLeft` | src/arith_uint256.cpp:10-25 | multiplication by a power of two modulo 2^256, for any amount |
| `ArithUint256.Uint256.ShiftRight` | src/arith_uint256.cpp:26-41 | floor division by a power of two, for any amount |
| `ArithUint256.Uint256.MulSmall` | src/arith_uint256.cpp:42-52 | multiplication modulo 2^256 without overflow of the 64-bit intermediate |
| `ArithUint256.Uint256.Mul` | src/arith_uint256.cpp:53-67 | the same for two wide factors |
| `ArithUint256.Uint256.Div` | src/arith_uint256.cpp:68-91 | shift and subtract is floor division; only division by zero throws |
| `ArithUint256.Uint256.CompareTo` | src/arith_uint256.cpp:92-102 | the order of the values |
| `ArithUint256.Uint256.Bits` | src/arith_uint256.cpp:155-168 | the position of the highest set bit |
| `ArithUint256.Uint256.GetLow64` | src/arith_uint256.h:189-193 | the value modulo 2^64 |
| `CompactTarget.OverflowIsExact` | src/arith_uint256.cpp:170-188 | overflow is reported exactly when mantissa times 256^(size-3) needs more than 256 bits, and decoding is exact otherwise |
| `CompactTarget.DecodeEncode` | src/arith_uint256.cpp:170-208 | encoding and decoding never overflows or invents a sign, and loses only what lies below a mantissa of at least two full bytes |
| `CompactTarget.EncodeDecode` | src/arith_uint256.cpp:170-208 | exactly the canonical compact forms that fit into 256 bits survive decoding and encoding, for every 32-bit form |
| `CompactTarget.CanonicalMayOverflow` | src/arith_uint256.cpp:170-188 | being canonical is not enough: 0x227fff00 overflows and does not come back |
| `CompactTarget.EncodeStable` | src/arith_uint256.cpp:189-208 | a second round trip changes nothing |
| `CompactTarget.SetCompact` | src/arith_uint256.cpp:170-188 | the limb code decodes size, mantissa, sign and overflow as defined on numbers |
| `CompactTarget.GetCompact` | src/arith_uint256.cpp:189-208 | the limb code encodes as defined on numbers |
| `CompactTarget.GetParts` | src/arith_uint256.cpp:189-202 | mantissa and size, with the sign bit kept free |
| `CompactTarget.TargetBelowMax` | src/chain.cpp:101-110 | a decoded target plus one does not wrap to zero |
| `CompactTarget.ComplementQuotient` | src/chain.cpp:101-110 | the division of the complement plus one is the division of 2^256 |
| `CompactTarget.GetBlockProof` | src/chain.cpp:101-110 | the work is floor(2^256 / (target + 1)), zero for a negative, zero or overflowing target |
| `CompactTarget.HarderIsMoreWork` | src/chain.cpp:101-110 | a lower target never means less work |
| `SkipList.InvertClearsLowestOne` | src/chain.cpp:62 | the bit trick subtracts the lowest power of two |
| `SkipList.GetSkipHeight` | src/chain.cpp:63-67 | a skip leads strictly down |
| `SkipList.WalkIsShort` | src/chain.cpp:62-91 | a walk over skip pointers between heights below 2^k takes at most 2k(k + 1) steps |
| `SkipList.WalkIsNotLogarithmic` | src/chain.cpp:62-91 | from height 2^k to height 2 it takes at least (k^2 - 1) / 4 steps, so no bound proportional to k holds |
| `Chain.BlockIndex.constructor` | src/node/blockstorage.cpp:74-81 | a new block is linked to its parent in height and work, and its maximal time is the larger of the parent's and its own |
| `Chain.BlockIndex.GetAncestor` | src/chain.cpp:68-91 | the skip walk ends at the block the parent walk ends at, for every height, after a number of steps at most quadratic in the bits of the height |
| `Chain.BlockIndex.BuildSkip` | src/chain.cpp:96-100 | the pointer goes to the ancestor at the skip height and the index stays closed |
| `Chain.ChainWorkIsTotal` | src/node/blockstorage.cpp:64-88 | the accumulated work is the sum over the chain modulo 2^256 |
| `Chain.BlockManager.LookupBlockIndex` | src/node/blockstorage.cpp:52-57 | the one known block with the hash; null means that no known block has it |
| `Chain.BlockManager.AddToBlockIndex` | src/node/blockstorage.cpp:64-88 | a known hash changes nothing; a new one is linked, skips included, and is best exactly if it has more work |
| `Chain.CChain.SetTip` | src/chain.cpp:13-21 | despite the early stop every height holds the ancestor of the new tip |
| `Chain.CChain.FindFork` | src/chain.cpp:45-54 | the highest block of the chain on the way to the given one: below it both agree, above it they do not meet |
| `Chain.CChain.FindEarliestAtLeast` | src/chain.cpp:55-61 | the first block that is late and high enough, or none |
| `Chain.LastCommonAncestor` | src/chain.cpp:127-139 | the highest common block, or none when there is none |
| `Chain.LocatorEntries` | src/chain.cpp:22-36 | the hashes at the locator heights, ending at genesis and not before, without overflow of the step |
| `Chain.LimitIsExact` | src/chain.cpp:22-36 | the step outgrows its type exactly for heights above 2^30 + 9 |
| `Chain.LocatorDescends` | src/chain.cpp:22-36 | the heights strictly descend |
| `Chain.LocatorIsShort` | src/chain.cpp:22-36 | the length is logarithmic, at most 41 up to height 2^30 + 9 |
| `MessageFraming.HeaderRoundTrip` | src/protocol.h:12-32 | a header is read back as written |
| `MessageFraming.HeaderUnique` | src/protocol.h:12-32 | each 24 bytes are the form of one header |
| `MessageFraming.IsCommandValid` | src/protocol.cpp:89-103 | printable characters, then only zeros |
| `MessageFraming.CommandRoundTrip` | src/protocol.cpp:77-88 | a command that fits is read back, and it is valid exactly if printable |
| `MessageFraming.ParseAppend` | src/net.cpp:500-530 | parsing may stop at any byte and go on with what was left |
| `MessageFraming.RestIsIncomplete` | src/net.cpp:500-530 | what is left holds no message and no bad header |
| `MessageFraming.FrameOutcome` | src/net.cpp:531-608 | what a frame of any message leads to: refused when oversized, dropped when not printable, delivered otherwise |
| `MessageFraming.StreamRoundTrip` | src/net.cpp:531-608 | a stream of frames parses to the messages, with nothing left |
| `MessageFraming.PartialStream` | src/net.cpp:531-608 | any prefix of it parses to the first messages, without an error |
| `NetTransport.V1TransportDeserializer.ReadHeader` | src/net.cpp:531-556 | consumes at least a byte and fails exactly on a complete bad header |
| `NetTransport.V1TransportDeserializer.ReadData` | src/net.cpp:557-568 | consumes at least a byte of an incomplete message, and no byte is lost by the growing buffer |
| `NetTransport.V1TransportDeserializer.Read` | src/net.h:222-231 | pending and unread bytes together are what they were; an error resets |
| `NetTransport.V1TransportDeserializer.Reset` | src/net.h:192-201 | nothing is pending |
| `NetTransport.V1TransportDeserializer.GetMessage` | src/net.cpp:576-600 | the data has the announced size and is exactly what arrived, and it is rejected exactly for a bad checksum or command |
| `NetTransport.V1TransportDeserializer.PendingParses` | src/net.h:211-216 | an incomplete message is what the parser would leave |
| `NetTransport.CNode.ReceiveMsgBytes` | src/net.cpp:500-530 | delivers what the parser finds in pending and new bytes, and fails exactly when it does |
| `NetTransport.ReceiveAll` | src/net.cpp:500-530 | messages and failure depend only on the bytes, not on how they were cut |
| `NetTransport.PrepareForTransport` | src/net.cpp:601-608 | writes the header of the message |
| `NetTransport.SendQueue.SocketSendData` | src/net.cpp:609-654 | bytes on the wire and queued bytes together are what was pushed, counters and pause flag agree with the queue, both asserts hold, and exactly what the socket takes goes out |
| `NetTransport.SendQueue.SendFront` | src/net.cpp:613-645 | one buffer of that loop |
| `NetTransport.SendQueue.PushMessage` | src/net.cpp:2113-2128 | the frame joins what was pushed, and it is sent at once exactly if nothing was waiting |
| `NetTransport.WillingSocketDrains` | src/net.cpp:609-654 | a socket that takes each buffer whole leaves an empty queue |
| `NetTransport.RunSender` | src/net.cpp:2113-2128 | any interleaving of pushes and sends keeps the queue invariant |
| `NetTransport.Conversation` | src/net.cpp:500-654 | over any socket behaviour and any cuts the receiver gets the first pushed messages unchanged and in order, and all of them once the queue is drained |
| `BlockEncodings.PosIncreases` | src/blockencodings.cpp:45-56 | decoded prefilled places strictly increase |
| `BlockEncodings.PlacedAt` | src/blockencodings.cpp:45-56 | accepted prefilled transactions are in bounds, at their places, and nothing else is filled |
| `BlockEncodings.FreeCount` | src/blockencodings.cpp:58-66 | as many places are free as there are short ids |
| `BlockEncodings.PartiallyDownloadedBlock.PlacePrefilled` | src/blockencodings.cpp:45-56 | invalid exactly for a null transaction or a place out of range |
| `BlockEncodings.PartiallyDownloadedBlock.MapShortIds` | src/blockencodings.cpp:58-68 | the i-th short id maps to the i-th free place, the scan stays inside, and it fails exactly for repeated ids or a crowded bucket |
| `BlockEncodings.PartiallyDownloadedBlock.UsePool` | src/blockencodings.cpp:69-90 | the mempool loop fills only matching places, counts them, and stops early only when all are filled |
| `BlockEncodings.PartiallyDownloadedBlock.UseExtra` | src/blockencodings.cpp:91-111 | the same for extra transactions, which may repeat |
| `BlockEncodings.PartiallyDownloadedBlock.InitData` | src/blockencodings.cpp:37-114 | the exact status for every compact block; filled places hold candidates with the right short id, the count is the number of them, and without collisions every known transaction is recovered |
| `BlockEncodings.PartiallyDownloadedBlock.FillBlock` | src/blockencodings.cpp:120-151 | missing and available transactions are woven together in order, and a wrong number of them is invalid |
| `BlockEncodings.MergeRebuilds` | src/blockencodings.cpp:124-133 | the missing transactions of a block rebuild it |
| `BlockEncodings.CompactEncodes` | src/blockencodings.cpp:13-22 | the sent compact block is a well-formed encoding of its block |
| `BlockEncodings.MakeCompact` | src/blockencodings.cpp:13-22 | builds it |
| `BlockEncodings.Rebuild` | src/blockencodings.cpp:37-151 | any compact block of a block, whatever it has prefilled, none of whose short ids belongs to another candidate is accepted exactly if its short ids are distinct and no bucket is crowded, and then candidates and requested transactions rebuild the block |
| `BlockEncodings.Relay` | src/blockencodings.cpp:13-151 | the same from the sender's side: the compact block made of a block is turned into that block again |
| `BlockEncodings.DifferenceFormatter.Ser` | src/blockencodings.h:10-16 | the difference to the last index, refused when not increasing |
| `BlockEncodings.DifferenceFormatter.Unser` | src/blockencodings.h:17-24 | the index, refused when beyond 16 bits |
| `BlockEncodings.WriteIndexes` | src/blockencodings.h:6-34 | exactly strictly increasing lists can be written |
| `BlockEncodings.ReadIndexes` | src/blockencodings.h:6-34 | what is read strictly increases and has the given differences; it fails exactly beyond 16 bits |
| `BlockEncodings.DifferencesUnique` | src/blockencodings.h:6-25 | differences determine the list |
| `BlockEncodings.IndexesRoundTrip` | src/blockencodings.h:6-34 | a written list is read back |
| `Bech32.ShiftIsLinear` | src/bech32.cpp:62-75 | a checksum step is linear over exclusive or |
| `Bech32.ShiftIsInjective` | src/bech32.cpp:62-75 | it loses no difference |
| `Bech32.FoldSplits` | src/bech32.cpp:62-75 | start and symbols contribute independently |
| `Bech32.ChecksumIsUnique` | src/bech32.cpp:140-157 | six symbols lead to the constant exactly if they are the computed ones |
| `Bech32.VerifyIsCreate` | src/bech32.cpp:140-157 | verification accepts exactly created checksums, under either constant |
| `Bech32.SubstitutionDetected` | src/bech32.cpp:140-146 | any one changed symbol is noticed under the same encoding |
| `Bech32.DecodeEncode` | src/bech32.cpp:159-193 | decoding an encoding returns it, exactly under the length and character limits |
| `Bech32.EncodeDecode` | src/bech32.cpp:159-193 | what decodes is the encoding of the result, in lower case |
| `Bech32.ComputePolyMod` | src/bech32.cpp:62-75 | the loop with its five conditional terms computes the fold |
| `Bech32.ComputeExpandHRP` | src/bech32.cpp:127-139 | high bits, zero, low bits of the prefix |
| `Bech32.ComputeChecksum` | src/bech32.cpp:147-157 | the checksum that verification asks for |
| `Bech32.CheckCharacters` | src/bech32.cpp:104-126 | reports in order exactly the positions out of range or not of the case of the first letter |
| `Bech32.EncodeText` | src/bech32.cpp:159-169 | prefix, separator and characters of data and checksum |
| `Bech32.DecodeText` | src/bech32.cpp:170-193 | all error branches and the result |
| `Base58.EncodeFits` | src/base58.cpp:68-99 | the buffer of 138/100 of the length holds every number |
| `Base58.DecodeFits` | src/base58.cpp:28-67 | the buffer of 733/1000 of the length holds every number |
| `Base58.Accumulate` | src/base58.cpp:79-90 | the carry loop multiplies and adds in place and the carry ends at zero |
| `Base58.DecodeEncode` | src/base58.cpp:28-99 | every byte string is read back from its text |
| `Base58.EncodeDecode` | src/base58.cpp:28-99 | every readable word is the text of its bytes |
| `Base58.EncodeBase58` | src/base58.cpp:68-99 | leading zeros as ones, then the digits of the number |
| `Base58.DecodeBase58` | src/base58.cpp:28-67 | the bytes of the word between spaces, within the length limit, or failure |
| `Base58.EncodeBase58Check` | src/base58.cpp:107-113 | the text of the bytes and their checksum |
| `Base58.DecodeBase58Check` | src/base58.cpp:114-135 | fails exactly for unreadable, short, wrong or overlong input |
| `Base58.CheckRoundTrip` | src/base58.cpp:107-135 | a checked text gives its bytes back |
| `AddrManState.SwapOk` | src/addrman.cpp:304-320 | positions and random order stay inverse |
| `AddrManState.DeleteOk` | src/addrman.cpp:321-333 | removing an unreferenced entry keeps all tables and maps consistent |
| `AddrManState.ClearNewOk` | src/addrman.cpp:334-348 | clearing a slot keeps reference counts equal to slot counts and removes an entry with its last slot |
| `AddrManState.CreateOk` | src/addrman.cpp:292-303 | the new id is unused and the entry fits |
| `AddrManState.SweepOk` | src/addrman.cpp:352-363 | after the sweep no slot refers to the entry |
| `AddrManState.EvictStage` | src/addrman.cpp:366-372 | the evicted entry is another one, without references |
| `AddrManState.ReturnStage` | src/addrman.cpp:373-379 | it gets the one slot its own source selects |
| `AddrManState.PromoteStage` | src/addrman.cpp:383-386 | the entry takes the free tried slot and all counters agree |
| `AddrManOps.MakeTriedOk` | src/addrman.cpp:349-387 | one entry becomes tried, the evicted one is new again, nothing else moves, and everything stays consistent |
| `AddrManOps.GoodOk` | src/addrman.cpp:446-477 | keeps the invariant for every time, or all of it but the one collision the caller is about to erase |
| `AddrManOps.GoodEffect` | src/addrman.cpp:446-477 | exactly when a success moves an entry, makes it wait or only refreshes it, and what happens to the entry it displaces |
| `AddrManOps.PlaceNewOk` | src/addrman.cpp:422-445 | placing an entry, or deleting it when there is no place, keeps the invariant |
| `AddrManOps.PlaceNewEffect` | src/addrman.cpp:422-445 | only the one slot changes, and it is overwritten exactly if free or its holder is worth giving up |
| `AddrManOps.AddSingleOk` | src/addrman.cpp:388-445 | keeps the invariant for every address, source, time and random draw |
| `AddrManOps.AddSingleEffect` | src/addrman.cpp:388-445 | the tried table is untouched; true means that the selected slot was given to the address and no other slot changed, false that both tables are as before; a fresh address is added exactly if routable and its slot yields |
| `AddrManOps.KnownEffect` | src/addrman.cpp:398-445 | a known address gets another place exactly if it is announced as newer, is not tried, has fewer than eight places, wins the draw, and the slot is free or held by another entry that is terrible |
| `AddrManOps.FreshEffect` | src/addrman.cpp:417-445 | the same for an unknown address, which leaves no trace when it does not fit |
| `AddrManOps.OnEntryOk` | src/addrman.cpp:489-501 | updates of times, attempts and services keep the invariant |
| `AddrManOps.ResolveOneOk` | src/addrman.cpp:598-640 | keeps the invariant and drops at most this collision |
| `AddrManOps.ResolveOneEffect` | src/addrman.cpp:598-640 | a collision is dropped if dead or its opponent proved itself within four hours, replaces it after a failed test or a missed test window, and waits otherwise |
| `AddrManOps.CollisionHasOpponent` | src/addrman.cpp:641-657 | a live collision waits for an occupied tried slot of another entry |
| `AddrManOps.SelectedSound` | src/addrman.cpp:550-576 | only qualifying entries are given out |
| `AddrManOps.SelectedComplete` | src/addrman.cpp:550-576 | every qualifying entry drawn is given out |
| `AddrManOps.SelectedDistinct` | src/addrman.cpp:550-576 | no address is given out twice |
| `AddrManOps.SelectedFrom` | src/addrman.cpp:550-576 | after any number of draws only qualifying entries are given out, none twice, and all of them at the end |
| `AddrManOps.ApplyOk` | src/addrman.cpp:388-640 | each operation keeps the invariant, whatever times it is given, and tried slots stay occupied |
| `AddrManOps.RunOk` | src/addrman.cpp:388-640 | so does every run; ids are never reused for another address |
| `AddrManTimes.AddSingleTimes` | src/addrman.cpp:388-445 | announcements never put the times out of order |
| `AddrManTimes.GoodTimes` | src/addrman.cpp:446-477 | a success keeps the times in order exactly if the address is unknown, its time is positive, or it is zero and the entry neither is nor becomes tried |
| `AddrManTimes.AttemptTimes` | src/addrman.cpp:489-501 | an attempt keeps them in order exactly if the address is unknown or its time is not negative |
| `AddrManTimes.ResolveOneTimes` | src/addrman.cpp:598-640 | resolving a pending collision keeps them in order whatever the clock says |
| `AddrManTimes.RunTimes` | src/addrman.cpp:388-640 | they stay in order over every run whose successes have positive times and whose attempts have times that are not negative |
| `AddrManager.AddrManImpl.constructor` | src/addrman.cpp:73-89 | an empty manager |
| `AddrManager.AddrManImpl.SwapRandom` | src/addrman.cpp:304-320 | the two places are exchanged, back pointers included |
| `AddrManager.AddrManImpl.Delete` | src/addrman.cpp:321-333 | the entry, its address and its place are gone |
| `AddrManager.AddrManImpl.ClearNew` | src/addrman.cpp:334-348 | the slot is empty, its entry one reference poorer or gone |
| `AddrManager.AddrManImpl.SweepNew` | src/addrman.cpp:352-363 | the circular walk with its early stop removes every slot of the entry, and the assert holds |
| `AddrManager.AllSwept` | src/addrman.cpp:352-363 | a full circle, or as many finds as references, leaves no slot |
| `AddrManager.AddrManImpl.EvictTried` | src/addrman.cpp:366-382 | the tried slot is emptied and its entry returned to the new table |
| `AddrManager.AddrManImpl.MakeTried` | src/addrman.cpp:349-387 | the table code performs the operation and its asserts hold |
| `AddrManager.AddrManImpl.Find` | src/addrman.cpp:279-291 | finds exactly known addresses |
| `AddrManager.AddrManImpl.Create` | src/addrman.cpp:292-303 | the entry is entered everywhere under the next id |
| `AddrManager.AddrManImpl.AddSingle` | src/addrman.cpp:388-445 | performs the operation and stays valid |
| `AddrManager.AddrManImpl.Add` | src/addrman.cpp:478-488 | adds one after the other and reports whether any was added |
| `AddrManager.AddrManImpl.Good` | src/addrman.cpp:446-477 | performs the operation, and reports a move exactly if the entry became tried |
| `AddrManager.AddrManImpl.Attempt` | src/addrman.cpp:489-501 | counts a failure at most once per success, and stays valid |
| `AddrManager.AddrManImpl.Connected` | src/addrman.cpp:577-588 | only a stale time is refreshed |
| `AddrManager.AddrManImpl.SetServices` | src/addrman.cpp:589-597 | only the services change |
| `AddrManager.AddrManImpl.ResolveOne` | src/addrman.cpp:598-640 | one collision is settled as its age and outcome say |
| `AddrManager.AddrManImpl.ResolveCollisions` | src/addrman.cpp:598-640 | every collision is dealt with once, in the order of the ids, none is added, and the times stay in order whatever the clock says |
| `AddrManager.AddrManImpl.SelectTriedCollision` | src/addrman.cpp:641-657 | hands out the opponent of a pending collision, never of an empty slot; a dead one is dropped |
| `AddrManager.AddrManImpl.GetAddr` | src/addrman.cpp:550-576 | a random selection of qualifying entries, no address twice, within the limits; fewer than the limit means that every qualifying entry is there |
| `AddrManCheck.InvIsConsistent` | src/addrman.cpp:688-768 | states between operations whose times are in order pass the check |
| `AddrManCheck.ReachablePasses` | src/addrman.cpp:688-768 | every state reached from an empty manager passes the check if successes have positive times and attempts times that are not negative |
| `AddrManCheck.ConsistentIsInv` | src/addrman.cpp:688-768 | a state is one the operations preserve, with its times in order, if and only if it passes the check and the conditions the check overlooks |
| `AddrManCheck.RandomFromCount` | src/addrman.cpp:695-719 | comparing sizes is enough for the random order to hold every entry once |
| `AddrManCheck.CheckEntries` | src/addrman.cpp:697-726 | zero exactly if every entry is in order |
| `AddrManCheck.CheckTriedTable` | src/addrman.cpp:731-746 | zero exactly if the tried table holds each tried entry at its slot and nothing else |
| `AddrManCheck.CheckNewTable` | src/addrman.cpp:747-764 | zero exactly if slots are at hash positions and reference counts are slot counts |
| `AddrManCheck.CheckAddrman` | src/addrman.cpp:688-768 | zero exactly on consistent states, so on every valid manager whose times are in order |
| `AddrManSerial.KindCounts` | src/addrman.cpp:95-142 | as many entries of each kind are written as the counters announce, within the limits of the reader |
| `AddrManSerial.LoadedEntries` | src/addrman.cpp:190-217 | after the entries are read none is lost and each is a copy under its place in the stream |
| `AddrManSerial.LoadedTables` | src/addrman.cpp:218-258 | after the buckets are read every slot is back |
| `AddrManSerial.RoundTrip` | src/addrman.cpp:95-278 | reading what was written gives the same entries, tables, maps and counts up to the names of ids, and passes the final check if the times were in order |
| `AddrManFile.Serialize` | src/addrman.cpp:95-142 | the loops over map and table write the saved form, and the asserts hold |
| `AddrManFile.ReadTables` | src/addrman.cpp:170-258 | the loops read any records and buckets as defined |
| `AddrManFile.PruneEntries` | src/addrman.cpp:259-268 | every entry is visited once and those without a place are deleted |
| `AddrManFile.Unserialize` | src/addrman.cpp:144-278 | for any file: refused on a bad version, or on counts that are too large after these were stored; accepted exactly if the result is consistent, and then always valid |
| `AddrManFile.AcceptedIsInv` | src/addrman.cpp:259-278 | an accepted file leaves a state that every operation preserves |
| `AddrManFile.SaveAndLoad` | src/addrman.cpp:95-278 | a valid manager whose times are in order, written and read into a fresh one, is accepted, valid and the same up to renaming |
| `AddrManRebucket.SaneIsAccepted` | src/addrman.cpp:144-278 | what is loaded from records with valid, distinct addresses and successes that fit their tables passes the final check under any hash functions and any buckets; every tried slot that is wanted is occupied, and each referenced new entry is there or its slot is occupied |
| `AddrManRebucket.Rebucketed` | src/addrman.cpp:230-268 | a saved manager read under other hash functions, with or without the same network map, for which its addresses are valid too, is accepted and valid, adds and changes nothing, and loses only entries whose slots others have taken |
| `AddrManRebucket.SaveAndRebucket` | src/addrman.cpp:95-278 | the same for the code that writes and reads |

## Left out

- Best-block hashes, the database format, cursors and cache reallocation of the coins views: they do not affect the coins.
- Coins.CoinsViewCache.AddCoin: memory of a script is taken as a function of its length, and counters do not wrap.
- Stop requests of the check queue and the 32-bit width of its counters: shutdown is not part of the protocol's promise.
- HeadersSync.HeadersSyncState.constructor: the limit on commitments and the random offset are parameters, since they come from the clock and the random source.
- `NextHeadersRequestLocator` and overflow of heights in headers sync: easy, and out of reach of real chains.
- `CMerkleBlock` and bloom filters: they only choose the matches; counts in partial Merkle trees are unbounded integers.
- Conversions of 256-bit integers to and from text and floating point, and the bitwise assignments: easy, or about rounding.
- Chain.LocatorEntries: requires a height of at most 2^30 + 9; above it the code overflows a signed integer (`LimitIsExact`), which has no defined result.
- Chain.BlockManager.AddToBlockIndex: a block whose hash is its parent hash gets no parent, where the code would find the new block itself; this needs a fixed point of the hash function.
- Block status flags, files and pruning of the block index: separate bookkeeping.
- Per-type byte counts, times and the logging of the transport; the socket is a script of answers; encrypted transport is not in these files.
- BlockEncodings.PartiallyDownloadedBlock.InitData: whether a bucket of the hash map is crowded is a parameter, the statistic on extra transactions is not modelled, and the 65535 limit of deserialization is a precondition.
- BlockEncodings.PartiallyDownloadedBlock.FillBlock: block validation is a parameter.
- Derivation of the short-id keys, and the compact-size encoding of lengths: hashing and byte layout.
- `LocateErrors` of Bech32: its search over a field of 1024 elements rests on generated tables.
- Base58.DecodeBase58: lengths are unbounded integers and the limit is not negative.
- `Select_`, `GetChance` and `FindAddressEntry_` of the address manager: a random walk with floating-point odds, and a plain lookup.
- AddrManCheck.CheckAddrman: the last test, that the key is not null, and the values of the error codes are not modelled, because the key only enters the hash functions.
- AddrManFile.Unserialize: negative counts and a stream that ends early, on which the code throws, cannot be expressed; a bucket of negative size stands for an empty one, as which the code reads it.
- AddrManFile.Serialize: records stand for the bytes of an entry, and the key of the hash functions is part of the parameter that stands for them.
- Locks and concurrency outside the check queue: the modelled classes are used under their mutexes.
- Consensus and script rules, mempool, wallet, RPC, start-up and storage: other components, many of them wrappers over libraries.
