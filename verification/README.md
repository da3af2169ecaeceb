# Verified models of network functions and their performance interfaces

The repository extracts performance interfaces from network functions. This project models the parts of it whose
behaviour is hard to get right, and proves what they are for, over all inputs and all runs:

- **the learning bridge** down to its containers: the linked cells of the index chain, the probe paths and crossing
  counts of the hash table, the expiry loop, and the abstract forwarding table that all of it refines
  (`ChainSpec`, `DoubleChain`, `AssocList`, `Modulo`, `HashMap`, `BridgeTable`, `Bridge`, `BridgeRuns`);
- **the Katran load balancer**: the connection table in front of the consistent-hash ring, the limit on new
  connections, the counters (`KatranSpec`, `Balancer`, `KatranRuns`, `KatranLaws`, `KatranIsolation`,
  `KatranCounters`, `RateLimiter`);
- **Internet checksums and packet surgery** in place: encapsulation, decapsulation, TTL, echo replies, and the Crab
  rewriting of SYNs (`Checksum`, `Packet`, `Ipv4`, `Encap`, `Icmp`, `Crab`);
- **the algebra of performance formulas** and the relation of the symbolic to the numeric contracts (`PerfFormula`,
  `MapCosts`, `ExpireCosts`);
- **the pointer chase** of the memory latency benchmark (`Gcd`, `PointerChase`);
- **the Jenkins hash, the firewall and the regression** (`JHash`, `Firewall`, `Regression`).

`Options` holds the type of values that may be missing, `Bits` exclusive or.

`dafny verify dfyconfig.toml` checks the whole project.

State that the programs update in place is a class or an array with methods proved against functions of the old state;
laws over runs are lemmas about those functions. Bytes are numbers below 256; 16-bit words are little-endian as the
programs load them. Machine arithmetic that wraps is written out, except for the counters named below.

## What turned out differently

The code is modelled as it is. Where it does not do what its comments, its annotations or the obvious reading promise,
a lemma shows the failing family and the exact condition:

- the set-equality of refreshed bridge tables is stated for all tables but needs distinct addresses (`RejuvSetEqIff`),
  and the expiry lemma asks for no coherence but fails without (`ExpireAbstractNeedsCoherence`, `ExpireAbstractIff`);
- the fast modulo of the hash table needs a power of two, which the configuration does not check (`LoopIsModuloIff`,
  `AllReachedIff`), and without one the map gets stuck with buckets left (`StuckIff`);
- freeing an index of the chain is declared to leave an index that is not allocated alone and to report it, but
  reports success and destroys the lists (`FreeOfFreeFails`, `FreeKeepsRingsIff`);
- port 65535 of the bridge is the code for flooding (`FloodPortFails`, `FloodedIff`);
- the pointer chase skips lines unless elements and stride are coprime (`WholeBufferIff`, `BufferTouchedIff`), and the
  benchmark loop makes one round too many (`BenchLoop`);
- the product of formulas loses terms as soon as two pairs of keys spell the same product (`MultiplyExactIff`), and the
  expiry formula is 2 short of the numeric contract in one metric (`FormulaIsBoundIff`);
- the connection table of the load balancer confuses IPv4 and IPv6 flows with equal words (`LruTransparentIff`; traffic
  of one family is safe, `TransparentInFamily`), and is useless for VIPs that hash by destination port
  (`DportOnlyFoundIff`);
- a VIP without a real can change where another VIP's packets go, through the limit on new connections (`ToldApart`,
  `IsolatedIff`);
- an IPv6 client on an IPv4 real comes out of the tunnel as a damaged IPv4 packet (`EtherTypeRestoredIff`,
  `MismatchedSource`), the packet of an IPv4 client on an IPv6 real is sent elsewhere (`ReachesRealIff`,
  `TunnelWorksIff`), IPv6 in IPv4 loses 20 bytes at the receiver (`ReceivedFields`), and a TTL
  of zero wraps to 255 with a wrong checksum (`DecrementFails`, `DecrementKeepsValidIff`);
- the echo replies lose a carry or a borrow of the checksum (`EchoReplyFails`, `EchoReplyValidIff`, `Echo6ReplyFails`,
  `Echo6ReplyVerifiesIff`);
- the SYN checksum covers at most ten whole words after its option (`LongSynFails`, `NewSynVerifiesIff`), and a data
  offset of 14 or 15 wraps around (`FullSynFails`, `OffsetGrownIff`);
- the firewall admits flows whose addresses and ports are crossed (`OnlyRepliesIff`).

## Model

| member | source | states |
|---|---|---|
| `ChainSpec.StaleCount` | dpdk-nfs/nf/lib/containers/double-chain.h:128-150 | the number of stale stamps at the front of a chain: everything before is older than the threshold, the first one after is not |
| `ChainSpec.ExpireOldIsSuffix` | dpdk-nfs/nf/lib/containers/double-chain.h:132-158 | on a time-sorted chain, removing every stale index wherever it stands leaves exactly the suffix that popping the front leaves, which holds exactly the stamps not older than the threshold |
| `ChainSpec.ExpiredIsPrefix` | dpdk-nfs/nf/lib/containers/double-chain.h:132-142 | on a time-sorted chain the expired indices are the indices of its stale prefix |
| `ChainSpec.AllocateAdds` | dpdk-nfs/nf/lib/containers/double-chain.h:64-70 | on any chain, allocating makes exactly one index allocated, at its time; no index is duplicated or leaves the range, and other times stay |
| `ChainSpec.AllocateKeepsOrder` | dpdk-nfs/nf/lib/containers/double-chain.h:64-70 | allocating at a time not before any stamp keeps the chain sorted and bounded |
| `ChainSpec.RejuvenateAt` | dpdk-nfs/nf/lib/containers/double-chain.h:81-88 | position by position, rejuvenation moves one stamp to the end with the new time and keeps the order of the others |
| `ChainSpec.RejuvenateKeepsOrder` | dpdk-nfs/nf/lib/containers/double-chain.h:81-88 | rejuvenation keeps sortedness, distinctness, range and time bound |
| `ChainSpec.RejuvenateTimes` | dpdk-nfs/nf/lib/containers/double-chain.h:81-103 | rejuvenation allocates and frees nothing and changes only the time of its own index |
| `DoubleChains.DoubleChain.constructor` | dpdk-nfs/nf/lib/containers/double-chain-impl.c:371-413 | a new chain has empty value and the whole range free |
| `DoubleChains.DoubleChain.ImplAllocateNewIndex` | dpdk-nfs/nf/lib/containers/double-chain-impl.c:1244-1469 | on the linked cells: succeeds exactly when the free list is not empty; takes its first cell and makes it the last member of the ring, both lists staying rings that partition the cells |
| `DoubleChains.DoubleChain.ImplFreeIndex` | dpdk-nfs/nf/lib/containers/double-chain-impl.c:1896-2116 | for every index in range: the cells become those of the stores and 1 is reported; an allocated index moves to the front of the free list with both rings kept; freeing the only free index changes nothing; freeing any other free index leaves cells that form no two lists |
| `DoubleChains.FreeKeepsRingsIff` | dpdk-nfs/nf/lib/containers/double-chain-impl.h:167-174 | the declaration promises no change and 0 for an index that is not allocated; after the stores the cells form two lists that share them out if and only if the index was allocated or the only free one |
| `DoubleChains.FreeOfFreeFails` | dpdk-nfs/nf/lib/containers/double-chain-impl.h:167-174 | two free cells: freeing the first leaves both pointing at themselves |
| `DoubleChains.DoubleChain.ImplRejuvenateIndex` | dpdk-nfs/nf/lib/containers/double-chain-impl.c:2230-2473 | succeeds exactly for allocated indices, found from the cell's links alone, and moves the cell to the end of the ring |
| `DoubleChains.LinksTellAllocated` | dpdk-nfs/nf/lib/containers/double-chain-impl.c:2476-2485 | the allocation test on one cell's two links is right for every ring: a cell is allocated if and only if its links differ or point at the head |
| `DoubleChains.UnlinkKeepsRing` | dpdk-nfs/nf/lib/containers/double-chain-impl.c:1896-2116 | bypassing a cell leaves the doubly linked ring of the others |
| `DoubleChains.LinkLastKeepsRing` | dpdk-nfs/nf/lib/containers/double-chain-impl.c:1244-1469 | linking an outside cell before the head makes it the newest member of a ring |
| `DoubleChains.MoveToEnd` | dpdk-nfs/nf/lib/containers/double-chain-impl.c:2230-2473 | unlinking and relinking last keeps the ring, moved, and the partition of cells between the lists |
| `DoubleChains.StampMovedToEnd` | dpdk-nfs/nf/lib/containers/double-chain.c:622-679 | moving a cell and restamping it is rejuvenation of the abstract chain |
| `DoubleChains.DoubleChain.AllocateNewIndex` | dpdk-nfs/nf/lib/containers/double-chain.c:348-398 | refines the abstract chain: succeeds exactly when fewer indices than the range are allocated, gives an unallocated one and appends it with its time |
| `DoubleChains.DoubleChain.RejuvenateIndex` | dpdk-nfs/nf/lib/containers/double-chain.c:622-679 | refines abstract rejuvenation, and reports exactly whether the index was allocated |
| `DoubleChains.DoubleChain.ExpireOneIndex` | dpdk-nfs/nf/lib/containers/double-chain.c:780-835 | frees the oldest index if and only if its stamp is before the threshold, and says which |
| `DoubleChains.DoubleChain.IsIndexAllocated` | dpdk-nfs/nf/lib/containers/double-chain.c:838-847 | true exactly for the indices of the abstract chain |
| `AssocList.EraseDrops` | dpdk-nfs/nf/lib/containers/map-impl.h:57-62 | erasing a key drops its binding and nothing else |
| `AssocList.PutAdds` | dpdk-nfs/nf/lib/containers/map-impl.h:52-56 | putting a new key binds it and changes no other |
| `AssocList.EraseAnotherOne` | dpdk-nfs/nf/lib/containers/map-impl.h:75-83 | erasing one more key after a list of keys is erasing the longer list |
| `AssocList.EraseAllDrops` | dpdk-nfs/nf/lib/containers/map-impl.h:63-68 | erasing a list of keys leaves exactly the bindings of the other keys |
| `HashMaps.LoopIsModuloIff` | dpdk-nfs/nf/lib/containers/map-impl.c:44-57 | the two masks and an addition of loop are the modulo for every argument if and only if the capacity is a power of two |
| `HashMaps.AllReachedIff` | dpdk-nfs/nf/lib/containers/map-impl.c:44-57 | for every capacity the fast modulo stays in range, and it reaches every bucket if and only if the capacity is a power of two |
| `HashMaps.LoopIsProbe` | dpdk-nfs/nf/lib/containers/map-impl.c:44-57 | with a power of two, the fast modulo walks the probe path and wraps at the end |
| `HashMaps.SomeBucketEmpty` | dpdk-nfs/nf/lib/containers/map-impl.c:1150-1267 | fewer busy buckets than capacity means there is an empty bucket to find |
| `HashMaps.StuckIff` | dpdk-nfs/nf/lib/containers/map-impl.c:1150-1267 | busy bits below capacity on which the search for an empty bucket fails for every hash exist if and only if the capacity is not a power of two; the next key is then stored at index -1 |
| `HashMaps.FillKeepsStored` | dpdk-nfs/nf/lib/containers/map-impl.c:2213-2284 | filling an empty bucket with a new key extends the stored association list by that binding |
| `HashMaps.FreeKeepsStored` | dpdk-nfs/nf/lib/containers/map-impl.c:2477-2528 | freeing a key's bucket removes exactly its binding |
| `HashMaps.HashMap.constructor` | dpdk-nfs/nf/lib/containers/map-impl.c:1508-1573 | every capacity gives an empty table, and the invariant of a map holds if and only if the capacity is a power of two |
| `HashMaps.HashMap.StoredKeyCrosses` | dpdk-nfs/nf/lib/containers/map-impl.c:628-755 | every bucket before a stored key on its probe path has a positive crossing count, so a lookup may stop at zero |
| `HashMaps.HashMap.Search` | dpdk-nfs/nf/lib/containers/map-impl.c:628-755 | the walk on any buckets: it ends at the first bucket that holds the key or that has another hash and is crossed by nothing; the two counters are exactly the buckets walked and the buckets among them with the same hash and another key |
| `HashMaps.HashMap.FindKey` | dpdk-nfs/nf/lib/containers/map-impl.c:628-755 | finds the bucket of the key if and only if it is stored, whatever the collisions, with both counters exact; on a hit the walk is the key's probe distance plus one |
| `HashMaps.HashMap.FindEmpty` | dpdk-nfs/nf/lib/containers/map-impl.c:1150-1267 | returns an empty bucket and adds one crossing to exactly the buckets before it on the path |
| `HashMaps.HashMap.FindKeyRemoveChain` | dpdk-nfs/nf/lib/containers/map-impl.c:815-1011 | frees the key's bucket and takes one crossing from exactly the buckets before it |
| `HashMaps.HashMap.TakenCrossing` | dpdk-nfs/nf/lib/containers/map-impl.c:1150-1267 | taking a bucket changes the number of keys crossing each other bucket by exactly the one on its path |
| `HashMaps.HashMap.Get` | dpdk-nfs/nf/lib/containers/map.c:132-158 | found exactly when the abstract map has the key, with its value |
| `HashMaps.HashMap.ImplPut` | dpdk-nfs/nf/lib/containers/map-impl.c:2213-2284 | fills one empty bucket and nothing else and updates the crossing counts |
| `HashMaps.HashMap.Put` | dpdk-nfs/nf/lib/containers/map.c:160-185 | the abstract map gains the binding; counts, hashes and busy bits stay consistent |
| `HashMaps.HashMap.Erase` | dpdk-nfs/nf/lib/containers/map.c:218-249 | the abstract map loses the binding and keeps the others; the representation stays consistent |
| `BridgeTable.CoherentPair` | dpdk-nfs/nf/lib/coherence.h:46-66 | under coherence a pair is in the map if and only if its index is allocated and the key vector names it |
| `BridgeTable.CoherentEmpty` | dpdk-nfs/nf/lib/coherence.h:100-103 | the empty map, any key vector and the empty chain are coherent |
| `BridgeTable.CoherentPut` | dpdk-nfs/nf/lib/coherence.h:116-126 | learning a new key at a fresh index keeps map, vector and chain coherent |
| `BridgeTable.CoherentExpireOne` | dpdk-nfs/nf/lib/coherence.c:516-527 | erasing an allocated index's key from the map and the index from the chain keeps coherence and shrinks the map by one; the source leaves it unproved |
| `BridgeTable.CoherentRejuvenate` | dpdk-nfs/nf/lib/coherence.h:71-80 | rejuvenation keeps coherence |
| `BridgeTable.CoherentSameSize` | dpdk-nfs/nf/lib/coherence.h:92-98 | a coherent map has as many keys as the chain has indices |
| `BridgeTable.OutOfSpaceAgrees` | dpdk-nfs/nf/bridge/abstract-state.c:132-143 | the chain is out of indices exactly when the abstract table is full |
| `BridgeTable.DynMapHas` | dpdk-nfs/nf/bridge/abstract-state.c:98-107 | the map has a key exactly when the abstract table does |
| `BridgeTable.DynMapHasGet` | dpdk-nfs/nf/bridge/abstract-state.c:119-130 | looking a key up in the abstract table gives the value vector's entry at the map's index |
| `BridgeTable.BridgeAddEntry` | dpdk-nfs/nf/bridge/abstract-state.c:27-44 | abstraction commutes with learning |
| `BridgeTable.BridgeRejuvEntry` | dpdk-nfs/nf/bridge/abstract-state.c:46-61 | abstraction commutes with refreshing |
| `BridgeTable.BridgeExpireAbstract` | dpdk-nfs/nf/bridge/abstract-state.c:6-23 | abstraction commutes with expiry: erasing the stale keys from the map and the stale indices from the chain removes from the table exactly the entries older than the threshold; the source leaves it unproved and asks no coherence |
| `BridgeTable.ExpireAbstractIff` | dpdk-nfs/nf/bridge/abstract-state.c:6-23 | without coherence: the expired map and chain give the expired table if and only if every binding's key is named by a stale index exactly when its own index is stale, and expiry leaves the times of the others alone |
| `BridgeTable.ExpireAbstractNeedsCoherence` | dpdk-nfs/nf/bridge/abstract-state.c:6-23 | an incoherent map and vector on which expiry leaves an entry too many |
| `BridgeTable.BridgeAddEntrySetEq` | dpdk-nfs/nf/bridge/abstract-state.c:76-88 | learning keeps tables with the same entries alike |
| `BridgeTable.BridgeRejuvEntrySetEq` | dpdk-nfs/nf/bridge/abstract-state.c:63-74 | refreshing keeps tables with the same entries alike when no address is listed twice |
| `BridgeTable.RejuvSetEqIff` | dpdk-nfs/nf/bridge/abstract-state.c:63-74 | as stated in the source, for every pair of tables, it holds exactly when all entries of the address already carry the new time |
| `Bridges.MinTimeIsDifference` | dpdk-nfs/nf/bridge/bridge_forward.c:43-59 | the unsigned subtraction and conversion back is the plain difference for every time and expiration |
| `Bridges.PoppedOneMore` | dpdk-nfs/nf/lib/expirator.h:65-85 | each pop erases the next stale key and keeps coherence |
| `Bridges.PoppedAll` | dpdk-nfs/nf/lib/expirator.h:65-85 | when no stale stamp is left, chain and map abstract to the expired table, and as many were popped as had expired |
| `Bridges.Bridge.constructor` | dpdk-nfs/nf/bridge/bridge_forward.c:273-300 | every capacity gives an empty table, and the invariant of the bridge holds if and only if the capacity is a power of two |
| `Bridges.Bridge.ExpireItemsSingleMap` | dpdk-nfs/nf/lib/expirator.c:131-248 | the loop removes from chain, map and table exactly the entries older than the threshold and returns their number |
| `Bridges.Bridge.ExpireEntries` | dpdk-nfs/nf/bridge/bridge_forward.c:43-59 | the same with the threshold of the configuration, before the first expiration time too |
| `Bridges.Bridge.GetDevice` | dpdk-nfs/nf/bridge/bridge_forward.c:61-79 | the port of the abstract table, or -1 |
| `Bridges.Bridge.PutUpdateEntry` | dpdk-nfs/nf/bridge/bridge_forward.c:81-108 | the abstract table is refreshed if the source is known, else extended if there is room, else unchanged |
| `Bridges.Bridge.Process` | dpdk-nfs/nf/bridge/bridge_forward.c:302-333 | one frame: coherence is kept, and table and answer are those of the abstract step expire, learn or refresh, look up or flood |
| `Bridges.Bridge.ProcessAll` | dpdk-nfs/nf/bridge/bridge_forward.c:302-333 | over every run of frames in time order the arrays, links and buckets refine the abstract table, and every answer comes from it |
| `BridgeRuns.StepLookup` | dpdk-nfs/nf/bridge/bridge_forward.c:302-333 | what one frame does to one station's entry, for every table |
| `BridgeRuns.RunDistinct` | dpdk-nfs/nf/bridge/bridge_loop.h:15-43 | no run lists an address twice |
| `BridgeRuns.EntryHistory` | dpdk-nfs/nf/bridge/bridge_forward.c:81-108 | behind every surviving entry of every run there is the frame that created it, on its port, and the last frame that refreshed it; in between, every frame of any station came at most the expiration time after one of this station |
| `BridgeRuns.NeverSilent` | dpdk-nfs/nf/bridge/bridge_forward.c:81-108 | so with frames in time order the station of a surviving entry was at no frame silent for longer than the expiration time, and consecutive frames of it are no further apart |
| `BridgeRuns.TableIsStations` | dpdk-nfs/nf/bridge/bridge_forward.c:302-333 | with no more stations than capacity, the table is the product of one small automaton per station |
| `BridgeRuns.StationRecency` | dpdk-nfs/nf/bridge/bridge_forward.c:43-59 | a station is known exactly when it sent a frame within the expiration time |
| `BridgeRuns.StationStreak` | dpdk-nfs/nf/bridge/bridge_forward.c:81-108 | the port of a known station is that of the frame that began its current streak |
| `BridgeRuns.BeganOnce` | dpdk-nfs/nf/bridge/bridge_forward.c:81-108 | there is only one such frame |
| `BridgeRuns.Forwarding` | dpdk-nfs/nf/bridge/bridge_forward.c:302-333 | closed form of the answers of every run in time order, without any table: flood if the destination sent nothing within the expiration time, otherwise the port of the frame that began its current streak, before which it was silent for longer than the expiration time and since which it never was |
| `BridgeRuns.FloodedIff` | dpdk-nfs/nf/bridge/bridge_forward.c:302-333 | a frame of such a run is flooded if and only if its destination sent nothing within the expiration time or began its current streak on port 65535 |
| `BridgeRuns.FloodPortFails` | dpdk-nfs/nf/bridge/bridge_forward.c:302-333 | a run of two frames, the second of which is flooded although its destination was just heard |
| `PointerChase.SizeIsWholeLines` | ir-perf/generate_load_latency_ir.py:217-220 | whatever size is asked for, the buffer is one line longer than its elements |
| `PointerChase.SizeInBytes` | ir-perf/generate_load_latency_ir.py:60-63 | from the bytes asked for: the elements are the whole lines of the size and at least one, and the buffer is the least number of whole lines that is longer than the size and than a line |
| `PointerChase.SuccIsPermutation` | ir-perf/generate_load_latency_ir.py:79-143 | the successor map of the two loops is a permutation of the lines, with its inverse |
| `PointerChase.StoreInBounds` | ir-perf/generate_load_latency_ir.py:79-106 | the first emitted store loop leaves its successor in every line whose successor lies in the buffer |
| `PointerChase.StoreOutOfBounds` | ir-perf/generate_load_latency_ir.py:108-134 | the second does so for the lines whose successor wraps, except the last |
| `PointerChase.InitChain` | ir-perf/generate_load_latency_ir.py:79-143 | the two loops and the last store leave in every line the address of its successor |
| `PointerChase.InitBuffer` | ir-perf/generate_load_latency_ir.py:65-143 | the same, and a single element points to itself |
| `PointerChase.WalkIsMultiple` | ir-perf/generate_load_latency_ir.py:79-143 | the k-th load of a lap is at the k-th multiple of the stride modulo the number of elements |
| `PointerChase.WalkPeriod` | ir-perf/generate_load_latency_ir.py:79-143 | the chase returns to the start after exactly n / gcd(n, s) + 1 loads |
| `PointerChase.WalkDistinct` | ir-perf/generate_load_latency_ir.py:79-143 | within a lap no line is loaded twice |
| `PointerChase.VisitedLines` | ir-perf/generate_load_latency_ir.py:79-143 | the chase visits exactly the lines divisible by gcd(n, s) |
| `PointerChase.WholeBufferIff` | ir-perf/generate_load_latency_ir.py:79-143 | it visits the whole buffer if and only if elements and stride are coprime |
| `PointerChase.BenchLoop` | ir-perf/generate_load_latency_ir.py:166-201 | after initialising, the benchmark loop ends where that many loads lead, for a single element too; it makes one round more than the iterations asked for |
| `PointerChase.BufferTouchedIff` | ir-perf/generate_load_latency_ir.py:212-220 | from size and stride in bytes: the chase touches every line of the buffer if and only if the size holds two lines and the number of whole lines in it is coprime to the stride in lines |
| `PointerChase.Generated` | ir-perf/generate_load_latency_ir.py:212-220 | the program generated for a size and a stride: the buffer has one line more than the whole lines of the size, is initialised, and chased to where that many loads lead |
| `Gcds.GcdDivides` | ir-perf/generate_load_latency_ir.py:79-143 | the gcd used above divides both numbers |
| `Gcds.GcdGreatest` | ir-perf/generate_load_latency_ir.py:79-143 | and every common divisor divides it |
| `PerfFormulas.Add` | dpdk-nfs/perf-contracts/perf-contracts.cpp:97-109 | the loop computes the sum of the formulas term by term, in whatever order the terms come, and keeps the check |
| `PerfFormulas.PlusAddsValues` | dpdk-nfs/perf-contracts/perf-contracts.cpp:97-109 | the value of the sum is the sum of the values, for all formulas and all meanings of the keys |
| `PerfFormulas.PlusKeepsCheck` | dpdk-nfs/perf-contracts/perf-contracts.cpp:74-95 | the sum of checked formulas is checked |
| `PerfFormulas.CheckedIff` | dpdk-nfs/perf-contracts/perf-contracts.cpp:74-95 | a formula over loop counters passes the check if and only if its keys are the constant or words in the letters of the four counters; over function calls, if and only if they are given names or the constant |
| `PerfFormulas.Multiply` | dpdk-nfs/perf-contracts/perf-contracts.cpp:111-139 | the nested loops store under every product key the product of some pair with that key, and no other keys |
| `PerfFormulas.ProductKeepsCheck` | dpdk-nfs/perf-contracts/perf-contracts.cpp:111-139 | the product of checked formulas is checked |
| `PerfFormulas.ProductValue` | dpdk-nfs/perf-contracts/perf-contracts.cpp:111-139 | without key collisions the value of the product is the product of the values |
| `PerfFormulas.DisjointMeansNoCollision` | dpdk-nfs/perf-contracts/perf-contracts.cpp:114-124 | the assumption written in the source, disjoint counters, suffices |
| `PerfFormulas.SharedCounterCollides` | dpdk-nfs/perf-contracts/perf-contracts.cpp:114-124 | a counter and a constant on both sides are enough to collide |
| `PerfFormulas.MultiplyExactIff` | dpdk-nfs/perf-contracts/perf-contracts.cpp:111-139 | multiplication preserves value for all coefficients and counters if and only if no two pairs of keys spell the same product |
| `MapCosts.ImplFormula` | dpdk-nfs/perf-contracts/map-impl-contracts.cpp:331-481 | the formula built by the implementation contracts is linear with the metric's coefficients |
| `MapCosts.WrapFormula` | dpdk-nfs/perf-contracts/map-contracts.cpp:268-312 | the wrappers add their constant and the hash |
| `MapCosts.MapGetFormula` | dpdk-nfs/perf-contracts/map-contracts.cpp:268-312 | the symbolic contract of get evaluates exactly to the numeric one for all t >= 1 and 0 <= c < t, hit or miss, in the four count metrics and for all key types |
| `MapCosts.MapEraseFormula` | dpdk-nfs/perf-contracts/map-contracts.cpp:352-392 | the same for erase |
| `MapCosts.GetIsLinear` | dpdk-nfs/perf-contracts/map-impl-contracts.cpp:81-178 | the numeric contract of get, with its special branch for one traversal, is linear |
| `MapCosts.EraseIsLinear` | dpdk-nfs/perf-contracts/map-impl-contracts.cpp:180-236 | the same for erase |
| `ExpireCosts.AddPenalised` | dpdk-nfs/perf-contracts/expirator-contracts.cpp:58-76 | the loop with its decremented and clamped counters adds the recursive cost of the penalised flows |
| `ExpireCosts.ExpireContract` | dpdk-nfs/perf-contracts/expirator-contracts.cpp:5-79 | the numeric contract is the constants, the unique flows and the recursive sum of the penalised ones, for all arguments |
| `ExpireCosts.ExpireFormula` | dpdk-nfs/perf-contracts/expirator-contracts.cpp:101-164 | the formula built step by step is checked and evaluates to expired flows times the erase formula plus constants |
| `ExpireCosts.PenalisedClosed` | dpdk-nfs/perf-contracts/expirator-contracts.cpp:56-72 | closed form of the penalised flows' cost, with a triangular number |
| `ExpireCosts.ExpireExcess` | dpdk-nfs/perf-contracts/expirator-contracts.cpp:101-164 | the formula exceeds the numeric contract by exactly the collisions charged to unpenalised flows plus the triangular saving, less 2 in one metric |
| `ExpireCosts.FormulaIsBoundIff` | dpdk-nfs/perf-contracts/expirator-contracts.cpp:101-164 | the formula is an upper bound if and only if the metric is not the LLVM instruction count, or at least two flows expire and there is a collision |
| `ExpireCosts.ExpireNothingCosts` | dpdk-nfs/perf-contracts/expirator-contracts.cpp:12-37 | an expiry of nothing costs 70, 39, 37 and 9 in the four metrics |
| `ExpireCosts.ExpireOneCosts` | dpdk-nfs/perf-contracts/expirator-contracts.cpp:38-76 | what one flow without collisions adds, in numbers, for four key types, every metric and any traversals |
| `ExpireCosts.GetCosts` | dpdk-nfs/perf-contracts/map-contracts.cpp:32-95 | a lookup that ends at the first bucket, in numbers, hit and miss, for four key types and every metric |
| `ExpireCosts.BridgeCosts` | dpdk-nfs/perf-contracts/map-impl-contracts.cpp:81-236 | the bridge's lookups and erasures in numbers, for any traversals and collisions |
| `Checksums.OnesSumIsCanon` | ebpf-nfs/katran/csum_helpers.h:28-36 | the one's complement sum of section 1 of RFC 1071, with its carries, is the residue of the plain sum modulo 65535, zero only for zero |
| `Checksums.VerifiesIff` | ebpf-nfs/katran/csum_helpers.h:28-36 | data verifies exactly when its plain sum is a positive multiple of 65535 |
| `Checksums.CsumFoldHelper` | ebpf-nfs/katran/csum_helpers.h:28-36 | the loop of four folds brings every 64-bit sum to the complement of its residue |
| `Checksums.CsumReduceHelper` | ebpf-nfs/crab/lb_kern.c:27-32 | two folds bring every 32-bit sum to its residue |
| `Checksums.CsumDiffIsSum` | ebpf-nfs/crab/lb_kern.c:169-170 | the kernel's 32-bit sum of a region stands for the seed plus the sum of its 16-bit words |
| `Ipv4.Ipv4CsumInline` | ebpf-nfs/katran/csum_helpers.h:52-59 | the loop over header words gives the complement of the header's residue |
| `Ipv4.CreateV4Hdr` | ebpf-nfs/katran/encap_helpers.h:31-55 | the stores leave exactly the header of the arguments with its checksum filled in; every other byte of the packet is unchanged; the identification is left as it was |
| `Ipv4.HeaderVerifies` | ebpf-nfs/katran/encap_helpers.h:31-55 | that header verifies for all arguments and all leftover identifications |
| `Ipv4.DecrementTtl` | ebpf-nfs/katran/balancer_helpers.h:82-109 | for both families: what is written, and that the packet is dropped exactly when too short or at its last hop |
| `Ipv4.DecrementKeepsValidIff` | ebpf-nfs/katran/balancer_helpers.h:95-106 | a valid header that is not expired stays valid under the incremental update if and only if its TTL was not already zero |
| `Ipv4.DecrementFails` | ebpf-nfs/katran/balancer_helpers.h:95-106 | a valid header with a TTL of zero that no longer verifies |
| `Ipv4.DecrementedFields` | ebpf-nfs/katran/balancer_helpers.h:82-109 | which bytes a decrement changes, for both families: the hop count by one and the IPv4 checksum |
| `Ipv4.HopsLeft` | ebpf-nfs/katran/balancer_helpers.h:82-109 | a packet with hop count n goes exactly n - 1 hops: over repeated decrements it expires at the n-th and not before |
| `Encap.CreateV6Hdr` | ebpf-nfs/katran/encap_helpers.h:57-77 | the stores leave exactly the IPv6 header of the arguments |
| `Encap.TrafficClassKept` | ebpf-nfs/katran/encap_helpers.h:57-77 | the split traffic class reads back as it was given, under version 6 |
| `Encap.EncapV4` | ebpf-nfs/katran/pckt_encap.h:93-132 | fails exactly for lack of headroom or a frame shorter than an Ethernet header; otherwise the frame is the new Ethernet header, the outer header and the old frame without its Ethernet header, although the outer header overwrites the old Ethernet header |
| `Encap.EncapV6` | ebpf-nfs/katran/pckt_encap.h:41-91 | the same with an IPv6 outer header, for inner packets of both families |
| `Encap.EncapFor` | ebpf-nfs/katran/balancer_kern.h:608-616 | the header chosen for each pairing of client and real, with the address taken from the sixteen bytes stored for the real |
| `Encap.Decap` | ebpf-nfs/katran/pckt_encap.h:136-172 | the outer header is gone, the MAC addresses kept, the EtherType replaced |
| `Encap.ProcessEncapedIpip` | ebpf-nfs/katran/balancer_kern.h:267-310 | the verdict and the frame for every protocol, family and length |
| `Encap.RoundTrip` | ebpf-nfs/katran/pckt_encap.h:41-172 | through encapsulation and the receiver's decapsulation the inner packet comes out byte for byte, one hop older, with its EtherType, unless an IPv6 client is sent to an IPv4 real |
| `Encap.RoundTripVerifies` | ebpf-nfs/katran/pckt_encap.h:93-172 | an IPv4 header that verified going in verifies coming out if and only if its TTL was not zero |
| `Encap.EtherTypeRestoredIff` | ebpf-nfs/katran/balancer_kern.h:608-616 | the EtherType is restored if and only if it is not an IPv6 client on an IPv4 real |
| `Encap.MismatchedSource` | ebpf-nfs/katran/balancer_kern.h:608-616 | in that case a byte of the client's address is decremented in place of the hop limit |
| `Encap.ReachesRealIff` | ebpf-nfs/katran/balancer_kern.h:608-616 | the outer destination is the address of the real if and only if it is not an IPv4 client on an IPv6 real; there it is the first four bytes of that address |
| `Encap.TunnelWorksIff` | ebpf-nfs/katran/balancer_kern.h:608-616 | a packet is sent to its real and comes out under its EtherType if and only if client and real are of the same family |
| `Encap.WireFields` | ebpf-nfs/katran/pckt_encap.h:41-132 | the encapsulated frame byte by byte, for every pairing of client and real: addresses, EtherType, traffic class, length, protocol, hop count and what follows |
| `Encap.ReceivedIsSent` | ebpf-nfs/katran/balancer_kern.h:267-310 | a receiver that reads family and protocol off the bytes of the frame restores the packet, one hop older, whenever client and real are of one family |
| `Encap.ReceivedFields` | ebpf-nfs/katran/balancer_kern.h:267-310 | what the receiver makes of any frame of protocol 4 or 41: of IPv6 in IPv4 it strips 20 bytes too many |
| `Encap.PortRecovered` | ebpf-nfs/katran/pckt_encap.h:73-128 | the outer source address carries the fixed prefix, and the client's port exclusive or its address |
| `Icmp.SendIcmpReply` | ebpf-nfs/katran/handle_icmp.h:59-86 | the reply's layout from the request's bytes; too short requests are dropped untouched |
| `Icmp.EchoReplyFields` | ebpf-nfs/katran/handle_icmp.h:59-86 | the reply goes back to the sender: both pairs of addresses exchanged, type 0, TTL 64, and everything that is no checksum as it was |
| `Icmp.ReplyHeaderVerifies` | ebpf-nfs/katran/handle_icmp.h:77-84 | the IPv4 header of every reply verifies |
| `Icmp.EchoReplyValidIff` | ebpf-nfs/katran/handle_icmp.h:73-76 | the reply to a valid echo request is valid if and only if the request's checksum is below 0xFFF8: the carry is lost |
| `Icmp.EchoReplyFails` | ebpf-nfs/katran/handle_icmp.h:59-86 | a frame that the balancer answers, with valid header and message, the reply to which has a wrong checksum |
| `Icmp.EchoReplyVerifies` | ebpf-nfs/katran/handle_icmp.h:59-86 | both checksums of the reply frame |
| `Icmp.SendIcmp6Reply` | ebpf-nfs/katran/handle_icmp.h:88-113 | the IPv6 reply's layout from the request's bytes |
| `Icmp.Echo6ReplyFields` | ebpf-nfs/katran/handle_icmp.h:88-113 | the IPv6 reply likewise, with type 129 |
| `Icmp.Echo6ReplyVerifiesIff` | ebpf-nfs/katran/handle_icmp.h:88-113 | with the pseudo-header of section 8.1 of RFC 8200, the reply to a valid request is valid if and only if its checksum was not zero |
| `Icmp.Echo6ReplyFails` | ebpf-nfs/katran/handle_icmp.h:88-113 | an IPv6 frame that the balancer answers, with a valid message, the reply to which has a wrong checksum |
| `Crab.FixIpChecksum` | ebpf-nfs/crab/lb_kern.c:146-148 | the header is filled in with the complement of its residue |
| `Crab.SumOptions` | ebpf-nfs/crab/lb_kern.c:171-179 | the loop over at most ten words sums exactly the bytes it covers |
| `Crab.HandleSyn` | ebpf-nfs/crab/lb_kern.c:88-192 | aborts exactly without headroom, target or MAC; otherwise the frame is the rewritten SYN |
| `Crab.NewSynFields` | ebpf-nfs/crab/lb_kern.c:108-166 | the rewritten frame byte by byte, for every parsed frame: target and MAC as destination, the old source, both lengths grown, and the old destination in an option of type 42 |
| `Crab.SynRoundTrip` | ebpf-nfs/crab/lb_kern.c:108-166 | a target that puts the address of the option back and cuts the option out has the SYN as it was sent, in everything but the MAC addresses and the two checksums |
| `Crab.SynAccepted` | ebpf-nfs/crab/lb_kern.c:88-192 | by the sums of section 3.1 of RFC 793 over the actual frame, the receiver accepts every rewritten plain SYN with at most ten whole words after the fixed header |
| `Crab.NewIpVerifies` | ebpf-nfs/crab/lb_kern.c:132-148 | the IPv4 header of every rewritten SYN verifies |
| `Crab.NewTcpVerifiesIff` | ebpf-nfs/crab/lb_kern.c:150-189 | the segment, with its pseudo-header, verifies if and only if what the receiver sums after the option and what the loop covered have the same residue |
| `Crab.NewSynVerifiesIff` | ebpf-nfs/crab/lb_kern.c:88-192 | the same for the whole frame and every position of its end |
| `Crab.NewSynVerifies` | ebpf-nfs/crab/lb_kern.c:88-192 | so both checksums verify whenever the bytes after the fixed TCP header are at most ten whole words and the frame has no padding |
| `Crab.LongSynFails` | ebpf-nfs/crab/lb_kern.c:171-179 | a SYN with eleven words after its fixed header, the last of them not zero, is rewritten to a segment that does not verify, for every target |
| `Crab.LongSynParts` | ebpf-nfs/crab/lb_kern.c:194-230 | a frame with those words that the program takes for a SYN |
| `Crab.OffsetGrownIff` | ebpf-nfs/crab/lb_kern.c:150-155 | the data offset of every rewritten SYN counts the option if and only if it was at most 13; from 14 and 15 it wraps to 0 and 1 |
| `Crab.FullSynFails` | ebpf-nfs/crab/lb_kern.c:150-155 | a SYN with all the options TCP allows, rewritten for every target to one with a data offset of 1 |
| `Balancers.Balancer.constructor` | ebpf-nfs/katran/balancer_maps.h:32-118 | a new balancer has an empty connection table and zero counters |
| `Balancers.Balancer.IsUnderFlood` | ebpf-nfs/katran/balancer_kern.h:40-64 | the rate slot and the verdict; no other counter moves |
| `Balancers.Balancer.GetPacketDst` | ebpf-nfs/katran/balancer_kern.h:66-142 | the ring's real, and the table and rate slot after it |
| `Balancers.Balancer.ConnectionTableLookup` | ebpf-nfs/katran/balancer_kern.h:144-166 | the remembered real, if it is not timed out, and the refreshed table |
| `Balancers.Balancer.ProcessPacket` | ebpf-nfs/katran/balancer_kern.h:459-634 | the in-place program refines the step function on table, counters and outcome |
| `KatranRuns.VipOfKey` | ebpf-nfs/katran/balancer_kern.h:459-480 | the VIP of a flow is the VIP of the key it is stored under, and storing twice changes nothing |
| `KatranRuns.MissOutcome` | ebpf-nfs/katran/balancer_kern.h:66-142 | a miss is answered by the ring alone, whatever the state |
| `KatranRuns.RunFromRing` | ebpf-nfs/katran/balancer_kern.h:134-166 | over every run with one ring, every table entry is what the ring says for a packet of some family |
| `KatranRuns.LruTransparentIff` | ebpf-nfs/katran/balancer_kern.h:110-166 | over every run of packets, evictions, timeouts, floods and SYNs, every packet goes where its own contents and the ring say, if and only if no key that an IPv4 and an IPv6 flow share has different reals for the two |
| `KatranRuns.TransparentInFamily` | ebpf-nfs/katran/balancer_kern.h:110-166 | whatever the hash and the ring: over every run with one ring, a packet goes where its own contents and the ring say if the packets stored under its key so far were of its own family |
| `KatranRuns.Astray` | ebpf-nfs/katran/balancer_kern.h:110-166 | for every such key, a one-packet history after which a packet goes to the wrong real |
| `KatranRuns.DportOnlyFoundIff` | ebpf-nfs/katran/balancer_kern.h:110-142 | on a VIP that hashes by destination port, some run, with whatever changes of the ring, has a flow's key in its table if and only if the flow's source is zero, its ports are equal and the VIP has a table |
| `KatranRuns.StaysEstablished` | ebpf-nfs/katran/balancer_kern.h:134-166 | over every run, with any changes of the ring, an established TCP entry stays until evicted or overwritten |
| `KatranRuns.SessionAffinity` | ebpf-nfs/katran/balancer_kern.h:570-600 | every later packet of an established TCP connection goes to the same real, whatever else arrives and however the ring changes |
| `KatranLaws.PacketGoes` | ebpf-nfs/katran/balancer_kern.h:459-634 | where every packet goes from every state, said from the configuration and the table alone: to its QUIC real, to the entry of its flow if it is good, else to position 127 v + hash modulo 127 of the ring |
| `KatranLaws.NewFlowGoes` | ebpf-nfs/katran/balancer_kern.h:110-142 | a TCP packet of a flow that is not in the table, for VIP number v and hash residue j, goes to the real at position 127 v + j of the ring, or is dropped if there is none |
| `KatranLaws.PacketStores` | ebpf-nfs/katran/balancer_kern.h:134-166 | the connection table after every packet: refreshed by a UDP packet that follows an entry, extended by a packet sent by the ring if the limiter admits it, otherwise as it was |
| `KatranLaws.RunNamed` | ebpf-nfs/katran/balancer_kern.h:110-142 | over every run, with any changes of the ring, every entry of the table names a real |
| `KatranLaws.PacketCounts` | ebpf-nfs/katran/balancer_kern.h:502-634 | every counter after every packet: what it adds to each slot, to its VIP and to its real |
| `KatranLaws.SourcePortIgnored` | ebpf-nfs/katran/balancer_kern.h:540-568 | on a VIP that ignores source ports, packets that differ in nothing else have the same outcome, table and counters from every state |
| `KatranLaws.UdpFollowedIff` | ebpf-nfs/katran/balancer_kern.h:144-166 | over every run that leaves a UDP entry alone, the next packet looked up under it follows it if and only if the entry is at most 30 seconds old; otherwise it goes where the ring then says |
| `KatranLaws.UdpStamps` | ebpf-nfs/katran/balancer_kern.h:134-166 | a UDP packet that follows an entry, or is stored under its own key, leaves there its real and its time |
| `KatranIsolation.Isolation` | ebpf-nfs/katran/balancer_kern.h:110-142 | two rings with the same slice for a VIP number that know a real for the same keys of the other VIPs send every packet for that number to the same place, over every run |
| `KatranIsolation.IsolationBySlices` | ebpf-nfs/katran/balancer_kern.h:110-142 | so changing which reals another slice names changes nothing for this one |
| `KatranIsolation.IsolatedIff` | ebpf-nfs/katran/balancer_kern.h:40-142 | two rings with the same slice for a VIP number cannot be told apart by packets for it, over any run with one ring, if and only if the two families agree on its keys or both rings know a real for the same keys of the other VIPs |
| `KatranIsolation.ToldApart` | ebpf-nfs/katran/balancer_kern.h:40-142 | otherwise a run of 125001 packets after which a packet for the number goes to different places: packets of another VIP without a real use up the limit on new connections |
| `KatranCounters.ProcessMoves` | ebpf-nfs/katran/balancer_kern.h:502-634 | one packet moves the totals over virtual addresses and over reals by the same amount, which is what it forwards |
| `KatranCounters.Conservation` | ebpf-nfs/katran/balancer_kern.h:502-634 | over every run, packets and bytes over all virtual addresses equal those over all reals and what was forwarded; accepted packets are counted once; misses never exceed them |
| `RateLimiter.RateBound` | ebpf-nfs/katran/balancer_kern.h:40-64 | for every monotone clock and every state, at most twice the limit pass in any closed second |
| `RateLimiter.RateBoundTight` | ebpf-nfs/katran/balancer_kern.h:40-64 | a run that reaches exactly twice the limit |
| `RateLimiter.ProcessLimited` | ebpf-nfs/katran/balancer_kern.h:134-140 | a packet that stores a table entry was passed by the limiter, and any other packet leaves all destinations alone |
| `RateLimiter.InsertionBound` | ebpf-nfs/katran/balancer_kern.h:134-140 | over every run of the balancer, at most twice the limit of table insertions in any second |
| `JHashes.JHash2` | ebpf-nfs/headers/jhash.h:114-142 | the loop and fall-through switch hash words as the recursive definition does |
| `JHashes.JHash` | ebpf-nfs/headers/jhash.h:68-105 | on any bytes, the same hash of their little-endian words filled up with zeros, seeded with the byte length |
| `JHashes.FlatWords` | ebpf-nfs/headers/jhash.h:68-142 | the little-endian words of the bytes of words are the words |
| `JHashes.BothHashes` | ebpf-nfs/headers/jhash.h:68-142 | so on the bytes of whole words jhash gives what jhash2 gives on the words |
| `JHashes.FewWords` | ebpf-nfs/headers/jhash.h:145-170 | the one-, two- and three-word forms are jhash2 |
| `JHashes.MixReversible` | ebpf-nfs/headers/jhash.h:33-41 | mixing loses nothing: it has an inverse on every state |
| `JHashes.FinalReversible` | ebpf-nfs/headers/jhash.h:43-52 | nor does finishing |
| `Firewalls.Firewall.Process` | ebpf-nfs/fw/xdp_fw_kern.h:63-157 | table and verdict for every frame and port |
| `Firewalls.BiflowIff` | ebpf-nfs/fw/xdp_fw_kern.h:32-46 | two flows share an entry if and only if they have the same protocol, the same two addresses and the same two ports, in whatever combination |
| `Firewalls.OnlyRepliesIff` | ebpf-nfs/fw/xdp_fw_kern.h:32-46 | an entry admits only the flow and its replies if and only if its addresses or its ports are equal |
| `Firewalls.TableIsOpened` | ebpf-nfs/fw/xdp_fw_kern.h:132-151 | after every run the table holds flows opened from inside, as many as fit, all of them while they fit |
| `Firewalls.InTableIff` | ebpf-nfs/fw/xdp_fw_kern.h:132-151 | after every run, full or not, the table holds a flow if and only if the first packet that opened it came while fewer than 1024 flows had been opened |
| `Firewalls.AdmittedIff` | ebpf-nfs/fw/xdp_fw_kern.h:134-140 | over every run, a packet from outside is sent to the inner port if its flow was opened from inside in time in that sense, and dropped otherwise |
| `Firewalls.AdmittedWhileRoom` | ebpf-nfs/fw/xdp_fw_kern.h:134-140 | while at most 1024 flows are opened in all, that is if and only if some earlier packet opened the flow |
| `Firewalls.VerdictOnBytes` | ebpf-nfs/fw/xdp_fw_kern.h:85-130 | by the bytes of the frame: shorter than 42 bytes, not IPv4 or neither TCP nor UDP is dropped from either side and leaves the table alone; every other frame from inside goes out |
| `Firewalls.SameFlowIff` | ebpf-nfs/fw/xdp_fw_kern.h:121-130 | two frames share an entry if and only if their protocol bytes are equal, their address bytes are the same pair and their port bytes are the same pair |
| `Firewalls.AdmittedOnBytes` | ebpf-nfs/fw/xdp_fw_kern.h:132-140 | over every run and on bytes alone: a frame from outside is let in if and only if it is readable and the first frame of its flow from inside was of one of the first 1024 flows |
| `Firewalls.AdmittedOnBytesWhileRoom` | ebpf-nfs/fw/xdp_fw_kern.h:132-140 | while at most 1024 flows went out, if and only if an earlier frame from inside has its protocol, its pair of addresses and its pair of ports |
| `Regression.NoFitIff` | ir-perf/run_benchmarks.py:279-295 | None exactly for fewer than two points or when all x are equal; an error exactly for two or more x and another number of y |
| `Regression.NormalEquations` | ir-perf/run_benchmarks.py:297-298 | the residuals of the fit sum to zero, plainly and weighted by x |
| `Regression.LeastSquares` | ir-perf/run_benchmarks.py:297-307 | no line has a smaller squared error on any data, and no other line the same |
| `Regression.QualityRange` | ir-perf/run_benchmarks.py:300-307 | the quality is between 0 and 1, 0 exactly for a level line and 1 exactly for a sloping line through every point |
| `Regression.QualityIsExplained` | ir-perf/run_benchmarks.py:300-307 | the quality times the squared error about the mean is that error less the error of the fit, and zero when all y are equal |
| `Regression.ExplainedVariance` | ir-perf/run_benchmarks.py:300-307 | it is the squared slope times the spread of x |
| `Regression.QualityIsCorrelation` | ir-perf/run_benchmarks.py:300-307 | and the squared correlation of the two lists |

## Left out

- Katran's virtual address numbers: any number below 32 is allowed; this build sets every one to 7.
- Katran's 64-bit packet, byte and connection counters are unbounded here; the clock difference wraps at 64 bits.
- Katran's two clock readings for one packet are taken as one.
- Katran's fallback cache is shared by all CPUs; the model is one CPU with one connection table, and other CPUs' writes to a shared one are not modelled.
- Katran's parsing of headers up to the VIP lookup, source-based routing, GUE, too-big replies, health checks and the decoding of QUIC ids (the decoder is dead code in this build; its result is a parameter).
- The kernel's choice of entries to evict: eviction removes any set of entries at any time.
- Balancers.Balancer.GetPacketDst: leaves out the branch for source-based routing, which is not compiled into this build.
- BridgeTable.BridgeRejuvEntrySetEq: asks for distinct addresses, because the statement is false without (RejuvSetEqIff).
- Balancers.Balancer.IsUnderFlood: says nothing of a missing statistics slot, because a lookup in that array cannot fail.
- What the map and the bridge do with a capacity that is not a power of two, beyond AllReachedIff and StuckIff: their methods ask for the invariant.
- The map keeps keys by value: the aliasing of its key pointers into the key vector, and the separation-logic ownership that tracks it, are not modelled.
- The counter that erasing prints for hash collisions.
- The bridge's static table, its file reader, and ports and devices of DPDK.
- PointerChase.InitChain: strides are whole lines, at most one more than the elements; other strides overlap stores. The same holds for the members around it.
- PointerChase.StoreInBounds: as InitChain.
- PointerChase.StoreOutOfBounds: as InitChain.
- PointerChase.InitBuffer: as InitChain.
- PointerChase.BenchLoop: as InitChain.
- PointerChase.Generated: as InitChain.
- JHashes.FinalReversible: like MixReversible, holds whatever the rotation amounts are; that they are those of the published hash is the definition.
- The "execution cycles" metric, in which the symbolic and the numeric contracts charge collisions differently, and the contracts of put, whose slopes differ in one metric.
- Contracts of the other data structures: constants without further structure.
- Regression.LeastSquares: real arithmetic, without the rounding of floating point.
- Crab.HandleSyn: the choice of target by a counter or at random is a parameter; so are the MAC addresses.
- Crab.NewSynVerifies: says that both checksums verify, not that headers with IPv4 options or VLAN tags are put together sensibly; the code drops what lies between the headers.
- Firewalls.Firewall.Process: a redirection into an empty slot of the device map is not modelled.
- Benchmark runners, output parsing, plots and command lines.
