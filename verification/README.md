# zdhcp, modelled and proved in Dafny

zdhcp is a DHCPv4 server: a Go master owns the leases, C++ slaves handle packets, names and
options. This project models the parts of it whose correctness is hard to see and proves what
they keep, over every input, every run or every reachable state.

**The lease engine.** `Pools`, `Leases`, `LeaseStores`, `LeaseOps`, `Engine`, `EngineRuns`,
`EngineTheorems`, `Answers`, `GrantTheorems`, `MacTheorems` and `CursorTheorems` model address
pools and the round-robin cursor, the lease store with its three indexes, and `SubnetEngine`. Each method of the engine
object is proved to perform a decision function `(state, message, time) -> reply, store
operations, cursor`. `EngineRuns.Next` adds the administrator's commands, and the theorems
quantify over all runs of messages and commands from an empty store. `Answers` says what every
message and command does from the leases, reservations, pools and clock alone, without the
decision functions.

**The write-behind log.** `Rows`, `WriteBehind` and `Shutdown` model the lease table, the workers
that batch operations into it, their channels and shutdown, as a state machine over all
interleavings.

**DNS names.** `DnsLabels` fixes what a wire name is: a list of labels. `DnsText`,
`DnsSpelling`, `DnsRefusals`, `DnsAssertion`, `DnsWire`, `DnsCompression`, `DnsOrder`,
`LabelSequences`, `LabelBuffers` and `NameAlgebra` prove the byte-and-offset code of `Name` and
`LabelSequence` against label lists. `DnsSpelling` is the grammar of name texts and
`DnsCompression` that of compressed names: each is what is accepted, no more and no less.

**Printers and parsers.** `Buffers`, `DhcpOptions`, `OptionStreams` and `DhcpPacket` are the DHCP
codec; `JsonValues`, `JsonText`, `JsonGrammar`, `JsonTokens`, `JsonLanguage`, `JsonRoundTrip`,
`JsonLaws` and `JsonParsing` are JSON dump and parse. `JsonGrammar` is the grammar of RFC 8259
with what its texts denote, and `JsonLanguage.ParseIff` says that the parser reads exactly that
language.

**Two small machines.** `MatcherBuilder` is the two-stack compiler of client-class expressions,
`LruCache` the least-recently-used cache.

Some promises a reader might expect are false of the code. For each the project gives an input
that breaks it and the exact condition under which it holds:

- One lease per MAC. `MacTheorems.MacCanHoldTwoLeases` is a run that ends with one MAC at two
  addresses; `MacTheorems.StepKeepsOneLeasePerMacIff` says which steps keep it, from the engine's
  guards alone, and `MacTheorems.RunKeepsOneLeasePerMacIff` which runs.
- One lease per client-id, as a property of the store alone.
  `LeaseOps.StoreAloneDoesNotKeepClientExact` breaks it, `LeaseOps.ApplyKeepsClientExactIff` says
  which operations keep it, and `EngineTheorems.IndexesExactInEveryRun` shows that the engine sends
  no others.
- Memory and table in step on every accepted operation. `Rows.OutOfStep` is an update that
  separates them; `Rows.InStepIff` names the one kind that does, and `WriteBehind.DecideInStep`
  shows the engine never sends it.
- No message panics. `CursorTheorems.DeletedPoolCanPanic` is a run that ends in a nil dereference
  after the pool the cursor is in was deleted; `CursorTheorems.MessagePanicsIff` says which messages
  panic, `CursorTheorems.StepLosesCursorIff` which steps lose the cursor, and
  `CursorTheorems.RunNeverPanics` that no run without such a step panics.
- Every message survives packing and unpacking. `DhcpPacket.LongPayloadIsRefused` is a message
  unpacking can produce and packing refuses; `DhcpPacket.MessageRoundTripIff` is the condition.
- Parsing a text never fails an assertion. `DnsAssertion.AssertionText` is a text that does;
  `DnsAssertion.AssertionFailsIff` says which do.

Code that changes state is modelled by classes and methods proved against specification
functions; the laws are lemmas about those functions. A run-time panic, a failed assertion or a
thrown exception is an outcome of the model (`None`, `Panic`, `Err`), never a precondition, save
where the caller must rule it out and the lemmas show when it does.

## Model

| member | source | states |
|---|---|---|
| Pools.FindPool | master/iterative_allocator.go:30-38 | the first pool that includes an address, and only the first |
| Pools.GetPoolIncludeAddr | master/subnet.go:66-73 | finds a pool exactly when some pool includes the address |
| Pools.NextPickDefined | master/iterative_allocator.go:21-54 | a pick avoids the nil dereference exactly when the cursor is unset or inside a pool, and then picks a pool address |
| Pools.IterativeAllocator.constructor | master/iterative_allocator.go:14-19 | the cursor starts unset |
| Pools.IterativeAllocator.PickAddr | master/iterative_allocator.go:21-54 | returns the next address of the ring and remembers it, for every usable cursor |
| Pools.AllAddressesExact | master/subnet.go:32-38 | the address ring holds exactly the addresses the pools include |
| Pools.AllAddressesDistinct | master/subnet.go:32-38 | disjoint pools give a ring without repetition |
| Pools.NextPickAdvances | master/iterative_allocator.go:21-54 | from any address of the ring the pick is its successor, wrapping at the end |
| Pools.PicksAreRotation | master/iterative_allocator.go:21-54 | a full round of picks is a rotation of the ring |
| Pools.PicksVisitEveryAddressOnce | master/iterative_allocator.go:21-54 | Capacity() picks return every pool address exactly once, from any usable cursor |
| Pools.SubnetCapacity | master/subnet.go:75-82 | the loop's 32-bit total is the number of addresses the pools span, modulo 2^32 |
| Pools.CapacityIsSizeModulo | master/subnet.go:75-82 | the running 32-bit sum is the sum of the pool sizes reduced once modulo 2^32, overlapping pools included |
| Pools.AllAddressesFitBelow32Bits | master/subnet.go:44-46 | disjoint pools without 0.0.0.0 have fewer than 2^32 addresses in all |
| Pools.CapacityCountsAddresses | master/subnet.go:75-82 | the 32-bit capacity never wraps on such pools: it counts the addresses |
| LeaseStores.ClientExactMeansOneLeasePerClient | master/lease_in_mem.go:42-45 | an exact client-id index leaves one lease per non-empty client-id |
| LeaseStores.AddKeepsLive | master/lease_in_mem.go:56-72 | adding keeps every index entry pointing at the lease live at its own address |
| LeaseStores.AddKeepsClientIndexed | master/lease_in_mem.go:65-67 | adding keeps clients findable but for those whose entry it overwrites |
| LeaseStores.UpdateKeepsLive | master/lease_in_mem.go:74-77 | updating keeps every index entry live |
| LeaseStores.DeleteKeepsLive | master/lease_in_mem.go:79-97 | deleting keeps every index entry live |
| LeaseStores.DeleteIsWithout | master/lease_in_mem.go:79-97 | deleting removes the address and exactly the entries that point at it, and only for the right subnet |
| LeaseStores.WithoutKeeps | master/lease_in_mem.go:79-97 | removing any set of addresses keeps entries live and the remaining clients findable |
| LeaseStores.DeleteEachIsWithoutRange | master/subnet_command.go:344-348 | deleting address by address removes exactly the subnet's leases in the range |
| LeaseStores.LeaseStore.constructor | master/lease_in_mem.go:24-30 | an empty store satisfies the index invariants |
| LeaseStores.LeaseStore.GetLeaseWithIp | master/lease_in_mem.go:32-35 | the lease at an address: it is filed under its own address, and every index entry naming that address is it |
| LeaseStores.LeaseStore.GetLeaseWithMac | master/lease_in_mem.go:37-40 | a lease found by MAC carries that MAC and is the one live at its address |
| LeaseStores.LeaseStore.GetLeaseWithClient | master/lease_in_mem.go:42-45 | a lease found by client-id carries it and is live at its address; with an exact index it is the only one, and nothing is found exactly when there is none |
| LeaseStores.LeaseStore.AddLease | master/lease_in_mem.go:56-72 | fails exactly on an address in use; the new store is the old with the lease filed, invariants kept |
| LeaseStores.LeaseStore.DeleteLease | master/lease_in_mem.go:79-97 | the new store is the specified deletion, invariants kept |
| LeaseStores.LeaseStore.UpdateLease | master/lease_in_mem.go:74-77 | fails exactly when another subnet holds the address; otherwise the lease is replaced or added |
| LeaseStores.LeaseStore.DeletePool | master/subnet_command.go:344-348 | the loop removes exactly the subnet's leases in the pool and ends, for every pool below the top address |
| LeaseStores.LeaseStore.DeleteSubnet | master/subnet_command.go:162-181 | the loop, in any visiting order, removes exactly the subnet's leases with their index entries |
| LeaseOps.ApplyKeepsLive | master/lease_in_mem.go:56-97 | each kind of operation keeps every index entry live |
| LeaseOps.ApplyAllKeepsLive | master/lease_in_mem.go:56-97 | no sequence of operations, however mixed, breaks an index entry |
| LeaseOps.StoreAloneDoesNotKeepClientExact | master/lease_in_mem.go:56-97 | one accepted sequence of store calls leaves two leases under a client-id; a longer one leaves a lease its client-id no longer finds |
| LeaseOps.ApplyKeepsClientExactIff | master/lease_in_mem.go:56-97 | an accepted operation keeps the client-id index exact, and one lease per client-id, if and only if it is not an add or update whose non-empty client-id is on file at another address |
| LeaseOps.ApplyAllKeepsClientExact | master/lease_in_mem.go:56-97 | no sequence without such an operation ever breaks the index |
| LeaseOps.HybridLeaseManager.constructor | master/hybrid_lease_manager.go:12-18 | nothing is queued at first |
| LeaseOps.HybridLeaseManager.AddLease | master/hybrid_lease_manager.go:36-42 | memory changes first; the operation is queued exactly when memory accepted it |
| LeaseOps.HybridLeaseManager.UpdateLease | master/hybrid_lease_manager.go:44-51 | memory changes first; the operation is queued exactly when memory accepted it |
| LeaseOps.HybridLeaseManager.DeleteLease | master/hybrid_lease_manager.go:53-56 | memory and queue both see the deletion |
| LeaseOps.HybridLeaseManager.DeletePool | master/subnet_command.go:339-342 | memory and queue both see the deletion of the pool's leases |
| LeaseOps.HybridLeaseManager.DeleteSubnet | master/subnet_command.go:157-160 | memory and queue both see the deletion of the subnet's leases |
| Rows.RowRoundTrip | master/lease_in_db.go:31-57 | a lease read back from its row is the lease but for renew and rebind times and a missing client-id, and expires when it did |
| Rows.ColumnsAndFields | master/lease_in_db.go:31-57 | every column of a lease's row and every field of the lease made from any row |
| Rows.ReplayAppend | master/lease_db_pool.go:101-129 | writing two batches is writing their concatenation |
| Rows.InStepIff | master/lease_in_db.go:131-174 | memory and rows move alike on every accepted operation except an update of an address memory lacks, and differ there |
| Rows.OutOfStep | master/lease_in_db.go:145-160 | an update of any lease on an empty store, accepted by memory and lost by the table |
| Rows.LeaseDb.ApplyOp | master/lease_in_db.go:137-174 | rows it does not target stay; an insert never replaces, an update never creates, a deletion removes exactly the given subnet's targets |
| Rows.Worker.constructor | master/lease_db_pool.go:98-100 | a worker starts with an empty buffer |
| Rows.Worker.Flush | master/lease_db_pool.go:101-129 | the whole buffer reaches the rows in order and the buffer is empty |
| Rows.Worker.RunDb | master/lease_db_pool.go:131-154 | for every sequence of operations, loads and ticks, every operation reaches the rows once and in order, and a load sees all before it |
| Engine.FoundLeaseIsLive | master/engine.go:77-88 | the lease found by client-id or MAC is the one live at its address, and the client presents its key |
| Engine.SubnetEngine.constructor | master/engine.go:31-38 | a new engine has its store, its hosts and an unset cursor |
| Engine.SubnetEngine.FindOld | master/engine.go:77-88 | client-id first, then MAC, as the specification looks up |
| Engine.SubnetEngine.GetHostWithIp | master/host_in_mem.go:22-29 | finds a reservation exactly when one holds the address, in any visiting order |
| Engine.SubnetEngine.IsReserved | master/engine.go:176-185 | true exactly when a reservation for another MAC holds the address or, no reservation holding it, a reserved pool includes it |
| Engine.SubnetEngine.Renew | master/engine.go:127-144 | a normal lease of the client at the same address, stamped now, with the subnet's times, every field stated; only a REQUEST is written |
| Engine.SubnetEngine.AllocateWithAddr | master/engine.go:146-174 | refused exactly under an unexpired lease; else a lease of the client with every field stated; only a REQUEST is written |
| Engine.SubnetEngine.AllocateUnreserved | master/engine.go:187-198 | the loop offers the first free pick of one round, or reports none; nothing is written |
| Engine.SubnetEngine.Plan | master/engine.go:44-75 | performs the DISCOVER decision, which Answers.DiscoverAnswer gives: reservation, own lease, wanted address, then search; nothing is written |
| Engine.SubnetEngine.Allocate | master/engine.go:90-125 | performs the REQUEST decision, which Answers.RequestAnswer and Answers.RequestFiles give from leases, reservations, pools and clock; memory, queue and reply are those it names |
| Engine.SubnetEngine.AllocateAndMove | master/engine.go:120-124 | takes the wanted address and then gives up the former one, in that order |
| Engine.SubnetEngine.ReleaseHeld | master/engine.go:208-218 | performs the RELEASE decision, both refusals included, which Answers.ReleaseAnswer gives from the leases |
| Engine.SubnetEngine.DeclineHeld | master/engine.go:220-230 | performs the DECLINE decision, both refusals included, which Answers.DeclineAnswer gives from the leases |
| Engine.SubnetEngine.DeclineConflict | master/engine.go:232-259 | performs the conflict decision, which Answers.ConflictAnswer gives, with and without a lease at the address |
| EngineRuns.RemoveFirst | master/subnet_command.go:325-337 | the remaining pools are among the given ones, and all remain exactly when the pool is not listed |
| EngineRuns.RemovesFirst | master/subnet_command.go:325-337 | of several equal pools only the first goes |
| EngineRuns.DeletePoolFromPools | master/subnet_command.go:325-337 | the loop drops the first equal pool and tells whether there was one |
| EngineRuns.Next | master/subnet_command.go:215-323 | every step keeps the subnet's identity and well-formed pools |
| EngineRuns.RenewedIsNew | master/engine.go:127-144 | a renewed lease carries nothing of the lease it replaces but the address |
| EngineRuns.AllocateAtEffect | master/engine.go:146-174 | succeeds exactly on a free or expired address, and a REQUEST then files the new lease there |
| EngineRuns.RequestGrantedIff | master/engine.go:90-125 | a REQUEST is granted if and only if its address is not reserved against it, it has no usable reservation elsewhere, and the address is its own or one it may have under no unexpired lease |
| EngineRuns.RequestEffect | master/engine.go:90-125 | a granted REQUEST files the new lease and drops the former address; a refused one changes nothing; an unexpired address is granted only to its holder |
| EngineRuns.ReleaseEffect | master/engine.go:208-218 | a successful RELEASE removes exactly the lease at its address and its index entries, and presents that lease's key; Answers.ReleaseAnswer says when it succeeds |
| EngineRuns.DeclineEffect | master/engine.go:220-230 | a successful DECLINE replaces exactly the client's own lease by a declined one |
| EngineRuns.ConflictEffect | master/engine.go:232-259 | a conflict report always leaves a declined lease without keys at the address |
| EngineTheorems.PlanHasNoOps | master/engine.go:139-164 | a DISCOVER never changes the store |
| EngineTheorems.RequestKeepsInv | master/engine.go:90-125 | a REQUEST keeps the indexes live and the client-id index exact, because the add precedes the delete |
| EngineTheorems.StepKeepsInv | master/engine.go:44-259 | every message and every command keeps the engine invariant |
| EngineTheorems.RunKeepsInv | master/engine.go:44-259 | every run keeps the engine invariant |
| EngineTheorems.IndexesExactInEveryRun | master/engine.go:90-144 | in every reachable state index entries are live, the client-id index is the exact inverse of the leases, and a client-id has one lease |
| EngineTheorems.PlanOffers | master/engine.go:44-75 | a DISCOVER offers only the client's own lease or an address under no unexpired lease |
| EngineTheorems.TakeOverNeedsKey | master/engine.go:44-259 | no message is given, moves or removes an unexpired lease without presenting its client-id or MAC, save a conflict report at that very address |
| EngineTheorems.RequestTakeOver | master/engine.go:90-125 | a REQUEST never does without the key |
| EngineTheorems.TakeOverNeedsKeyInEveryRun | master/engine.go:44-259 | no message does, in any state any run reaches, save a conflict report at that address |
| EngineTheorems.SearchFindsFirstFree | master/engine.go:187-198 | the search offers the first free pick, or refuses when no pick is free |
| EngineTheorems.NoAddressLeftIff | master/engine.go:187-198 | no address left is reported if and only if every pool address is reserved against the client or under an unexpired lease; otherwise a free one is offered |
| EngineTheorems.DeclineBlocks | master/lease.go:41-48 | a DECLINE or conflict report leaves a declined, keyless lease stamped with the current time, of the lifetime of the lease that was there or else of the subnet |
| EngineTheorems.StepKeepsClocked | master/engine.go:127-174 | no lease is ever stamped later than the clock |
| EngineTheorems.MessageKeepsBlocked | master/engine.go:44-259 | while the lifetime runs, no message offers a declined address or unblocks it |
| EngineTheorems.StepKeepsBlockedIff | master/subnet_command.go:215-323 | of all messages and commands, exactly those that delete the lease there unblock it, and none offers it |
| EngineTheorems.RunKeepsBlocked | master/engine.go:44-259 | nor does any run without a command that deletes the lease there |
| EngineTheorems.DeclinedAddressStaysOut | master/engine.go:220-259 | in every run of messages and commands, a declined address is offered or granted to nobody until the time of the report plus the lifetime of the lease that was there, or else of the subnet, has passed, unless a command in between deletes that lease |
| EngineTheorems.StepKeepsReservedClear | master/subnet_command.go:229-234 | without host reservations no step leaves a client's lease in a reserved pool |
| EngineTheorems.RunKeepsReservedClear | master/subnet_command.go:229-234 | nor does any run |
| EngineTheorems.OfferGrantedIff | master/engine.go:90-125 | with reservations, an offer is later granted if and only if the address is not reserved against the client and the client has no usable reservation elsewhere |
| EngineTheorems.OfferNotReserved | master/engine.go:44-75 | without host reservations no offered address is reserved |
| EngineTheorems.OffersAreHonoured | master/engine.go:44-125 | without host reservations, in every run, an offered address is granted to the same client at any later time, and the grant is on file |
| Answers.WithheldIff | master/engine.go:176-185 | an address is reserved against a client if and only if it is not reserved for it and is reserved for another or lies in a reserved pool |
| Answers.NewLeaseIs | master/engine.go:146-174 | every field of a new lease: the client's keys and host name, the subnet's id and times, the current time |
| Answers.OwnsIff | master/engine.go:77-88 | the lease a client is recognised by is the one with its client-id or, when no lease has that, the one its MAC is indexed for |
| Answers.PrefersIff | master/engine.go:99-107 | a client is held to its reservation elsewhere if and only if that is free, expired or leased to its MAC |
| Answers.RequestAnswer | master/engine.go:90-125 | the reply to every REQUEST, from leases, reservations, pools and clock: which of five refusals, or a lease and its fields |
| Answers.RequestFiles | master/engine.go:90-174 | a granted REQUEST files the lease, takes the client's other address and leaves every other lease; a refused one changes nothing |
| Answers.DiscoverAnswer | master/engine.go:44-75 | the reply to every DISCOVER, in order: a usable reservation, the client's own lease, a free wanted address, the search |
| Answers.SearchAnswer | master/engine.go:187-198 | the search offers a pool address neither withheld nor taken, and says none is left if and only if there is none |
| Answers.ReleaseAnswer | master/engine.go:208-218 | a RELEASE succeeds if and only if the address is of the client's own lease, which goes alone; which refusal otherwise |
| Answers.DeclineAnswer | master/engine.go:220-230 | a DECLINE succeeds if and only if the address is of the client's own lease, which is left declined; which refusal otherwise |
| Answers.ConflictAnswer | master/engine.go:232-259 | a conflict report always succeeds; every field of the declined lease it leaves |
| Answers.CommandAnswer | master/subnet_command.go:215-323 | what each administrator's command changes in pools, reserved pools, reservations, lifetime and leases, and that it changes nothing else |
| Answers.GrantRespectsReservations | master/engine.go:90-125 | no client is granted an address reserved for another, nor one in a reserved pool that is not reserved for it |
| Answers.OfferRespectsReservations | master/engine.go:44-75 | nor is one offered, but for the client's own lease |
| Answers.ReservationIsHonoured | master/engine.go:44-125 | the client an address is reserved for is offered and granted it when it is free, expired or its own, inside a reserved pool too |
| Answers.AnswersInEveryRun | master/engine.go:44-259 | in every state any run reaches, replies respect the reservations, and RELEASE and DECLINE succeed if and only if the lease is the client's own |
| GrantTheorems.WillGrantIff | master/engine.go:90-125 | a REQUEST is granted if and only if the address is not withheld, the client is not held to another, and the address is its own or one it may have under no unexpired lease |
| GrantTheorems.StepKeepsHeld | master/engine.go:44-259 | of all messages and commands only a removal or a shorter renewal ends a lease early, and none gives its address to a client without its client-id or MAC |
| GrantTheorems.GrantedAddressIsKept | master/engine.go:90-174 | in every run, once an address is granted, the lease with all its fields is on file, and until its lifetime has passed nobody without the key of the lease there is offered or granted the address, unless the lease is removed or renewed for a shorter time in between |
| GrantTheorems.StepKeepsLease | master/engine.go:44-259 | only its removal or renewal changes a lease |
| GrantTheorems.GrantedLeaseStays | master/engine.go:90-174 | in every run a granted lease stays field by field as granted until it is removed or renewed |
| GrantTheorems.ExpiredAddressIsGranted | master/lease.go:33-39 | when the lifetime has passed the address is granted if and only if it is not withheld, the client is not held to another, and it is the client's own, in a pool, or the client has a reservation |
| MacTheorems.RequestKeepsOneLeasePerMacIff | master/engine.go:77-144 | a REQUEST keeps one lease per MAC unless it passes the guards for a grant while its MAC has a lease besides the wanted address and the recognised one; exactly then it breaks it |
| MacTheorems.StepKeepsOneLeasePerMacIff | master/engine.go:44-259 | of all messages and commands, exactly such a REQUEST breaks one lease per MAC |
| MacTheorems.RunKeepsOneLeasePerMacIff | master/engine.go:44-259 | a run has one lease per MAC at every moment if and only if none of its steps is such a REQUEST |
| MacTheorems.RequestKeepsMacExactIff | master/engine.go:77-144 | a REQUEST keeps every lease findable by its MAC unless it passes those guards while the MAC index has a third lease for its MAC; exactly then it does not |
| MacTheorems.MacCanHoldTwoLeases | master/engine.go:77-132 | a run from the empty store after which two addresses have leases with the same MAC |
| CursorTheorems.MessageKeepsCursor | master/engine.go:187-198 | while the cursor is unset or inside a pool, no message panics or moves it outside |
| CursorTheorems.SearchPanicsIff | master/engine.go:187-198 | a search dereferences nil if and only if the capacity is positive and the cursor is neither unset nor in a pool |
| CursorTheorems.CapacityPositiveIff | master/subnet.go:75-82 | on disjoint pools without 0.0.0.0 the capacity is positive if and only if there is a pool |
| CursorTheorems.MessagePanicsIff | master/engine.go:44-75 | a message panics if and only if it is a DISCOVER that falls to such a search |
| CursorTheorems.StepLosesCursorIff | master/subnet_command.go:275-323 | of all messages and commands, exactly the deletion of the pool the cursor is in leaves it outside every pool |
| CursorTheorems.StepKeepsCursor | master/subnet_command.go:275-323 | on any pools, overlapping or not, no other step loses the cursor |
| CursorTheorems.RunNeverPanics | master/engine.go:44-259 | in every run that never deletes the pool the cursor is in, no message panics |
| CursorTheorems.DeletedPoolCanPanic | master/iterative_allocator.go:30-44 | a run of a DISCOVER, a deletion and a DISCOVER that ends in a panic |
| WriteBehind.PartReplay | master/lease_db_pool.go:180-186 | operations of other subnets leave a subnet's rows alone, whatever the interleaving |
| WriteBehind.ReplayInStep | master/hybrid_lease_manager.go:36-56 | replaying in-step operations on the rows is applying them to memory |
| WriteBehind.AllocateInStep | master/engine.go:90-125 | a REQUEST sends only operations on which memory and rows move alike |
| WriteBehind.DecideInStep | master/engine.go:44-259 | no step ever sends an update of an address memory lacks |
| WriteBehind.HandleInStep | master/hybrid_lease_manager.go:36-56 | after a step, memory is the old memory with the queued operations replayed as rows |
| WriteBehind.ActKeeps | master/lease_db_pool.go:98-200 | every action of every component keeps each subnet in sync with its rows and pending operations |
| WriteBehind.ActKeepsBounds | master/lease_db_pool.go:98-200 | buffers stay below 40, channels within 1024, and a finished worker has nothing left |
| WriteBehind.WritesInEveryRun | master/lease_db_pool.go:98-186 | in every state of every run buffers hold fewer than 40 operations and channels at most 1024, a send waits exactly for a full channel, and the 40th operation, a tick and the end each write the buffer out in order |
| WriteBehind.RunInSync | master/lease_db_pool.go:98-200 | at every moment of every interleaving, memory is rows, then buffer, then channel, then unsent operations, replayed |
| WriteBehind.StoppedTableIsMemory | master/lease_db_pool.go:188-200 | when Stop has returned the table holds exactly the leases in memory |
| WriteBehind.ReplayedTableIsMemory | master/lease_db_pool.go:98-186 | the whole table with all workers' queues replayed is all subnets' memory |
| WriteBehind.LeaseReachesTable | master/lease_db_pool.go:98-200 | runs to a full stop exist, and in one of them a granted lease has reached the table |
| Shutdown.SomeProgress | master/lease_db_pool.go:98-200 | until everything has stopped, some action is enabled that leaves less unsent, unreceived, open or unfinished: no deadlock |
| Shutdown.CanStop | master/lease_db_pool.go:188-200 | from every state the invariants allow, full channels included, a finite path leads to a closed log with every worker finished |
| Shutdown.EveryRunCanStop | master/lease_db_pool.go:188-200 | every run can be continued to such a stop, and there the table is memory |
| Shutdown.ClosedRunMustStop | master/lease_db_pool.go:131-154 | after Close every continuation, ticks aside, makes at most as many moves as there are queued operations and unfinished workers, can go on until it has, has stopped exactly then, and the table is then memory |
| DnsLabels.WellFormedLabelCount | slave/dns/name.cpp:459-487 | the 255-byte limit alone bounds a name to 128 labels |
| DnsLabels.EncodeInjective | slave/dns/name.cpp:398-400 | wire bytes determine the labels |
| DnsLabels.EncodedOctets | slave/dns/name.cpp:398-400 | octet by octet: each label begins where the one before ends, with its length, then its bytes |
| DnsLabels.LowerLetters | slave/dns/name.cpp:543-563 | only A to Z change, to a to z |
| DnsLabels.LowerEncode | slave/dns/name.cpp:543-563 | lower-casing the wire bytes is lower-casing the labels: no length byte is a capital |
| DnsText.StringParse | slave/dns/name.cpp:92-235 | the loop computes the specified parse on every text, failing assertions included |
| DnsText.ConsumeShape | slave/dns/name.cpp:92-235 | at every point the buffer holds whole labels, their offsets and an unfinished label |
| DnsText.ParsedNameIsWellFormed | slave/dns/name.cpp:92-235 | every accepted text yields a well-formed name of at most 255 bytes and 128 labels with exact offsets |
| DnsSpelling.SpellingParses | slave/dns/name.cpp:92-235 | every text that spells labels, with plain, quoted and decimal bytes, parses to their name when it fits in 255 bytes |
| DnsSpelling.ParseNameIff | slave/dns/name.cpp:92-235 | a text is accepted with some name if and only if it spells that name |
| DnsRefusals.EmptyLabelRefused | slave/dns/name.cpp:114-147 | behind any well-spelt beginning, a dot where a label should begin is an empty label |
| DnsRefusals.LongLabelRefused | slave/dns/name.cpp:155-205 | a 64th byte, however spelt, is a label too long |
| DnsRefusals.BitLabelRefused | slave/dns/name.cpp:165-169 | a backslash and a bracket at the start of a label are a bad label type |
| DnsRefusals.BadEscapeRefused | slave/dns/name.cpp:185-199 | an escape with too few digits, or of more than 255, is a bad escape |
| DnsRefusals.BareEscapeRefused | slave/dns/name.cpp:214-225 | a text that ends behind a backslash is incomplete |
| DnsRefusals.OneDigitRefused | slave/dns/name.cpp:214-225 | so is one that ends behind one digit of an escape |
| DnsRefusals.TwoDigitsRefused | slave/dns/name.cpp:214-225 | or behind two |
| DnsRefusals.LongNameRefused | slave/dns/name.cpp:214-219 | a byte that leaves no room for the root makes the name too long |
| DnsSpelling.TextRoundTrip | slave/dns/labelsequence.cpp:234-309 | every name's text, with or without the final dot, parses to the same bytes and offsets |
| DnsAssertion.AssertionFailsIff | slave/dns/name.cpp:130-140 | the assertion fails if and only if a prefix of the text is a name of 255 bytes and a dot and a character other than a backslash follow it |
| DnsAssertion.AssertionText | slave/dns/name.cpp:130-140 | such a text |
| DnsWire.FollowedNameShape | slave/dns/name.cpp:311-396 | what pointers lead through is always a list of short labels closed by the root |
| DnsWire.AdvanceOnTheWay | slave/dns/name.cpp:323-385 | each iteration stays on the denoted name or proves it malformed; pointers only go down |
| DnsWire.DecodeName | slave/dns/name.cpp:311-396 | terminates on every buffer; accepts exactly the names that strictly decreasing pointers denote, and stops just after the in-place bytes |
| DnsWire.EncodedNameDenotesItself | slave/dns/name.cpp:398-400 | the uncompressed bytes of a name, anywhere in a buffer, decode to that name |
| DnsCompression.ChainIsRead | slave/dns/name.cpp:311-396 | labels in place and pointers, however many, read as the labels of their segments |
| DnsCompression.DenotesIff | slave/dns/name.cpp:311-396 | octets denote a name if and only if they are such a chain of its labels, octet by octet |
| DnsCompression.PointerSharesTail | slave/dns/name.cpp:311-396 | labels and a pointer to an earlier name read as those labels and that name |
| DnsOrder.CompareSwap | slave/dns/labelsequence.cpp:119-191 | exchanging the names negates the order and keeps the common-label count |
| DnsOrder.CompareTransitive | slave/dns/labelsequence.cpp:119-191 | the order is transitive, strictly where either part is |
| DnsOrder.CompareZero | slave/dns/labelsequence.cpp:119-191 | zero exactly on names equal up to case, and exactly when the relation is EQUAL |
| DnsOrder.CommonSuffix | slave/dns/labelsequence.cpp:119-191 | the label count is the longest common suffix, and the relation tells whose whole it is |
| DnsOrder.CompareIsTotalOrder | slave/dns/labelsequence.cpp:119-191 | compare is a total order on names up to case |
| DnsOrder.LabelOrderIff | slave/dns/labelsequence.cpp:146-173 | a label comes first if and only if its first differing byte is smaller, folded or not, or it is a proper prefix |
| DnsOrder.CanonicalOrder | slave/dns/labelsequence.cpp:119-191 | the direction of the order, that of section 6.1 of RFC 4034: the last label that differs decides, a shorter name comes first |
| LabelSequences.WindowIsEncoding | slave/dns/labelsequence.cpp:38-48 | data pointer and length cover exactly the encoding of the window |
| LabelSequences.FlatEqualIff | slave/dns/labelsequence.cpp:92-117 | equality of folded wire bytes is equality of folded labels |
| LabelSequences.BytesEqual | slave/dns/labelsequence.cpp:98-116 | the loop decides equality up to case |
| LabelSequences.FlatEquals | slave/dns/labelsequence.cpp:92-117 | holds exactly when the two windows have the same labels up to case |
| LabelSequences.CompareLabel | slave/dns/labelsequence.cpp:146-173 | first differing byte, else length |
| LabelSequences.CompareViews | slave/dns/labelsequence.cpp:119-191 | the offset loops compute the order, count and relation of the label lists |
| LabelSequences.OrderZeroIffFlatEqual | slave/dns/labelsequence.cpp:92-191 | order zero if and only if the flat bytes are equal |
| LabelSequences.OrderZeroIffNamesEqual | slave/dns/name.cpp:407-437 | on names, order zero, flat equality and label-by-label equality coincide |
| LabelSequences.NameRepresents | slave/dns/name.cpp:402-411 | a name is a label sequence over all its labels |
| LabelSequences.NameEquals | slave/dns/name.cpp:413-437 | holds exactly when the labels agree up to case |
| LabelSequences.EscapeLabel | slave/dns/labelsequence.cpp:271-298 | one label's bytes, escaped so that the parser reads them back |
| LabelSequences.ToText | slave/dns/labelsequence.cpp:234-309 | prints exactly the window's labels |
| LabelBuffers.DeserializeSerialized | slave/dns/labelsequence.cpp:11-18 | deserialising a serialised sequence, whatever follows it, gives its labels |
| LabelBuffers.SerializedOctets | slave/dns/labelsequence.cpp:65-90 | octet by octet: the number of labels, where each begins, their encoding |
| LabelBuffers.CopyInto | slave/dns/labelsequence.cpp:86-87 | overwrites one stretch of the buffer and nothing else |
| LabelBuffers.WriteOffsets | slave/dns/labelsequence.cpp:82-85 | writes the window's offsets relative to its start |
| LabelBuffers.Serialize | slave/dns/labelsequence.cpp:65-90 | refused, untouched, exactly when the buffer is too short; else count, offsets and data |
| LabelBuffers.AppendHolds | slave/dns/labelsequence.cpp:350-359 | encodings and offsets written behind others make one longer valid sequence |
| LabelBuffers.AppendLabels | slave/dns/labelsequence.cpp:350-359 | the copy leaves the buffer holding both label lists with valid offsets |
| LabelBuffers.BufferedSequence.Copy | slave/dns/labelsequence.cpp:20-35 | an equal sequence in the given buffer |
| LabelBuffers.BufferedSequence.StripLeft | slave/dns/labelsequence.cpp:193-200 | refused exactly when no label would remain |
| LabelBuffers.BufferedSequence.StripRight | slave/dns/labelsequence.cpp:202-209 | refused exactly when no label would remain |
| LabelBuffers.BufferedSequence.Extend | slave/dns/labelsequence.cpp:316-360 | the receiver's labels without root, then the argument's; refused, unchanged, exactly on an unrelated buffer, over 128 labels or over 255 bytes |
| LabelBuffers.StripKeeps | slave/dns/labelsequence.cpp:193-209 | stripping leaves a valid sequence of the remaining labels |
| NameAlgebra.ConcatenateAppends | slave/dns/name.cpp:459-487 | appends the label lists exactly when the length check passes, offsets modulo 256 being exact |
| NameAlgebra.SplitSlices | slave/dns/name.cpp:511-532 | slices the label list and closes it with the root; refused exactly on an empty or missing range |
| NameAlgebra.SplitThenConcatenate | slave/dns/name.cpp:459-541 | splitting at any inner label and concatenating gives the name back |
| NameAlgebra.ReverseIsInvolution | slave/dns/name.cpp:489-509 | reversing twice gives the name back, same length |
| NameAlgebra.Reverse | slave/dns/name.cpp:489-509 | the loop's bytes and offsets are those of the reversed label list |
| NameAlgebra.Downcase | slave/dns/name.cpp:543-563 | in place, the bytes become those of the lower-cased labels |
| Buffers.BigEndianRoundTrip | slave/util/buffer.h:47-79 | the octets of a 16- or 32-bit number weigh 256 and 1, or 2^24, 2^16, 256 and 1, in that order, and are read back as the number |
| Buffers.InputBuffer.constructor | slave/util/buffer.h:25-26 | reading starts at the first byte |
| Buffers.InputBuffer.SetPosition | slave/util/buffer.h:32-37 | refused exactly past the end |
| Buffers.InputBuffer.ReadData | slave/util/buffer.h:81-88 | the next bytes, or a refusal that moves nothing |
| Buffers.InputBuffer.ReadUint8 | slave/util/buffer.h:39-45 | the next byte, or a refusal that moves nothing |
| Buffers.InputBuffer.ReadUint16 | slave/util/buffer.h:47-61 | the number whose high octet comes first at the position, or a refusal that moves nothing |
| Buffers.InputBuffer.ReadUint32 | slave/util/buffer.h:63-79 | the number the next four octets spell, the weightiest first, or a refusal that moves nothing |
| Buffers.OutputBuffer.constructor | slave/util/buffer.h:111-122 | empty, with the asked allocation |
| Buffers.OutputBuffer.EnsureAllocated | slave/util/buffer.h:242-256 | enough room and the same contents |
| Buffers.OutputBuffer.WriteData | slave/util/buffer.h:231-235 | appends, reallocating or not |
| Buffers.OutputBuffer.WriteUint8 | slave/util/buffer.h:196-199 | appends the byte |
| Buffers.OutputBuffer.WriteUint16 | slave/util/buffer.h:208-212 | appends the two octets that spell the number, the weightier first |
| Buffers.OutputBuffer.WriteUint32 | slave/util/buffer.h:223-229 | appends the four octets that spell the number, the weightiest first |
| Buffers.OutputBuffer.Clear | slave/util/buffer.h:187-187 | empties without releasing |
| DhcpOptions.ParseOptions | slave/dhcp++/libdhcp++.cpp:126-181 | no option read has the code of PAD or END |
| DhcpOptions.PackOption | slave/dhcp++/option.cpp:77-94 | fails, writing nothing, exactly on a payload over 253 octets |
| DhcpOptions.PackPlain | slave/dhcp++/libdhcp++.cpp:236-249 | the loop writes the ordinary options in order and keeps the last of each other kind; on a refusal the buffer holds exactly those before the one that is too long |
| DhcpOptions.PackOptions | slave/dhcp++/libdhcp++.cpp:231-260 | relay agent information and END go last; fails exactly when a written option is too long, leaving exactly the options before it |
| DhcpOptions.UnpackOptions | slave/dhcp++/libdhcp++.cpp:126-181 | inserts the options that lead the bytes in reading order, skips rejected ones, and stops at END or a cut |
| DhcpOptions.ParsePacked | slave/dhcp++/libdhcp++.cpp:126-181 | the written options are read back, whatever follows END |
| DhcpOptions.InsertAllSorted | slave/dhcp++/libdhcp++.cpp:165-171 | inserting in code order keeps that order |
| DhcpOptions.InsertMiddle | slave/dhcp++/libdhcp++.cpp:165-171 | an option goes after those of smaller or equal code |
| DhcpOptions.InsertAllKeepsOrder | slave/dhcp++/libdhcp++.cpp:165-171 | the option multimap stays in code order |
| DhcpOptions.ReinsertAgent | slave/dhcp++/libdhcp++.cpp:126-181 | relay agent information read last returns to its place |
| DhcpOptions.OptionsRestored | slave/dhcp++/libdhcp++.cpp:126-260 | unpacking the packed options rebuilds the multimap without the options their definitions reject |
| DhcpOptions.RereadSameIff | slave/dhcp++/libdhcp++.cpp:126-260 | what unpacking yields is the options themselves if and only if no code is 0 or 255 and code 82 occurs at most once |
| DhcpOptions.OptionsRestoredIff | slave/dhcp++/libdhcp++.cpp:126-260 | options can be packed and survive unchanged if and only if no code is 0 or 255, no payload exceeds 253 octets and code 82 occurs at most once |
| OptionStreams.StreamIsRead | slave/dhcp++/libdhcp++.cpp:126-181 | a stream of options, each its code, its length and its payload, with padding anywhere between, reads as those options and stops where it ends, whatever follows |
| OptionStreams.EveryStreamIsRead | slave/dhcp++/libdhcp++.cpp:126-181 | every byte string is such a stream, so what is read is exactly the options that stand in it |
| OptionStreams.PackedIsStream | slave/dhcp++/libdhcp++.cpp:231-260 | packed options are such a stream of them, in order |
| OptionStreams.EmittedOrder | slave/dhcp++/libdhcp++.cpp:231-260 | options in code order are written in code order, relay agent information after them, option 255 last |
| OptionStreams.LastIsLast | slave/dhcp++/libdhcp++.cpp:236-249 | of several options of such a code the last is written |
| DhcpPacket.FixedRoundTrip | slave/dhcp++/pkt.cpp:91-101 | the fixed fields are read from where they are written |
| DhcpPacket.HwaddrRoundTrip | slave/dhcp++/pkt.cpp:103-116 | the hardware address comes back if and only if it has at most 16 octets |
| DhcpPacket.HeaderRoundTripIff | slave/dhcp++/pkt.cpp:87-155 | the header comes back if and only if the hardware type is one octet and the address fits |
| DhcpPacket.CookieIff | slave/dhcp++/pkt.cpp:164-171 | the cookie is the octets 0x63, 0x82, 0x53, 0x63 |
| DhcpPacket.PackedMessageOctets | slave/dhcp++/pkt.cpp:87-127 | where each header field lies in a packed message, octet by octet, and the cookie behind it |
| DhcpPacket.ParsedHeaderOctets | slave/dhcp++/pkt.cpp:137-155 | which octets of a datagram each header field is read from |
| DhcpPacket.AcceptedDatagrams | slave/dhcp++/pkt.cpp:129-202 | a datagram is accepted if and only if it has 240 octets, an address length of at most 20 and the cookie at octet 236; else which error |
| DhcpPacket.MessageRoundTrip | slave/dhcp++/pkt.cpp:87-202 | unpacking a packed message, trailing bytes or not, restores header and accepted options |
| DhcpPacket.MessageRoundTripIff | slave/dhcp++/pkt.cpp:87-202 | packing succeeds and unpacking restores the message if and only if the hardware type is one octet, the address fits in 16, and the options meet the condition above |
| DhcpPacket.LongPayloadIsRefused | slave/dhcp++/option.cpp:85-94 | a message with a 254-octet payload whose octets would be read back, but which packing refuses |
| DhcpPacket.Pkt.constructor | slave/dhcp++/pkt.cpp:43-77 | an Ethernet BOOTREQUEST without options, its addresses zero, its name fields cleared |
| DhcpPacket.Pkt.AddOption | slave/dhcp++/pkt.cpp:446-452 | refused exactly when an option of that code is present; else the multimap gains the option in its place |
| DhcpPacket.Pkt.PackFixed | slave/dhcp++/pkt.cpp:91-101 | appends the 28 fixed octets |
| DhcpPacket.Pkt.PackChaddr | slave/dhcp++/pkt.cpp:103-116 | appends 16 octets: the address padded, or zeros when it is empty or too long |
| DhcpPacket.Pkt.PackHeader | slave/dhcp++/pkt.cpp:88-119 | the buffer holds exactly the 236 header octets |
| DhcpPacket.Pkt.Pack | slave/dhcp++/pkt.cpp:87-127 | succeeds exactly when every written option fits, and then the buffer is the message, each field at its octets; else it is the message up to the option that does not fit |
| DhcpPacket.Pkt.Unpack | slave/dhcp++/pkt.cpp:129-202 | accepts exactly the datagrams of AcceptedDatagrams, every field read from its octets; every refusal in its order, with the header fields already overwritten |
| DhcpPacket.Pkt.ReadHeader | slave/dhcp++/pkt.cpp:137-155 | refused exactly when the stated address length exceeds 20, the fields before it already assigned |
| DhcpPacket.Pkt.ReadFixed | slave/dhcp++/pkt.cpp:137-147 | the moving position reads each field from its place |
| JsonText.EscapeReads | slave/util/json11.cpp:48-83 | each escape dump writes is read back as the bytes it stands for |
| JsonText.EscapedStringReads | slave/util/json11.cpp:442-533 | every byte string, escaped and read, comes back byte for byte |
| JsonText.DigitTextFacts | slave/util/json11.cpp:38-42 | decimal text has no leading zero and denotes its number |
| JsonText.IntReads | slave/util/json11.cpp:535-588 | an integer's text reads back as the integer up to nine characters and as a double of the same text beyond |
| JsonTokens.PiecesRead | slave/util/json11.cpp:442-533 | every string of the grammar, of plain bytes and escapes, is read to the bytes it denotes, surrogate pairs joined |
| JsonTokens.DivideString | slave/util/json11.cpp:442-533 | every string that is read is one of the grammar |
| JsonTokens.NumberReads | slave/util/json11.cpp:535-588 | every numeral of the grammar is read to the number it denotes, to its last byte |
| JsonTokens.DivideNumber | slave/util/json11.cpp:535-588 | every number that is read is a numeral of the grammar |
| JsonLanguage.DocParses | slave/util/json11.cpp:606-694 | at any depth, a text of the grammar, with any white space, is read to what it denotes, or is too deep |
| JsonLanguage.DivideValue | slave/util/json11.cpp:606-694 | every value that is read is a text of the grammar behind white space |
| JsonLanguage.SlotParses | slave/util/json11.cpp:698-708 | a whole text of the grammar, with spaces, tabs, line feeds and carriage returns around any token, parses to what it denotes, or fails as too deep beyond 200 |
| JsonLanguage.ParseIff | slave/util/json11.cpp:698-708 | a text parses to a value if and only if it is a text of the grammar of RFC 8259 that denotes the value and nests at most 200 deep |
| JsonRoundTrip.DumpParses | slave/util/json11.cpp:606-694 | at any depth, before any text that cannot extend it, a dumped value reads back or is too deep |
| JsonRoundTrip.ParseDump | slave/util/json11.cpp:698-708 | parsing a dump fails if and only if the value nests over 200 deep, and the failure is that one |
| JsonRoundTrip.RespacedDump | slave/util/json11.cpp:334-708 | any strings of the four white-space bytes around the tokens of a dump leave what it parses to |
| JsonLaws.RereadSameIff | slave/util/json11.cpp:558-561 | the value read back is the value itself if and only if its integers print in nine characters |
| JsonLaws.RoundTripIff | slave/util/json11.cpp:24-708 | a value parses back to itself if and only if it nests at most 200 deep and its integers are short |
| JsonLaws.RereadEqual | slave/util/json11.cpp:144-160 | a long integer read as a double still compares equal |
| JsonLaws.RoundTripEqual | slave/util/json11.cpp:267-272 | every value nested at most 200 deep parses back to an equal value |
| JsonLaws.PutKeepsSorted | slave/util/json11.cpp:654-656 | an object keeps its keys in order, each once |
| JsonLaws.PutReplaces | slave/util/json11.cpp:654-656 | filing a member replaces the one with its key and leaves every other |
| JsonLaws.RepeatedKeys | slave/util/json11.cpp:636-667 | in an object each key that occurs has the value it is last given |
| JsonLaws.LessIff | slave/util/json11.cpp:654-656 | keys are ordered by their first differing byte, a key before its extensions |
| JsonLaws.Utf8Layout | slave/util/json11.cpp:417-440 | the one- to four-byte forms of section 3 of RFC 3629, lead byte and six bits in each byte behind it |
| JsonLaws.DigitValues | slave/util/json11.cpp:477-561 | digits count in tens, hexadecimal ones in sixteens, in either case |
| JsonLaws.ParsedInRange | slave/util/json11.cpp:606-694 | whatever the text, a parsed value has ordered keys and bounded nesting |
| JsonLaws.ParsedIsWellFormed | slave/util/json11.cpp:698-708 | the same for a whole text |
| JsonParsing.DumpString | slave/util/json11.cpp:48-83 | appends the quoted string |
| JsonParsing.DumpJson | slave/util/json11.cpp:24-113 | appends the text of the value |
| JsonParsing.DumpArray | slave/util/json11.cpp:85-95 | the loop appends the items with separators |
| JsonParsing.DumpObject | slave/util/json11.cpp:97-109 | the loop appends the members with separators |
| JsonParsing.JsonParser.constructor | slave/util/json11.cpp:699-699 | parsing starts at the first byte without failure |
| JsonParsing.JsonParser.Fail | slave/util/json11.cpp:322-332 | the first failure is the one reported |
| JsonParsing.JsonParser.ConsumeWhitespace | slave/util/json11.cpp:334-341 | skips bytes 0x20, 0x09, 0x0a and 0x0d only, up to the first byte that is none of them |
| JsonParsing.JsonParser.GetNextToken | slave/util/json11.cpp:404-415 | the first non-blank byte, or a failure at the end |
| JsonParsing.JsonParser.ParseString | slave/util/json11.cpp:442-533 | the loop reads the specified string, surrogate pairs included; a failure yields the empty string and stops where the string breaks |
| JsonParsing.JsonParser.ParseNumber | slave/util/json11.cpp:535-588 | reads the specified number, every failure included |
| JsonParsing.JsonParser.ExpectText | slave/util/json11.cpp:590-604 | the literal in full, or a failure |
| JsonParsing.JsonParser.ParseJson | slave/util/json11.cpp:606-694 | value, position and failure are those of the specification; a failure yields null, or the empty string where a string was begun |
| JsonParsing.JsonParser.ParseArrayBody | slave/util/json11.cpp:669-691 | the loop reads the specified array |
| JsonParsing.JsonParser.ParseObjectBody | slave/util/json11.cpp:636-667 | the loop reads the specified object |
| JsonParsing.ParseText | slave/util/json11.cpp:698-708 | a whole text yields the value JsonLanguage.ParseIff says it denotes, or the first failure with null, or with the empty string when the text is a broken string |
| MatcherBuilder.ClientClassMatcherBuilder.constructor | slave/server/client_class_matcher.h:24-26 | both stacks start empty |
| MatcherBuilder.ClientClassMatcherBuilder.Add | slave/server/client_class_matcher.cpp:58-82 | combines with a pending operator or pushes, failing where the code would |
| MatcherBuilder.ClientClassMatcherBuilder.On | slave/server/client_class_matcher.cpp:109-128 | each event changes the stacks as specified, failing where the code would |
| MatcherBuilder.ClientClassMatcherBuilder.GetMatcher | slave/server/client_class_matcher.cpp:130-134 | after the events of any expression there is a matcher, and it accepts exactly the packets on which the expression evaluates to true; none exactly where the assertions fail |
| MatcherBuilder.MatcherEvaluates | slave/server/client_class_matcher.cpp:41-51 | the expected matcher accepts exactly where left-to-right evaluation is true |
| MatcherBuilder.FeedTerm | slave/server/client_class_matcher.cpp:109-120 | a bracketed group, however nested, acts as one operand |
| MatcherBuilder.FeedExpr | slave/server/client_class_matcher.cpp:58-128 | an expression fed inside any group leaves one more matcher and the same operators |
| MatcherBuilder.BuilderCompilesExpression | slave/server/client_class_matcher.cpp:58-134 | every expression compiles without a failed assertion to a matcher equal to left-to-right evaluation |
| LruCache.RecentListsUsedKeys | slave/util/lru_cache.h:25-61 | the recency list holds exactly the used keys, each once |
| LruCache.RecentIsByLastUse | slave/util/lru_cache.h:25-61 | it runs from the latest use to the earliest |
| LruCache.UsedSince | slave/util/lru_cache.h:25-61 | a key's position is the number of distinct keys used since |
| LruCache.CacheKeepsMostRecent | slave/util/lru_cache.h:25-61 | after every run the cache holds the most recently used keys in recency order, each with its last value |
| LruCache.CachedIff | slave/util/lru_cache.h:25-61 | a key is cached if and only if it was used and fewer than the maximum of other keys were used since |
| LruCache.Unlink | slave/util/lru_cache.h:28-31 | erasing a node and its map entry removes exactly one key |
| LruCache.Link | slave/util/lru_cache.h:27-32 | pushing a node for a new key keeps map and list agreeing and puts the key first |
| LruCache.IndexSize | slave/util/lru_cache.h:67-69 | the map's size is the list's length |
| LruCache.Lru.constructor | slave/util/lru_cache.h:19-23 | empty; a maximum of 0 means 10240 |
| LruCache.Lru.Push | slave/util/lru_cache.h:25-32 | list, nodes and map after a put, before the size check |
| LruCache.Lru.Put | slave/util/lru_cache.h:25-40 | the key moves to the front with its new value and the oldest key goes when the size exceeds the maximum; map and list keep agreeing |
| LruCache.Lru.Find | slave/util/lru_cache.h:42-61 | a hit returns the value and moves the key to the front; a miss changes nothing |
| LruCache.Lru.Exists | slave/util/lru_cache.h:63-65 | true exactly for cached keys |
| LruCache.Lru.Size | slave/util/lru_cache.h:67-69 | the number of cached keys, never over the maximum |

## Left out

- Clock: each message reads the time once, in whole seconds; the source reads it at each use.
- Addresses and MACs: an address is a 32-bit number and a MAC six bytes; other lengths, which would panic or alias, do not occur.
- Hosts: reservations are a map from MAC to address with distinct addresses; a missing host manager is an empty map.
- Shared networks, configuration loading, reload and the re-routing of a re-added subnet: the routes of WriteBehind are fixed.
- Subnets of WriteBehind: their leases lie in disjoint addresses; nothing in the source enforces this.
- WriteBehind.ActKeeps: Close is enabled only when no operation waits to be sent; in Go a send on a closed channel would panic.
- Database: every call succeeds, one row per address; SQL text, transactions and connection errors are not modelled, and a row keeps client-id and MAC as bytes and lifetimes untruncated.
- GetLeaseCount, GetLeaseWithClientAndMac and SmartAllocator: they would only add easy members.
- LeaseStores.LeaseStore.DeletePool: requires a pool that ends below 255.255.255.255, where the source's 32-bit counter would wrap and the loop never end.
- Pools.IterativeAllocator.PickAddr: requires an unset cursor with a pool to start from, or a cursor inside a pool; elsewhere the source dereferences nil, which the decision functions answer with Panic.
- Engine.SubnetEngine.AllocateUnreserved: requires a usable cursor, for the same reason.
- Engine.SubnetEngine.Plan: requires a usable cursor, for the same reason.
- LabelBuffers.Serialize: the sequence lives outside the buffer written to; the source's check for overlapping memory is not modelled.
- LabelBuffers.BufferedSequence.Extend: the argument's bytes and offsets are read before any is overwritten; an argument that shares the receiver's buffer is not modelled.
- Name with an origin, getHash, leq and its relatives, stream output: easy members over what is modelled.
- Options: payloads are opaque bytes; typed options, sub-options and the definition tables enter only as the predicate that accepts or rejects an option.
- Logging of rejected options, sockets, checks of addresses and interfaces, text forms of packets.
- JSON: doubles are kept as the text they were read from, so printing them and rounding are left to the C library; comments and parse_multi are not modelled; error messages are an enumeration.
- JsonParsing.JsonParser.ParseArrayBody: returns at once when the input ends inside an array, where the source makes one more call that fails for the same reason.
- The grammar of client-class expressions: the model starts from the events its actions emit; leaf matchers are arbitrary predicates.
- Sockets, netlink, ICMP, sessions, RPC, queues, logging, hooks and statistics.
