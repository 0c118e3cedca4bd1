# Verified models of the Helium oracles

Dafny models of four parts of the Helium IoT oracles, with proofs of what they are for:

- **Data-credit burning** (`BurnProtocol`, `BurnSafety`, `BurnQueue`, `PacketVerifier`, `PacketReports`). The chain, two Postgres tables
  and an in-memory cache must agree while packets are debited, burns are recorded, submitted and settled, the recovery
  confirms left-over transactions, a monitor refreshes balances, and the process crashes and restarts. A state machine
  with one event per atomic step carries the invariant; classes for the cache and the burner refine its steps.
- **Device addresses** (`LoraField`, `HexText`, `DevAddrAllocator`, `OrgLeases`, `LeaseFaults`, `AddedRanges`,
  `OrgStore`). The NetID and address bit layout of the "DevAddr Assignment" section of the LoRaWAN Backend Interfaces specification (section 13 in the 1.0
  edition), the allocator of address slabs, and the leases of organizations over whole runs of requests.
- **Proof-of-coverage rewards** (`HexDensity`, `HexScale`, `Witnesses`, `RewardUnits`, `Rewards`, `ShareAggregation`,
  `DcBones`, `RewardPeriods`). Hex density clipping and scaling, the witness pipeline, HIP-15 units, the distribution of
  rewards with all roundings written out, and the periods in which shares are counted.
- **Staged files and replicas** (`FileSink`, `RouteReplica`). The commit and rollback sink, and the broadcast that route
  subscribers replay.

`Wrappers`, `Rounding` and `Sums` hold shared definitions.

## Assumptions

What surrounds the modelled code is stated as follows.

- Only this service burns the credits of its payers, and a transaction that the recovery sees as not confirmed never
  lands later.
- `amount + burned` does not overflow 64 bits.
- The monitor does not store a balance that it read before a landed burn of the same payer was taken off the cache. The
  code reads outside the lock; `BurnSafety.StaleStoreOverdrawsIff` says exactly what such a store breaks, and
  `BurnSafety.StaleFundsBreakSolvency` gives a run.
- The balance and confirmation requests to the chain agree on what has landed.
- The cache update of a debit and its table insert are one step with respect to the other tasks; a file whose insert fails
  is aborted, so its debits become orphans either way. Signatures of new transactions are unused.
- Requests to the address allocator run one after the other. They carry aligned ranges inside the NetID and no repeated
  removal, and roamers bring a fitting NetID of their own; each of these conditions has a lemma that says exactly what
  breaks without it.
- The ring of a hex cell holds cells of the same resolution, and parents of parents are parents.
- File names of a sink, which are creation times, are not reused.
- Tables are maps, and a database transaction commits as a whole or not at all.

## Where the code does not do what it promises

- A balance refresh in the middle of a burn makes the unsigned `balance - burned` underflow (`BurnSafety.UnderflowIff`,
  `BurnSafety.UnderflowIsReachable`).
- A balance that was read before a burn and stored after it lets debits through without cover
  (`BurnSafety.StaleStoreOverdrawsIff`, `BurnSafety.StaleFundsBreakSolvency`).
- A report whose table or packet write fails stays charged in the cache, or in cache and table, without a packet
  (`PacketReports.Verify`).
- Type 7 NetIDs keep 16 of their 17 bits, so different NetIDs share a range (`LoraField.RoundTripIff`).
- Added address ranges are not validated. One inside the NetID that starts at an odd address lets slabs lease addresses
  twice, at once if something is free above it (`AddedRanges.AddedRangeDoubleLeasesIff`, `LeaseFaults.UnalignedRangeRun`)
  and otherwise once something above it is given back, unless it reaches the end of the NetID
  (`AddedRanges.AddedRangeRunsIff`). One with an even start and an even end never does, but makes slabs fail
  (`AddedRanges.EvenEndBlocksSlabs`). One outside the NetID makes slabs lease addresses of other NetIDs
  (`DevAddrAllocator.OfferedInsideIff`, `LeaseFaults.OutsideRangeRun`).
- Removals are checked against the constraints from before the request (`OrgLeases.ReleaseKeepsInvIff`,
  `LeaseFaults.SecondRemovalFreesLeasedAddresses`), so an organization can lose its last constraint, and then it is stuck
  (`OrgLeases.KeepsAConstraintIff`, `LeaseFaults.ConstraintsRunOut`).
- A roamer may name a Helium NetID or one that does not fit (`LeaseFaults.RoamDoubleLeasesIff`).
- Session key filters that are removed and added in one batch are lost by subscribers
  (`RouteReplica.SkfReplicaAgreesIff`), although a comment says that the order of the table updates avoids this.
- A reward pass that stops between the purge of the tables and the manifest leaves the shares of its period without
  rewards (`RewardPeriods.ShareIsLostIff`).
- A burn that keeps failing keeps its payer in front, so nobody else is burned (`BurnQueue.FailuresBlock`).

## Model

| member | source | states |
|---|---|---|
| `BurnProtocol.StepKeepsInv` | iot_packet_verifier/src/burner.rs:92-137 | every step of chain, report files, funds monitor, burner phases, recovery, crash and restart keeps the invariant: `burned` plus landed burns equals pending, open, lagging and orphaned debits, the cached balance stays within chain plus lag, at most one transaction is pending, every payer in a table is cached |
| `BurnProtocol.DebitBalanced` | iot_packet_verifier/src/balances.rs:69-101 | one debit, refused, accepted, or accepted with a refreshed balance, keeps the books of its payer |
| `BurnProtocol.DeductKeepsBalance` | iot_packet_verifier/src/burner.rs:127-132 | taking a landed burn off the cached account keeps the books and never saturates `burned` |
| `BurnProtocol.SettleKeepsBalance` | iot_packet_verifier/src/burner.rs:118-125 | the table transaction of a landed burn removes its row and its amount together |
| `BurnProtocol.RecordKeeps` | iot_packet_verifier/src/burner.rs:101-109 | recording a transaction keeps at most one row, tied to what the burner does next, whether the insert succeeds, fails, or fails after it took effect |
| `BurnProtocol.ConfirmDroppedKeeps` | iot_packet_verifier/src/pending.rs:75-94 | a transaction that never landed loses its row, unless the commit is lost, and chain, amounts, cache and monitor stay as they are |
| `BurnProtocol.ConfirmLandedKeeps` | iot_packet_verifier/src/pending.rs:81-92 | recovery takes a landed burn off the cached account before the tables commit, and the books still balance |
| `BurnProtocol.LoadKeeps` | iot_packet_verifier/src/balances.rs:28-51 | loading an account at startup, with an unsettled landed burn, keeps cache and tables consistent |
| `BurnProtocol.StoreFundsKeeps` | iot_packet_verifier/src/verifier.rs:244-254 | storing a balance that is covered by chain plus lag keeps the books, also for a payer seen for the first time |
| `BurnSafety.ReachableInv` | iot_packet_verifier/src/daemon.rs:119-132 | the invariant holds in every state of every run from an empty deployment |
| `BurnSafety.Solvency` | iot_packet_verifier/src/balances.rs:69-101 | in every reachable state, committed and open debits of a payer are at most the chain balance plus landed burns not yet settled |
| `BurnSafety.BurnsAreAffordable` | iot_packet_verifier/src/burner.rs:101-113 | every recorded transaction that has not landed can be paid by its payer, so one in flight can land |
| `BurnSafety.InFlightIsPending` | iot_packet_verifier/src/burner.rs:107-113 | every transaction in flight has its row in `pending_txns` |
| `BurnSafety.ExactlyOnce` | iot_packet_verifier/src/pending.rs:57-98 | burned on chain plus `pending_burns` equals the debits of all committed files plus landed pending burns; without a pending transaction the two sides are equal, through any failures and crashes |
| `BurnSafety.BurnLookupIsSafe` | iot_packet_verifier/src/burner.rs:127-132 | the account lookup of a settled burn finds its payer, and `burned` covers the amount |
| `BurnSafety.RecoveryLookupIsSafe` | iot_packet_verifier/src/pending.rs:86-92 | the account lookup of the recovery finds its payer, and `burned` covers the amount |
| `BurnSafety.TableDeductionIsSafe` | iot_packet_verifier/src/pending.rs:204-225 | the `pending_burns` row of a landed burn exists and is large enough |
| `BurnSafety.UnderflowIff` | iot_packet_verifier/src/balances.rs:87-98 | for every refresh threshold, some debit of at least one credit underflows `balance - burned` if and only if the threshold is positive, the account still has funds and its cached balance is above the chain balance |
| `BurnSafety.NewPayerNeverUnderflows` | iot_packet_verifier/src/balances.rs:77-85 | the first debit of a payer never underflows |
| `BurnSafety.DebitIsSafeWithoutLag` | iot_packet_verifier/src/balances.rs:92-98 | in every reachable state, no debit of a payer underflows while no landed burn of that payer waits for its cache deduction |
| `BurnSafety.UnderflowIsReachable` | iot_packet_verifier/src/balances.rs:93-97 | a concrete run reaches a state where a refresh in the middle of a burn underflows |
| `BurnSafety.StaleStoreOverdrawsIff` | iot_packet_verifier/src/verifier.rs:216-254 | after a stored balance some debit is accepted without cover if and only if the balance read plus pending and open debits exceeds the chain balance plus landed rows plus the cached `burned`, at every threshold |
| `BurnSafety.StaleFundsBreakSolvency` | iot_packet_verifier/src/verifier.rs:216-222 | a concrete run in which a stale balance is stored and the next debit is accepted without cover |
| `PacketVerifier.BalanceCache.Load` | iot_packet_verifier/src/balances.rs:24-51 | the loop over all pending burns caches exactly those payers, with chain balance and burned amount, if and only if the chain answers for all of them |
| `PacketVerifier.BalanceCache.DebitIfSufficient` | iot_packet_verifier/src/balances.rs:69-101 | the mutable cache follows the debit decision for its payer, changes no other account, and changes nothing when the balance request fails |
| `PacketVerifier.Burner.FetchNextBurn` | iot_packet_verifier/src/burner.rs:95-97 | any payer with at least the burn threshold, handed in, is fetched with the whole pending amount, as the protocol step says |
| `BurnQueue.FetchNextBurn` | iot_packet_verifier/src/pending.rs:124-132 | a payer at or above the threshold whose last burn is the earliest of all such payers, or none if there is none |
| `BurnQueue.WaitIsBounded` | iot_packet_verifier/src/pending.rs:124-225 | once a payer is due, at most as many burns are settled before its own as payers were last burned no later, plus one already under way, through any debits and failed burns |
| `BurnQueue.FailuresBlock` | iot_packet_verifier/src/burner.rs:92-137 | as long as burns fail, the payer in front is the only one fetched |
| `PacketVerifier.Burner.AddPendingTransaction` | iot_packet_verifier/src/burner.rs:107-109 | the row insert refines the protocol step, for each outcome of the commit |
| `PacketVerifier.Burner.SendTransaction` | iot_packet_verifier/src/burner.rs:110-113 | sending refines the protocol step |
| `PacketVerifier.Burner.LandTransaction` | iot_packet_verifier/src/burner.rs:110-113 | the sent transaction can always be paid, and landing refines the protocol step |
| `PacketVerifier.Burner.CommitSettlement` | iot_packet_verifier/src/burner.rs:118-125 | the table transaction refines the protocol step, for each outcome of the commit |
| `PacketVerifier.Burner.DeductAccount` | iot_packet_verifier/src/burner.rs:127-132 | the account exists and the two saturating subtractions refine the protocol step |
| `PacketVerifier.Burner.BurnPayer` | iot_packet_verifier/src/burner.rs:92-137 | a whole burn without interruption takes the pending amount off chain, tables and account exactly once; a failed one leaves the account untouched, the tables too unless the settlement took effect, and the rows for the recovery |
| `PacketVerifier.Burner.ConfirmRow` | iot_packet_verifier/src/pending.rs:75-94 | one row of the recovery: deducted from the account exactly when it landed, and removed and deducted from the tables unless the commit is lost |
| `PacketVerifier.Burner.ConfirmPendingTxns` | iot_packet_verifier/src/pending.rs:57-98 | the recovery loop, for any number of rows: all rows are gone and every payer is reduced by the sum of the landed rows, in the table and in the cached account; after an error the tables hold the rows from there on, and the accounts are ahead by the row whose commit was lost |
| `PacketReports.PayloadSizeToDc` | iot_packet_verifier/src/verifier.rs:131-137 | the fewest data credits, at least one, that cover the payload at 24 bytes each |
| `PacketReports.DebitReport` | iot_packet_verifier/src/verifier.rs:82-91 | one report debits the cached account and then the table by the same amount, or neither; the cache only when the table write fails |
| `PacketReports.Verify` | iot_packet_verifier/src/verifier.rs:51-128 | uplinks yield exactly one valid or invalid packet each, in order, as their payers can pay one after the other; table and cache are charged for exactly the accepted reports, and after an error also for the report being handled where its write failed |
| `PacketReports.LateIsOneReport` | iot_packet_verifier/src/verifier.rs:82-102 | after any error each payer is charged in the packets at most what the table holds and there at most what the cache holds; they differ by at most the report being handled, for its payer only |
| `LoraField.FullRangeOfFitting` | iot_config/src/lora_field.rs:359-451 | a NetID whose number fits owns the aligned power-of-two block in closed form |
| `LoraField.ToNetIdParts` | iot_config/src/lora_field.rs:462-476 | an address maps to the type of its leading ones and its network part, or is refused |
| `LoraField.RoundTrip` | iot_config/src/lora_field.rs:422-476 | for a fitting NetID, exactly the addresses of its range map back to it |
| `LoraField.RoundTripIff` | iot_config/src/lora_field.rs:367-476 | for every 24-bit NetID, range and reverse mapping agree if and only if its number fits |
| `LoraField.Misfit` | iot_config/src/lora_field.rs:367-378 | every NetID that does not fit has an address in its range that maps to another one |
| `LoraField.Type7Alias` | iot_config/src/lora_field.rs:367-378 | type 7 NetIDs with bit 16 set get the range of the NetID without it |
| `LoraField.RangesAreDisjoint` | iot_config/src/lora_field.rs:422-451 | different fitting NetIDs have no address in common |
| `LoraField.RangesCollide` | iot_config/src/lora_field.rs:367-403 | 0xE00000 and 0xE10000 get the same range |
| `LoraField.FittingCover` | iot_config/src/lora_field.rs:359-476 | the ranges of the fitting NetIDs together are exactly the addresses below 0xFE800000 |
| `LoraField.MisfitSharesIff` | iot_config/src/lora_field.rs:359-451 | a 24-bit NetID that does not fit shares an address with a fitting one if and only if its range starts below 0xFE800000 |
| `HexText.PrintParse` | iot_config/src/lora_field.rs:266-282 | a value below 16^width prints with exactly that width and parses back, for widths up to 16 |
| `HexText.PrintTooWide` | iot_config/src/lora_field.rs:266-282 | every larger value prints a string that the parser rejects for its length |
| `DevAddrAllocator.RangesMatchNetIds` | iot_config/src/helium_netids.rs:5-35 | the three address ranges in the code are the ranges of the three Helium NetIDs, and pair aligned |
| `DevAddrAllocator.StoreOrderIsAddressOrder` | iot_config/src/helium_netids.rs:72-82 | within a Helium range, the signed order of the table is the address order |
| `DevAddrAllocator.ConstraintsFromAddrs` | iot_config/src/helium_netids.rs:210-240 | the grouping loop computes the grouping function, with its error cases |
| `DevAddrAllocator.GroupPairs` | iot_config/src/helium_netids.rs:210-240 | grouping address pairs yields maximal runs that cover exactly these addresses |
| `DevAddrAllocator.GroupOddPairs` | iot_config/src/helium_netids.rs:233-239 | a single address after pairs is an error |
| `AddedRanges.OddSingleFails` | iot_config/src/helium_netids.rs:210-240 | pairs followed by a single odd address cannot be grouped, whatever comes after |
| `DevAddrAllocator.SelectAddrs` | iot_config/src/helium_netids.rs:131-160 | gaps up to the last used address first and then the addresses after it, whatever is used, or an error when there are too few |
| `DevAddrAllocator.OfferedIsFree` | iot_config/src/helium_netids.rs:131-160 | while the used addresses are in the range, these are exactly the lowest free addresses |
| `DevAddrAllocator.OfferedInsideIff` | iot_config/src/helium_netids.rs:131-160 | a checkout stays inside its NetID if and only if the last used address in store order is not the last word, and lies above the range without a gap, in it, or directly below it |
| `DevAddrAllocator.CheckoutExact` | iot_config/src/helium_netids.rs:123-170 | with used addresses in pairs, a checkout succeeds if and only if the count is positive, even and available; it then returns the maximal runs of exactly the lowest free addresses and keeps the pairs |
| `DevAddrAllocator.CheckoutExactIff` | iot_config/src/helium_netids.rs:123-240 | every count is checked out exactly, with success if and only if it is positive, even and available, if and only if the free addresses come in pairs, other than possibly the highest one |
| `DevAddrAllocator.InexactReachesOver` | iot_config/src/helium_netids.rs:210-240 | a checkout that succeeds without being exact returns a constraint over an address that is not free |
| `DevAddrAllocator.RangesOfHeliumAreDisjoint` | iot_config/src/helium_netids.rs:5-35 | no address belongs to two Helium NetIDs |
| `DevAddrAllocator.AddressTable.GetUsedAddrs` | iot_config/src/helium_netids.rs:72-82 | the used addresses of one NetID in store order |
| `DevAddrAllocator.AddressTable.ClaimAddrs` | iot_config/src/helium_netids.rs:84-97 | an insert of new, distinct addresses succeeds; anything else changes nothing |
| `DevAddrAllocator.AddressTable.ReleaseAddrs` | iot_config/src/helium_netids.rs:99-117 | removes exactly the given addresses of that NetID |
| `DevAddrAllocator.AddressTable.CheckoutConstraints` | iot_config/src/helium_netids.rs:123-170 | the table after a checkout holds exactly the claimed addresses more, and nothing more when one of them was used already |
| `DevAddrAllocator.AddressTable.CheckoutSpecified` | iot_config/src/helium_netids.rs:172-196 | a given range is claimed if and only if it is not empty and none of its addresses is used by anyone |
| `OrgLeases.SlabKeepsInv` | iot_config/src/org.rs:367-381 | a new slab keeps used addresses and constraints in agreement |
| `OrgLeases.RangeKeepsInv` | iot_config/src/org.rs:317-331 | an aligned range inside the NetID keeps used addresses and constraints in agreement |
| `OrgLeases.AddedRangeIsSafeIff` | iot_config/src/org.rs:317-331 | after any range inside the NetID is added to sound leases, the next checkout is exact, for every count, if and only if the range leaves at most one address without its partner and nothing is free above that one |
| `OrgLeases.ReleaseKeepsInv` | iot_config/src/org.rs:333-365 | releasing a leased range removes its row and its addresses |
| `OrgLeases.ReleaseKeepsInvIff` | iot_config/src/org.rs:333-365 | a release keeps the leases sound if and only if the row is still there or no address of the range is in use |
| `OrgLeases.RoamKeepsInv` | iot_config/src/org.rs:129-142 | a roamer with a fitting NetID of its own gets addresses that nobody has |
| `LeaseFaults.RoamDoubleLeasesIff` | iot_config/src/org.rs:127-142 | after some trusted requests a roamer leases an address a second time if and only if its NetID is one of Helium, or does not fit and its range starts below 0xFE800000 |
| `OrgLeases.JoinKeepsInv` | iot_config/src/org_service.rs:240-280 | a new Helium organization with at least eight addresses, an even number, gets a slab of its own |
| `OrgLeases.ApplyKeepsInv` | iot_config/src/org.rs:78-381 | every trusted create or update request keeps the lease invariant |
| `OrgLeases.LeasesPartitionUsedAddresses` | iot_config/src/org.rs:78-381 | after any list of trusted requests no address is leased twice, and an address of a Helium NetID is used if and only if a constraint covers it |
| `OrgLeases.KeepsAConstraintIff` | iot_config/src/org.rs:333-365 | a request leaves an organization a constraint if and only if it adds one or spares one; the check against the snapshot does not ensure it |
| `LeaseFaults.LastRangesAreRemoved` | iot_config/src/org.rs:333-365 | a request that removes both ranges of an organization succeeds and leaves it none |
| `OrgLeases.NoConstraintEverAgain` | iot_config/src/org.rs:252-263 | an organization without constraints has none after any further requests |
| `LeaseFaults.ConstraintsRunOut` | iot_config/src/org.rs:333-365 | such a run from the empty store, after which the organization never has a constraint again |
| `OrgLeases.OnlyAdminsMoveAddresses` | iot_config/src/org.rs:168-229 | an update by a delegate, or for a NetID that is not Helium’s, changes no lease |
| `OrgLeases.ChangeIsLocal` | iot_config/src/org.rs:405-425 | no update, trusted or not, changes the constraints of another organization |
| `LeaseFaults.SecondRemovalFreesLeasedAddresses` | iot_config/src/org.rs:163-200 | removing a range, leasing an inner one and removing the range again in one request frees leased addresses |
| `LeaseFaults.RoamersShareARange` | iot_config/src/org.rs:129-142 | two roamers whose NetIDs alias are leased the same addresses |
| `LeaseFaults.HeliumRoamer` | iot_config/src/org.rs:127-142 | a roamer with a Helium NetID always breaks the leases |
| `LeaseFaults.UnalignedRangeIsLeasedTwice` | iot_config/src/helium_netids.rs:216-231 | after an unaligned range was added, a slab of two leases that range a second time |
| `LeaseFaults.UnalignedRangeRun` | iot_config/src/org.rs:154-250 | for every Helium NetID a run of four requests from the empty store leases four addresses twice |
| `LeaseFaults.AddedRangeKeepsBooks` | iot_config/src/org.rs:317-331 | adding any range inside the NetID, aligned or not, leaves both tables in agreement and nothing leased twice |
| `LeaseFaults.SlabDoubleLeasesIff` | iot_config/src/org.rs:367-381 | while both tables agree, a slab that succeeds leases no address a second time if and only if the lowest free addresses, as many as it asks for, come in pairs |
| `AddedRanges.AddedRangeDoubleLeasesIff` | iot_config/src/org.rs:317-381 | after any range inside the NetID is added to sound leases, some list of slabs leases an address twice if and only if the range starts at an odd address and something is free above it; two slabs are then enough |
| `AddedRanges.AddedRangeRunsIff` | iot_config/src/org.rs:317-381 | some list of slabs and releases does so if and only if the range starts at an odd address and does not reach the end of the NetID |
| `AddedRanges.EvenEndBlocksSlabs` | iot_config/src/org.rs:367-381 | after a range with even start and even end, a slab succeeds if and only if its count is positive, even and at most the free addresses below the range |
| `LeaseFaults.OutsideRangeRun` | iot_config/src/org.rs:317-331 | for the two upper Helium NetIDs a run that adds the addresses 0 and 1 makes the next slab lease 2 and 3 |
| `OrgStore.Store.constructor` | iot_config/src/org.rs:78-85 | an empty store |
| `OrgStore.Store.AddSlab` | iot_config/src/org.rs:367-381 | checks out a slab and inserts its constraints, as the lease function says |
| `OrgStore.Store.AddRange` | iot_config/src/org.rs:317-331 | checks out a given range and inserts it, as the lease function says |
| `OrgStore.Store.RemoveRange` | iot_config/src/org.rs:333-365 | releases a held range unless it is the only one held when the request began |
| `OrgStore.Store.UpdateOrg` | iot_config/src/org.rs:154-250 | the loop over all updates ends in the state of the update function, or with the transaction rolled back to the state it began with |
| `HexDensity.LimitBounds` | iot_verifier/src/hex_density.rs:203-208 | a limit lies between target and maximum of its resolution |
| `HexDensity.RollUp` | iot_verifier/src/hex_density.rs:141-172 | the roll-up loop leaves in both maps, for each parent, the total of its children’s clipped counts, whatever the order |
| `HexDensity.OccupancySurvivesClipping` | iot_verifier/src/hex_density.rs:190-208 | clipping a neighbour never changes whether it counts as occupied |
| `HexDensity.Clip` | iot_verifier/src/hex_density.rs:173-186 | the clipping loop, run on the map it changes, gives every cell the count computed from the unclipped counts |
| `HexDensity.ReduceHexRes` | iot_verifier/src/hex_density.rs:162-188 | the reduction from resolution 10 to 4 leaves at each resolution unclipped = total of children’s clipped and clipped = min(limit, unclipped) |
| `HexDensity.ReducedIsUnique` | iot_verifier/src/hex_density.rs:128-188 | these equations determine both maps, so every iteration order gives the same result |
| `HexDensity.GlobalHexMap.constructor` | iot_verifier/src/hex_density.rs:104-110 | empty maps |
| `HexDensity.GlobalHexMap.IncrementUnclipped` | iot_verifier/src/hex_density.rs:112-126 | counts hotspots per cell of resolution 11 and ignores coarser cells and invalid indexes |
| `HexDensity.GlobalHexMap.ReduceGlobal` | iot_verifier/src/hex_density.rs:128-139 | the maps after the reduction satisfy the equations for the asserted hotspots |
| `HexScale.ComputeHexDensityMap` | iot_verifier/src/hex_density.rs:210-232 | every asserted hotspot, and no other, gets the product of the ratios above it, rounded to four places |
| `HexScale.CountsArePositive` | iot_verifier/src/hex_density.rs:219-224 | no unclipped count is zero, so no scale divides by zero |
| `HexScale.ClippedIsSmaller` | iot_verifier/src/hex_density.rs:173-186 | clipping never raises a count and keeps it within the configured maximum |
| `HexScale.LevelsConserved` | iot_verifier/src/hex_density.rs:141-232 | at every resolution, the partial scales of all hotspots under a cell add up exactly to its clipped count |
| `HexScale.DensityConservation` | iot_verifier/src/hex_density.rs:141-232 | for every cell of a used resolution, the unrounded scales of the hotspots under it add up to at most its clipped count, which is at most the maximum; at resolution 4 they add up exactly |
| `HexScale.ScalesInUnit` | iot_verifier/src/hex_density.rs:213-229 | every scale lies in (0, 1], and in [0, 1] once rounded |
| `Rounding.NearestIsUnique` | iot_verifier/src/reward_share.rs:37-41 | the rounded value is exactly the integer within one half, the even one at one half |
| `Rounding.RoundDpIsNearest` | iot_verifier/src/reward_share.rs:400-407 | rounding to decimal places gives exactly the nearest multiple of the unit, ties to even |
| `Rounding.CeilDpIsLeast` | iot_verifier/src/reward_share.rs:366-368 | rounding up gives exactly the least multiple of the unit that is not below |
| `DcBones.BonesCoverDc` | iot_verifier/src/reward_share.rs:360-369 | the bones are worth at least the data credits, and less than one unit of the fifteenth place more |
| `DcBones.RoundTrip` | iot_verifier/src/reward_share.rs:360-385 | up to a price of 10^22 every whole amount of data credits survives the conversion to bones and back |
| `DcBones.RoundTripFails` | iot_verifier/src/reward_share.rs:360-385 | above that price some whole amount comes back larger |
| `DcBones.RoundTripIff` | iot_verifier/src/reward_share.rs:360-385 | the round trip holds for all whole amounts if and only if the price is at most 10^22 |
| `RewardUnits.UnitsAreConserved` | iot_verifier/src/runner.rs:511-550 | before rounding, beaconer units plus n times witness units is 5*min(n,4)/4 for every n |
| `RewardUnits.RoundedUnitsAreConserved` | iot_verifier/src/runner.rs:511-550 | after rounding, it is off by at most (n+1)/20000 |
| `RewardUnits.CapsAreIdle` | iot_verifier/src/runner.rs:523-546 | neither cap is ever reached |
| `RewardUnits.BeaconerUnitsGrow` | iot_verifier/src/runner.rs:511-532 | beaconer units never decrease with more witnesses, rounded or not, and stay below two unrounded |
| `RewardUnits.WitnessUnitsShrink` | iot_verifier/src/runner.rs:534-550 | witness units never increase with more witnesses from one on, rounded or not |
| `Rewards.PoolsAddUp` | iot_verifier/src/reward_share.rs:43-62 | beacon, witness and capped data transfer pool add up to the schedule, whatever the data transfer is worth |
| `Rewards.ScheduleIsProRata` | iot_verifier/src/reward_share.rs:18-62 | the schedule is 80% of the daily rewards by the second, and data transfer has 50%, up to rounding |
| `Rewards.WitnessPoolIsFourfold` | iot_verifier/src/reward_share.rs:30-55 | the witness pool is four times the beacon pool up to rounding, also with the remainder of data transfer |
| `Rewards.DcPoolIsCapped` | iot_verifier/src/reward_share.rs:387-398 | data transfer is paid what it is worth up to its scheduled tokens |
| `Rewards.PaidBounds` | iot_verifier/src/reward_share.rs:409-414 | rounding amounts down pays at most what is due, and less than one bone per gateway less when it fits 64 bits |
| `Rewards.RateIsClose` | iot_verifier/src/reward_share.rs:400-407 | the rounded rate times all shares is the pool, up to half a unit of the fifteenth place per share |
| `Rewards.PoolAmountBounds` | iot_verifier/src/reward_share.rs:251-343 | what one pool pays out at most, and at least when it has shares and fits 64 bits |
| `Rewards.RewardsMeetTheSchedule` | iot_verifier/src/reward_share.rs:251-343 | gateways are paid at most the schedule plus total shares/(2*10^15); when all pools have shares and the total fits 64 bits, at least the schedule minus that error and minus three bones per gateway |
| `Rewards.PayGateways` | iot_verifier/src/rewarder.rs:228-241 | the allocation loop writes every reward above zero, in order, and adds up exactly what it writes |
| `Rewards.WrittenPerPool` | iot_verifier/src/reward_share.rs:258-273 | the written amounts of each kind add up to what the pool of that kind pays |
| `Rewards.WrittenIsAllocated` | iot_verifier/src/reward_share.rs:274-291 | dropping rewards of zero loses nothing |
| `Rewards.RewardPocAndDc` | iot_verifier/src/rewarder.rs:207-256 | the amount paid out is the sum over the three pools, and the rest of the schedule is unallocated |
| `Rewards.UnallocatedCompletes` | iot_verifier/src/rewarder.rs:243-247 | paid and unallocated amounts meet the schedule to within one bone when no more than it was paid, and otherwise nothing is unallocated |
| `Rewards.OperationalFundIsSpent` | iot_verifier/src/rewarder.rs:262-292 | the unallocated part of the operational fund is always zero |
| `ShareAggregation.Aggregate` | iot_verifier/src/reward_share.rs:416-466 | the loop over saved shares fills one entry per gateway |
| `ShareAggregation.AggregateConserves` | iot_verifier/src/reward_share.rs:209-220 | the entries of a pool add up to the worth of all saved shares |
| `ShareAggregation.SharesAreConserved` | iot_verifier/src/reward_share.rs:345-356 | the total of a pool is the worth of all saved shares, in whatever order the entries are visited |
| `RewardPeriods.CountedOnceIff` | iot_verifier/src/rewarder.rs:108-160 | over every run of saves and reward passes, interrupted or not, a share is in exactly one manifest if it was saved before its period was announced, and in none otherwise |
| `RewardPeriods.PurgeIsSafe` | iot_verifier/src/reward_share.rs:234-249 | the purge never deletes a share that the current or a later period counts |
| `RewardPeriods.RunFollows` | reward_scheduler/src/lib.rs:16-35 | manifests are of nonempty periods that do not overlap, in order |
| `RewardPeriods.ManifestsAbutIff` | iot_verifier/src/rewarder.rs:123-160 | the periods of the manifests leave no gap if and only if no pass stops between the purge and the manifest |
| `RewardPeriods.ShareIsLostIff` | iot_verifier/src/rewarder.rs:123-160 | a share saved before the pass over its period is in no manifest if and only if that pass stops between the purge and the manifest |
| `RewardPeriods.PassExists` | iot_verifier/src/rewarder.rs:123-147 | for every timestamp up to the end of the last rewarded period there is a pass that moved past it |
| `RewardPeriods.PassIsUnique` | iot_verifier/src/rewarder.rs:123-147 | no two passes move past the same timestamp |
| `Witnesses.FirstFailingIs` | iot_verifier/src/poc.rs:427-454 | the reason of a rejection is the first check that fails |
| `Witnesses.ValidIff` | iot_verifier/src/poc.rs:248-460 | a witness is valid if and only if gateways are known and asserted, neither list denies it, it is not the beaconer, and all later checks pass |
| `Witnesses.DroppedIff` | iot_verifier/src/poc.rs:417-426 | of all reports of a proof of coverage exactly one is dropped if the beaconer sent one that can be verified and passes the lookups and lists as its own witness, and none otherwise; it is the beaconer’s |
| `Witnesses.VerifyWitnesses` | iot_verifier/src/poc.rs:187-246 | the loop over reports, with duplicates only after a report that could be verified |
| `Witnesses.GatewaysCountOnce` | iot_verifier/src/poc.rs:196-238 | among the verified reports of a gateway all but one are duplicates |
| `Witnesses.EveryReportIsHandled` | iot_verifier/src/poc.rs:200-245 | every report is verified or failed, exactly once |
| `Witnesses.ValidAreChecked` | iot_verifier/src/poc.rs:309-332 | a valid report passed all checks, is not from the beaconer and carries the hex scale of the beaconer |
| `Witnesses.FilterIsPartition` | iot_verifier/src/runner.rs:569-589 | filtering splits the reports by status and loses only self-witnesses |
| `Witnesses.SplitSelectsEarliest` | iot_verifier/src/runner.rs:557-567 | the split keeps every candidate, selects as many as allowed, and none later than one left out |
| `Witnesses.SelectionIsSound` | iot_verifier/src/runner.rs:313-323 | selected, unselected and dropped reports are a permutation of the verified ones; at most the maximum is selected, only valid ones, and no valid one left out is earlier |
| `Witnesses.SelectedKeysDiffer` | iot_verifier/src/runner.rs:313-339 | selected witnesses are different gateways and not the beaconer |
| `Witnesses.SharesFromPoc` | iot_verifier/src/reward_share.rs:133-165 | the loop pushes the share of the beaconer and of each rewarded witness |
| `Witnesses.SharesBelongToDifferentGateways` | iot_verifier/src/reward_share.rs:133-165 | the shares of one valid proof of coverage have pairwise different hotspot keys |
| `Witnesses.NothingIsOverwritten` | iot_verifier/src/reward_share.rs:106-131 | saving such shares by upsert keeps every one of them |
| `Witnesses.PocPaysPerWitness` | iot_verifier/src/runner.rs:328-339 | the reward units of all shares are one beaconer unit and n witness units, each where its hex has a scale; where both have one they are within (n+1)/20000 of 5*min(n,4)/4 |
| `FileSink.Sink.constructor` | file_store/src/file_sink.rs:148-160 | nothing written, staged or deposited |
| `FileSink.Sink.NewSink` | file_store/src/file_sink.rs:415-436 | an empty file becomes the active and last staged one; no message is touched |
| `FileSink.Sink.DepositSink` | file_store/src/file_sink.rs:488-509 | a staged file moves to the target directory; a missing one changes nothing |
| `FileSink.Sink.Commit` | file_store/src/file_sink.rs:438-450 | all staged messages, in order, follow the committed ones; the manifest is the list of staged files |
| `FileSink.Sink.Rollback` | file_store/src/file_sink.rs:452-464 | all staged messages are gone, the committed ones unchanged |
| `FileSink.Sink.Write` | file_store/src/file_sink.rs:511-543 | the history advances by exactly one write: a message that does not fit first closes the active file, and commits everything pending with auto-commit; a frame over the limit is refused; every file holds one message or less than the maximum size |
| `FileSink.MidCommit` | file_store/src/file_sink.rs:444-447 | between the steps of a commit every file is in exactly one of the two directories |
| `FileSink.Sink.MaybeRoll` | file_store/src/file_sink.rs:466-477 | a file that is old enough is closed, and everything pending is committed exactly with auto-commit |
| `FileSink.Sink.Restart` | file_store/src/file_sink.rs:339-358 | left-over files are all deposited with auto-commit and all removed without, also after a crash in the middle of a commit |
| `FileSink.Replay` | file_store/src/file_sink.rs:363-413 | every run of writes, commits, rollbacks and ticks, with or without auto-commit, leaves exactly the committed and pending messages of its history |
| `FileSink.ManualHistory` | file_store/src/file_sink.rs:438-464 | without auto-commit these are the accepted messages minus those rolled back, whatever the sizes of files and the clock |
| `FileSink.NothingIsLost` | file_store/src/file_sink.rs:511-543 | without rollbacks they are all accepted messages, in the order of the writes |
| `FileSink.CommittedIsKept` | file_store/src/file_sink.rs:438-464 | what is committed at any point of a run stays committed, in place, to its end |
| `FileSink.RollbackLosesOneFile` | file_store/src/file_sink.rs:452-477 | with auto-commit everything pending is in the active file, so a rollback loses one message or less than the maximum size |
| `RouteReplica.EuiReplicaAgrees` | iot_config/src/route.rs:295-343 | a subscriber that held the live rows and replays the broadcast holds the live rows afterwards, for every batch and every order of returned rows |
| `RouteReplica.SkfReplicaAgreesIff` | iot_config/src/route.rs:734-784 | for session key filters this holds if and only if no key with a row in the table is both added and removed |
| `RouteReplica.UpdatedFilterIsLost` | iot_config/src/route.rs:743-762 | a filter that is removed and added again in one batch is live in the table and missing at the subscribers |
| `RouteReplica.RouteTable.InsertRows` | iot_config/src/route.rs:235-263 | an insert revives or adds every row, or fails as a whole for an unparsable or repeated key |
| `RouteReplica.RouteTable.RemoveRows` | iot_config/src/route.rs:265-293 | a delete marks the rows and returns each existing one once, in some order |
| `RouteReplica.RouteTable.UpdateEuis` | iot_config/src/route.rs:295-343 | an update of EUI pairs, and likewise of devaddr ranges, leaves table and broadcast in agreement, also when it fails |
| `RouteReplica.RouteTable.UpdateSkfs` | iot_config/src/route.rs:734-784 | an update of filters leaves table and broadcast in agreement if and only if there is no such key |

## Left out

- Enabling and disabling organizations in `CachedOrgClient`: it only sets flags at the config server.
- SQL text, sqlx, transaction isolation and S3.
- H3 geometry and distances, RSSI and path-loss arithmetic, signatures, deny list contents and beacon payloads: they are
  parameters.
- The rounding of `rust_decimal` to 28 digits: amounts are exact apart from the roundings in the code.
- gRPC services, settings, telemetry, proto conversions, the clock of the reward scheduler and the price tracker.
- PacketVerifier.Burner.FetchNextBurn: the payer is a parameter, so the protocol holds for any choice; the choice by
  `last_burn` is `BurnQueue.FetchNextBurn`.
- PacketVerifier.Burner.BurnPayer: for a burn that no other task interrupts; interleavings are events of `BurnProtocol`.
- Gzip framing and filesystem errors of the file sink.
- The order between the broadcast tasks of different updates: agreement is per update.
- The delegate key cache and the creation of organizations as imperative code: `create_org` is a function on the leases.
- Rewards.RewardsMeetTheSchedule: the lower bound is for pools that all have shares; a pool without shares pays nothing.
- OrgLeases.AddedRangeIsSafeIff: for ranges inside the NetID and for the next checkout; `AddedRanges.AddedRangeRunsIff`
  speaks of runs, and `DevAddrAllocator.OfferedInsideIff` of ranges outside.
- RewardPeriods.CountedOnceIff: a share that is saved again keeps its timestamp, as the reports it comes from do.
