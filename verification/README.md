# Aimless onions, verified

A Dafny model of the Aimless onion network, of the Sphinx packets it is compared with, and of the
accuracy model of its relay allocation. `dafny verify dfyconfig.toml` checks everything.

## What is modelled

**Onion layers** (`OnionFormat`, `OnionPath`, `OnionObjects`). A sender wraps data in one layer per
hop. All headers have the same size: adding a layer puts a hop block in front, encrypts, and cuts the
last block off. `FullPeel` shows that nothing is lost by this: every hop opens its layer, and the last
one finds the data. The reason is `FillerInvariant`. `OneLayerExact` says precisely which headers
survive a layer, whoever made them.

**Allocation** (`NodeNames`, `Allocation`, `AllocationSteps`, `Placement`, `BinaryExpansion`,
`AllocationAgreement`, `Allocator`). Relays get disjoint subtrees of a binary tree of identities in
proportion to their weights. The allocator is a state machine, and its invariant is proved for every
step, whichever of the largest relays is served. From it follow exact quotas, disjointness, the
minimal number of cells, a bound on the free list, termination, where in the tree every cell lies, and that the outcome is the same for
every order of the requests. `Allocator` contains the loop itself, proved against that state machine.

**Keys** (`Group`, `Hibe`, `Relay`). Hierarchical keys are derived along the walk from a cell to a leaf,
with or without cached products. `ChainFromCell` shows that the result is the key generated directly
for the leaf, and `KeyOpens` that every key satisfies the equation by which it decrypts.

**Authority** (`Authority`, `AuthorityObjects`). Registrations, allocations and the four separate steps of
the switchover to a new epoch, in any order. `Delivery` puts the components together: if the authorities
allocated the same relays, the relay that the first one names for an identity gets a key from all of
them and opens the layer, so the onion arrives.

**Sphinx** (`SphinxKeys`, `SphinxRouting`, `SphinxHeaders`, `SphinxPayloads`, `SphinxPackets`). Blinded
keys, tail-aligned filler, padded and layered payloads, reply blocks, and all byte codecs.
`PacketArrives` and `ReplyArrives` cover whole routes of any length up to the maximum, and
`PacketArrivesAsBytes` the same with every packet sent as bytes.

**Accuracy** (`Accuracy`). The fractions assigned without over-allocation are those of the allocator, and
the mean error is bounded and never grows from any depth to a deeper one.

## How it is modelled

- Code that updates things in place appears as a class or a method with its loops, proved against
  a function on values; the theorems are about those functions.
- Foreign primitives (keystreams, MACs, key derivation, the two group scalings, HIBE
  encryption, secret sharing, key encapsulation, the wide-block cipher) are constants without a
  value. Their types carry the contract that the code relies on, and each type has a verified witness.
  The depth of the tree (between 1 and 63), the group order and the maximal path length (at least 1)
  are such constants too.
- Group elements stand for their discrete logarithms modulo the group order.
- Random choices (nonces, coins, derivation scalars, padding) are parameters, so every theorem
  holds for all of them. The iteration order of maps is likewise an arbitrary choice. The heap hands
  out some element that is largest by weight and then key.
- Relay keys are 16 bytes compared as numbers. Machine widths are written out where they matter:
  paths are 64-bit values, delays, nonces and shares have fixed sizes.
- An error return or a panic of the program is an error value of the model.
- Automatic induction is off on all lemmas, and `hide` keeps definitions out of proofs that do not
  need them.

## Findings

- The keys of the *current* allocations and addresses always coincide. Those of the *new* tables
  coincide exactly as long as in every epoch some registered relay had a positive weight
  (`Authority.KeysCoincide`). Otherwise the allocator divides by zero, after the handler has already
  moved the addresses; `Authority.WeightlessRunFails` is such a run.
- `process_with_derived_keys` agrees with `process` if and only if the integrity check fails or the
  decrypted flag is known (`SphinxHeaders.DerivedKeysAgree`). On any other flag it panics where `process`
  returns an error; `SphinxHeaders.UnknownFlagPanics` gives the headers.
- Adding and removing one layer restores a header if and only if its last block continues the keystream
  (`OnionFormat.OneLayerExact`). An onion that does not come from `wrap` may thus lose that block.
- The test `i != route.len() + 1` in `sphinx-benchmarks/src/header/keys.rs` always holds, so the
  accumulator is blinded after the last hop too. This changes no key.
- Comments in `sphinx-benchmarks/src/header/filler.rs` and `routing/destination.rs` describe lengths as
  multiples of `3k`. The code steps by the length of the metadata with its integrity tag, and the
  model follows the code.
- A comment in `aimless-onions/src/allocation.rs` speaks of `u32::MAX + 1`, which is the number of
  leaves only at depth 32; the code uses the size of the root, as does the model.

## Model

| member | source | states |
|---|---|---|
| `OnionPath.FullPeel` | `aimless-onions/src/format.rs:133-310` | On every path, with every number of authorities, all hops accept their tag, hop `i` reads `delays[i]` and passes on an onion with unchanged header, share and payload sizes, addressed to `identities[i + 1]` and not final if this is not zero, and the last onion is final and carries the original data. |
| `OnionPath.FillerInvariant` | `aimless-onions/src/format.rs:297-308` | The onion that hop `k` of `n` receives agrees with the forward filler after `k` nonces on every block from number `n - k` on. |
| `OnionPath.LastBlockIsKeystream` | `aimless-onions/src/format.rs:182-191` | So the block that adding a layer cuts off is exactly the keystream block that unwrapping regenerates. |
| `OnionPath.PeelOne` | `aimless-onions/src/format.rs:207-269` | Each hop restores exactly the onion that the sender had before adding its layer. |
| `OnionPath.ShiftedAgreement` | `aimless-onions/src/format.rs:156-205` | Adding one layer moves the agreement with the filler up by one block. |
| `OnionPath.PeelSees` | `aimless-onions/src/format.rs:374-402` | A chain of onions in which each one unwraps to the next is what the hops see. |
| `OnionFormat.OneLayer` | `aimless-onions/src/format.rs:156-269` | For any onion whose header has at least one block, unwrapping after wrapping restores identity, shares, payload and all of the header but its last block, which becomes the keystream behind the header; the delay is read back. |
| `OnionFormat.OneLayerExact` | `aimless-onions/src/format.rs:156-269` | The whole onion is restored if and only if the last header block was that keystream. |
| `OnionFormat.LayerDecrypts` | `aimless-onions/src/format.rs:249-268` | Zero-extending and decrypting a tagged layer reads the hop block and the previous header back. |
| `OnionFormat.BlockPeels` | `aimless-onions/src/format.rs:182-191` | The receiver sees the hop block with only the place of the tag changed. |
| `OnionFormat.RestPeels` | `aimless-onions/src/format.rs:256-261` | Behind the hop block the receiver sees the old header without its last block, then bare keystream. |
| `OnionFormat.TagIgnoresItself` | `aimless-onions/src/format.rs:28-45` | The tag does not depend on the bytes it is stored in, and is read back from there. |
| `OnionFormat.ChangeIsDetected` | `aimless-onions/src/format.rs:349-371` | A changed onion, in identity, shares, header or payload, that keeps tag and header size is accepted only if two different inputs have the same MAC, under the nonce itself unless the shares were changed. |
| `OnionFormat.MacInputDetermines` | `aimless-onions/src/format.rs:28-41` | For one header size, the MAC input determines identity, shares, header and payload, everything but the tag. |
| `OnionFormat.AcceptedTag` | `aimless-onions/src/format.rs:207-251` | An onion is accepted only with a decrypting key for each share, and with the MAC under the nonce that its own shares recover. |
| `OnionFormat.UnwrapRefuses` | `aimless-onions/src/format.rs:218-251` | Exactly which onions are refused with which error before decryption. |
| `OnionFormat.FinalExactly` | `aimless-onions/src/format.rs:271-273` | An onion is final exactly if its identity and every byte of its shares are zero. |
| `OnionFormat.WrappedBytes` | `aimless-onions/src/format.rs:177-204` | Every byte of a wrapped onion outside its shares: hop block, old header and payload under consecutive bytes of one keystream, and the MAC in bytes 4 to 36. |
| `OnionFormat.WrappedShares` | `aimless-onions/src/format.rs:164-175` | Each share is the 20-byte form of one share of the nonce, encrypted to one authority for the leaf of the identity. |
| `OnionFormat.NonceRoundTrip` | `aimless-onions/src/format.rs:164-175` | Splitting, encoding, encrypting, decrypting and recovering gives every 16-byte nonce back. |
| `OnionFormat.HopRoundTrip` | `aimless-onions/src/format.rs:104-115` | The serialised hop block has the size of one block and parses back to the same fields. |
| `OnionFormat.ParseConcat` | `aimless-onions/src/format.rs:262-263` | The share vector parses back from its concatenation. |
| `Bytes.PaddedRoundTrip` | `aimless-onions/src/format.rs:75-81` | Dropping the high zero bytes of a number and padding again recovers every number that fits the width. |
| `Bytes.FromLERoundTrip` | `aimless-onions/src/format.rs:169` | Every byte string is the little-endian form of its own value. |
| `OnionObjects.StreamCipher.ApplyKeystream` | `aimless-onions/src/format.rs:189-195` | The cipher XORs with the keystream from its current position and continues there. |
| `OnionObjects.Onion.ComputeFiller` | `aimless-onions/src/format.rs:133-143` | In-place filler step: refines the step on values and leaves the rest of the onion alone. |
| `OnionObjects.Onion.WrapWithNonce` | `aimless-onions/src/format.rs:156-205` | The imperative layer construction equals the layer on values and does not change the inner onion. |
| `OnionObjects.Onion.DecryptShares` | `aimless-onions/src/format.rs:218-224` | Decrypts shares pairwise up to the shortest list and fails on the first bad one. |
| `OnionObjects.Onion.Unwrap` | `aimless-onions/src/format.rs:207-269` | The imperative unwrapping equals unwrapping on values, including each error. |
| `OnionObjects.PadNonce` | `aimless-onions/src/format.rs:233-239` | The padding loop fills the recovered number up to 16 bytes. |
| `OnionObjects.Wrap` | `aimless-onions/src/format.rs:281-310` | The two loops of `wrap` build the outermost layer, and fail exactly on mismatching list lengths. |
| `NodeNames.Canonicalized` | `aimless-onions/src/nodename.rs:22-37` | The mask loop keeps exactly the low bits of the path. |
| `NodeNames.ContainsIsInterval` | `aimless-onions/src/nodename.rs:79-81` | The prefix test holds exactly for the leaves in the interval of the subtree. |
| `NodeNames.NumberIsModulo` | `aimless-onions/src/nodename.rs:31-37` | The leaf of an identity is the identity modulo the number of leaves. |
| `NodeNames.ContainsIdentity` | `aimless-onions/src/nodename.rs:79-81` | A cell contains the leaf of an identity exactly if the identity, modulo the number of leaves, lies in its interval. |
| `NodeNames.ChildrenSplit` | `aimless-onions/src/nodename.rs:45-65` | The children are disjoint, have half the size each, and cover the same leaves as their parent. |
| `NodeNames.CoversInTree` | `aimless-onions/src/nodename.rs:63-65` | Every subtree lies inside the tree. |
| `NodeNames.ChildPathFits` | `aimless-onions/src/nodename.rs:45-53` | The shifted path of a child fits its length and a machine word. |
| `NodeNames.Walk` | `aimless-onions/src/nodename.rs:87-95` | The walk lists the ancestors of a node from below the root down to the node. |
| `Hibe.ChildBits` | `aimless-onions/src/nodename.rs:115-123` | The identity vector of a child is that of its parent followed by the hash of 0 on the left and of 1 on the right. |
| `Hibe.AncestorIdentity` | `aimless-onions/src/nodename.rs:115-123` | The identity vector of an ancestor is a prefix of the identity vector of the node. |
| `Hibe.Generate` | `aimless-onions/src/hibe.rs:19-41` | The cache holds exactly the products of the listed identity elements, for the levels that the public key has, and more levels than the maximal depth are refused. |
| `Hibe.ProductSumIsHashSum` | `aimless-onions/src/hibe.rs:44-49` | Whatever is cached, the products add up to the uncached sum. |
| `Hibe.GenerateKeyIsKeyAt` | `aimless-onions/src/hibe.rs:51-78` | A generated key is the uncached key of the identity; the identity is refused if it is longer than the maximal depth, and a panic if it is longer than the public key. |
| `Hibe.CachedBbgKeygen.DeriveKey` | `aimless-onions/src/hibe.rs:80-117` | Deriving updates the remaining elements in place and yields the uncached derivation, which decrypts if the parent key was genuine; it says exactly which calls are refused and which panic. |
| `Hibe.DerivedIsKeyAt` | `aimless-onions/src/hibe.rs:95-108` | Deriving with scalar `t` from a key with randomness `r` gives the key generated directly with `r + t`. |
| `Hibe.KeyOpens` | `aimless-onions/src/hibe.rs:61-77` | Every key satisfies the equation by which it decrypts, in plain arithmetic modulo the group order, and its remaining elements carry the same randomness. |
| `Hibe.GeneratedOpens` | `aimless-onions/src/hibe.rs:51-78` | So does every generated key; the randomness fixes its second element. |
| `Hibe.DerivedOpens` | `aimless-onions/src/hibe.rs:80-117` | So does every key derived from a genuine one. |
| `Hibe.HashSumIsRemainder` | `aimless-onions/src/hibe.rs:66-71` | The sum over an identity is the plain sum of products, modulo the group order. |
| `Group.ReduceIsRemainder` | `aimless-onions/src/hibe.rs:61-77` | Group elements are residues modulo the group order. |
| `Group.AddIsModulo` | `aimless-onions/src/hibe.rs:95-108` | Adding is addition modulo the group order. |
| `Group.ScaleIsModulo` | `aimless-onions/src/hibe.rs:95-108` | Scaling is multiplication modulo the group order. |
| `Group.ScaleDistributes` | `aimless-onions/src/hibe.rs:104-108` | Scaling distributes over addition in the group. |
| `Relay.LiveAuthority.GetPrivateKey` | `aimless-onions/src/bin/relay.rs:90-110` | Returns a key exactly when some received cell covers leaf `identity` modulo the number of leaves, derived from the key of such a cell. |
| `Relay.DeriveDown` | `aimless-onions/src/bin/relay.rs:95-105` | The walk derives one level at a time from the cell to the leaf. |
| `Relay.ChainIsKeyAt` | `aimless-onions/src/bin/relay.rs:95-105` | Deriving along any part of a walk adds all drawn scalars to the randomness. |
| `Relay.ChainFromCell` | `aimless-onions/src/bin/relay.rs:90-110` | The key derived from a cell of any depth, root and leaf included, is the key generated directly for the leaf with the randomness plus all drawn scalars. |
| `Relay.DerivedKeyIsGenuine` | `aimless-onions/src/bin/relay.rs:90-110` | What a relay with genuine cell keys gets is a key for the leaf. |
| `Relay.DerivedKeyOpens` | `aimless-onions/src/bin/relay.rs:90-110` | That key satisfies the decryption equation for leaf `identity` modulo the number of leaves. |
| `AllocationSteps.StepPreservesInv` | `aimless-onions/src/allocation.rs:63-87` | Every step, whichever largest relay is served, keeps the invariant: free and given cells partition the leaves, wanted weights fit the free space, each wanted weight is below twice the cell size, and there are fewer than `2n` free cells; the panics of the loop cannot happen. |
| `AllocationSteps.StepIsSafe` | `aimless-onions/src/allocation.rs:72-85` | Cells are only split above the leaves, and there is a free cell whenever one is taken. |
| `AllocationSteps.HalvePreservesInv` | `aimless-onions/src/allocation.rs:72-77` | Splitting all free cells keeps the invariant. |
| `AllocationSteps.GrantPreservesInv` | `aimless-onions/src/allocation.rs:78-85` | Giving a cell away keeps the invariant. |
| `AllocationSteps.StepDecreases` | `aimless-onions/src/allocation.rs:63-87` | Every step splits the cells or lowers the remaining weight, so the loop ends. |
| `Allocation.InitInv` | `aimless-onions/src/allocation.rs:38-61` | The scaled requests and the root cell satisfy the invariant. |
| `Allocation.SumOfQuotas` | `aimless-onions/src/allocation.rs:40-45` | The quotas add up to at most all leaves and miss fewer of them than there are requests. |
| `AllocationSteps.HaltedIsAllotted` | `aimless-onions/src/allocation.rs:63-90` | When nothing is wanted any more, every relay has exactly its quota of leaves, no leaf is given twice, and fewer leaves than requests are unassigned. |
| `AllocationSteps.CountBelowIsLeaves` | `aimless-onions/src/nodename.rs:63-65` | Counting the leaves of a list of cells leaf by leaf or cell by cell gives the same number. |
| `AllocationSteps.OneOwner` | `aimless-onions/src/allocation.rs:79-84` | No leaf lies under the cells of two relays. |
| `Placement.StepPreservesPlaced` | `aimless-onions/src/allocation.rs:63-87` | Every step keeps the free cells leftmost, and gives cells away from right to left in the order of size, of what is still wanted, and of the key. |
| `Placement.HaltedIsArranged` | `aimless-onions/src/allocation.rs:63-90` | In the end the cells lie in this order, with nothing between them, and the unassigned leaves come first. |
| `Placement.LargerKeyIsRight` | `aimless-onions/src/allocation.rs:19-29` | Of two relays with equal weights, the one with the larger key has the right one of any two cells of equal size. |
| `Placement.LargerIsRight` | `aimless-onions/src/allocation.rs:63-87` | All leaves of a larger cell lie to the right of those of a smaller one, whoever has them. |
| `Placement.LeafIsGiven` | `aimless-onions/src/allocation.rs:63-90` | A leaf belongs to a relay exactly if it is among the last leaves, as many as all quotas together. |
| `Allocator.Allocate` | `aimless-onions/src/allocation.rs:37-90` | The method returns the promised allotment, arranged from right to left, for all requests, and panics exactly if the total weight overflows 64 bits, or if there are requests but no weight. |
| `Allocator.Distribute` | `aimless-onions/src/allocation.rs:59-90` | The loop over heap, free cells and allocations map implements the state machine. |
| `Allocator.ScaleWeights` | `aimless-onions/src/allocation.rs:40-45` | Every weight becomes its rounded-down share of all leaves. |
| `Allocator.SplitAll` | `aimless-onions/src/allocation.rs:72-77` | All free cells are replaced by their children, in order. |
| `Allocator.BinaryHeap.Pop` | `aimless-onions/src/allocation.rs:64-66` | The heap hands out an element that is largest by weight and then key. |
| `BinaryExpansion.AllottedIsMinimal` | `aimless-onions/src/allocation.rs:63-87` | A relay has a cell of `2^b` leaves exactly if bit `b` of its quota is set, and no set of subtrees with as many leaves is smaller. |
| `BinaryExpansion.CellsAreBits` | `aimless-onions/src/allocation.rs:63-87` | Cells of increasing depth are the binary expansion of their number of leaves. |
| `BinaryExpansion.DeepeningIsMinimal` | `aimless-onions/src/allocation.rs:63-87` | No list of subtrees with the same number of leaves is shorter than one of increasing depths. |
| `BinaryExpansion.PopCountSum` | `aimless-onions/src/allocation.rs:79-84` | The number of set bits is subadditive. |
| `AllocationAgreement.AuthoritiesAgree` | `aimless-onions/src/allocation.rs:19-29` | Two request lists with the same keys and weights, in any order and with any identifiers, give every key the same cells. |
| `AllocationAgreement.StepIsNext` | `aimless-onions/src/allocation.rs:63-87` | With distinct keys each step is determined by the set of relays alone. |
| `AllocationAgreement.RunInOrder` | `aimless-onions/src/allocation.rs:63-87` | Every point of the run without order belongs to a run in the order of the requests that satisfies the invariant. |
| `AllocationAgreement.OutcomeIsAllotted` | `aimless-onions/src/allocation.rs:37-90` | Every outcome of the run without order is a fair allotment, arranged from right to left. |
| `AllocationAgreement.SameSumWeight` | `aimless-onions/src/allocation.rs:40` | The total weight depends only on the set of keys and weights. |
| `Authority.RunKeepsInv` | `aimless-onions/src/bin/authority.rs:77-140` | In every state of every run: identifiers are distinct and below the counter, requests and addresses have the same keys, and cells of different relays are disjoint. |
| `Authority.StepKeepsInv` | `aimless-onions/src/bin/authority.rs:133-179` | Registering, allocating and each single switchover step keep the invariant. |
| `Authority.KeysCoincide` | `aimless-onions/src/bin/authority.rs:133-179` | In every run the keys of current allocations and addresses coincide; those of the new ones coincide exactly as long as in every epoch so far some registered relay had a positive weight. |
| `Authority.EpochKeysCoincide` | `aimless-onions/src/bin/authority.rs:152-179` | After an allocation the keys of the new tables coincide if and only if some registered relay had a positive weight. |
| `Authority.WeightlessRunFails` | `aimless-onions/src/bin/authority.rs:156-171` | The failing input: two relays of weight zero register, and the allocation leaves their addresses without allocations behind. |
| `Authority.TotalFits` | `aimless-onions/src/allocation.rs:40` | The 64-bit total weight of registered relays never overflows. |
| `Authority.SwitchoverTakesOver` | `aimless-onions/src/bin/authority.rs:133-140` | A complete switchover, with any registrations in between, makes the new allocations the current ones. |
| `Authority.SwitchoverRequests` | `aimless-onions/src/bin/authority.rs:133-140` | The requests that are new when a switchover begins stay the current ones until the next one begins. |
| `Authority.SwitchoverClears` | `aimless-onions/src/bin/authority.rs:133-140` | The third step of a switchover leaves no new request and does not change the current ones. |
| `Authority.AllocatesInv` | `aimless-onions/src/bin/authority.rs:152-179` | Allocating registered requests yields disjoint, proportional cells under the same keys as the addresses. |
| `Authority.OwnerIsUnique` | `aimless-onions/src/bin/authority.rs:103-118` | At most one relay is responsible for an identity, and its address is known. |
| `Authority.OwnerByLeaf` | `aimless-onions/src/bin/authority.rs:103-118` | The owner of an identity is the relay whose cells cover it, modulo the number of leaves. |
| `Authority.AddressByLeaf` | `aimless-onions/src/bin/authority.rs:103-118` | The address found for an identity is the one stored for this relay, and there is none exactly if no relay has the leaf. |
| `Authority.LastRegistration` | `aimless-onions/src/bin/authority.rs:78-89` | After any registrations, each relay has the weight, address and identifier of its last one. |
| `Authority.OnlyRegistered` | `aimless-onions/src/bin/authority.rs:78-89` | No other relay is in the table. |
| `Authority.RegistrationsEnd` | `aimless-onions/src/bin/authority.rs:78-89` | When the identifiers are used up, further registrations change nothing. |
| `AuthorityObjects.InnerAllocations.GetAddress` | `aimless-onions/src/bin/authority.rs:103-118` | The address found is that of the relay with leaf `identity` modulo the number of leaves, whatever the order of the search, and the lookup never misses. |
| `AuthorityObjects.InnerAllocations.GetHibeKeys` | `aimless-onions/src/bin/authority.rs:191-211` | A relay is sent one fresh key for each of its cells, each of which decrypts for its cell, and an unknown relay nothing. |
| `AuthorityObjects.InnerRequests.Insert` | `aimless-onions/src/bin/authority.rs:78-89` | A registration replaces an earlier one of the same key and takes a new identifier. |
| `AuthorityObjects.AllocateTables` | `aimless-onions/src/bin/authority.rs:152-179` | Both tables change as the state machine says, including what is left behind by a panic. |
| `AuthorityObjects.ListValues` | `aimless-onions/src/bin/authority.rs:165-171` | The requests are listed in some order, each exactly once. |
| `AuthorityObjects.Rekey` | `aimless-onions/src/bin/authority.rs:174-177` | Cells by identifier become cells by relay key, and no identifier misses its key. |
| `AuthorityObjects.Advance` | `aimless-onions/src/bin/authority.rs:133-140` | The four steps of the switchover move both new tables into the current ones and clear them. |
| `Delivery.PathDelivers` | `aimless-onions/src/bin/relay.rs:113-190` | Authorities that allocated the same relays, each in its own order, suffice: every onion is sent to the relay that the first authority names, that relay obtains a key from every authority, whatever scalars each query draws, and the data arrives. |
| `Delivery.OwnerEverywhere` | `aimless-onions/src/bin/relay.rs:113-130` | The owner that the first authority names is the owner at all of them. |
| `Delivery.OwnerGetsKey` | `aimless-onions/src/bin/relay.rs:145-160` | So every query of the owner succeeds, with a key for the identity. |
| `Delivery.OwnerIsAddressed` | `aimless-onions/src/bin/authority.rs:103-118` | The address returned for an identity is that of its owner. |
| `Delivery.OwnerHasKey` | `aimless-onions/src/bin/relay.rs:90-110` | A relay obtains a key for an identity exactly if the authority names it as the owner. |
| `Delivery.TablesAgree` | `aimless-onions/src/bin/authority.rs:152-179` | Authorities with the same relays and weights give every relay the same cells. |
| `Delivery.Collect` | `aimless-onions/src/bin/relay.rs:264-272` | The relay stores every key it is sent, with a cache. |
| `Delivery.CollectedHolds` | `aimless-onions/src/bin/relay.rs:264-272` | The stored keys are genuine and cover exactly the cells of the relay. |
| `SphinxKeys.BlindingAgreement` | `sphinx-benchmarks/src/header/keys.rs:110-148` | At every hop the node derives the keys that the sender prepared for it. |
| `SphinxKeys.SharedIsAccumulator` | `sphinx-benchmarks/src/header/mod.rs:236-245` | The group element that the nodes blind is the public form of the secret that the sender accumulates. |
| `SphinxKeys.DeriveKeyMaterial` | `sphinx-benchmarks/src/header/keys.rs:110-148` | The accumulator loop yields the keys of all hops and the initial group element. |
| `SphinxKeys.KeysUseAllMaterial` | `sphinx-benchmarks/src/header/keys.rs:48-79` | The four routing keys are consecutive pieces that use all of the expanded material. |
| `SphinxKeys.KeysOfHop` | `sphinx-benchmarks/src/header/keys.rs:110-148` | The keys of a hop are the expansion of the public form of the sender's secret, with all blinding factors before, times the secret of the node. |
| `SphinxRouting.FillerTail` | `sphinx-benchmarks/src/header/filler.rs:28-77` | The routing information that reaches hop `k` ends with the filler of the `k` hops before it. |
| `SphinxRouting.ForwardKeepsFiller` | `sphinx-benchmarks/src/header/routing/nodes.rs:77-102` | A forward layer turns a tail of one more filler step into the filler before. |
| `SphinxRouting.ForwardDecrypts` | `sphinx-benchmarks/src/header/routing/nodes.rs:144-184` | Decrypting the zero-padded information gives the metadata and the complete next routing information, truncated part included. |
| `SphinxRouting.ParsesForward` | `sphinx-benchmarks/src/header/routing/nodes.rs:214-249` | The decrypted bytes of an intermediate hop parse to address, delay, integrity tag and routing information. |
| `SphinxRouting.FinalParses` | `sphinx-benchmarks/src/header/routing/destination.rs:57-147` | The last hop parses the destination and the identifier, whatever the padding and the filler. |
| `SphinxRouting.HopUnwraps` | `sphinx-benchmarks/src/header/routing/mod.rs:77-150` | Every hop accepts its routing information; an intermediate one reads the next address, its delay and exactly the information for the next hop, the last one the destination. |
| `SphinxRouting.ForwardBytes` | `sphinx-benchmarks/src/header/routing/nodes.rs:77-102` | Every byte that reaches an intermediate hop: metadata and next information under the keystream of the hop. |
| `SphinxRouting.FinalBytes` | `sphinx-benchmarks/src/header/routing/destination.rs:57-147` | Every byte that reaches the last hop: destination and padding under its keystream, then the filler. |
| `SphinxRouting.FillerBytes` | `sphinx-benchmarks/src/header/filler.rs:53-77` | Every byte of the filler as keystream bytes of the hops before. |
| `SphinxRouting.DecryptBytes` | `sphinx-benchmarks/src/header/routing/nodes.rs:144-184` | Every byte of a decryption as keystream over the information and the zeros behind it. |
| `SphinxRouting.RoutingTag` | `sphinx-benchmarks/src/header/routing/nodes.rs:132-141` | The tag for a hop is the MAC of the very information that reaches it. |
| `SphinxRouting.FillerStepInPlace` | `sphinx-benchmarks/src/header/filler.rs:53-77` | The in-place step extends the filler by one step and XORs it with the end of the keystream. |
| `SphinxRouting.NewFiller` | `sphinx-benchmarks/src/header/filler.rs:28-51` | The fold over all keys computes the filler of all hops. |
| `SphinxHeaders.RouteProcesses` | `sphinx-benchmarks/src/header/mod.rs:52-196` | Header end to end: for every route up to the maximal length, each node in turn learns its next address, delay and payload key, and the last one destination and identifier. |
| `SphinxHeaders.HopProcesses` | `sphinx-benchmarks/src/header/mod.rs:150-196` | Each node passes on exactly the header of the next hop, with the blinded group element. |
| `SphinxHeaders.TagIsChecked` | `sphinx-benchmarks/src/header/mod.rs:150-160` | A header is refused exactly if its tag is not the MAC of its routing information. |
| `SphinxHeaders.ChangeIsDetected` | `sphinx-benchmarks/src/header/mod.rs:150-160` | Changed routing information under the same tag and shared secret is accepted only on a collision of the MAC. |
| `SphinxHeaders.RouteChangeIsDetected` | `sphinx-benchmarks/src/header/mod.rs:150-160` | In particular for the header that reaches any hop of any route. |
| `SphinxHeaders.DerivedKeysAgree` | `sphinx-benchmarks/src/header/mod.rs:88-139` | Processing with the right precomputed keys agrees with normal processing if and only if the integrity check fails or the decrypted flag is one of the two known ones. |
| `SphinxHeaders.WithoutSecret` | `sphinx-benchmarks/src/header/mod.rs:111-139` | Without a blinded secret, intermediate hops are an error and everything else is as with it. |
| `SphinxHeaders.GivenSecret` | `sphinx-benchmarks/src/header/mod.rs:111-125` | The given blinded secret is the one that is passed on. |
| `SphinxHeaders.UnknownFlagPanics` | `sphinx-benchmarks/src/header/mod.rs:93-110` | The failing inputs: for every node and every other flag there is a header with a valid tag on which normal processing reports an error and the other one panics. |
| `SphinxHeaders.BuildHeader` | `sphinx-benchmarks/src/header/mod.rs:52-80` | The construction by loops yields the header and the payload keys. |
| `SphinxHeaders.HeaderRoundTrip` | `sphinx-benchmarks/src/header/mod.rs:198-234` | A header is read back from its bytes. |
| `SphinxHeaders.HeaderBytesRoundTrip` | `sphinx-benchmarks/src/header/mod.rs:207-234` | Exactly the byte strings of the header size are accepted, and each is reproduced. |
| `SphinxPayloads.PayloadRoundTrip` | `sphinx-benchmarks/src/payload/mod.rs:39-177` | For every message that fits and every key list, encryption succeeds, and unwrapping in route order and removing the padding returns the message. |
| `SphinxPayloads.FitsExactly` | `sphinx-benchmarks/src/payload/mod.rs:39-86` | Exactly the messages that fit are encrypted, to the wanted size. |
| `SphinxPayloads.PaddingRoundTrip` | `sphinx-benchmarks/src/payload/mod.rs:91-177` | The padding is removed correctly even if the message ends in ones or zeros. |
| `SphinxPayloads.LayersRoundTrip` | `sphinx-benchmarks/src/payload/mod.rs:104-134` | Layers can be added to every payload that is long enough for the cipher; they come off in the order of the route and keep the length. |
| `SphinxPayloads.EncryptedBytes` | `sphinx-benchmarks/src/payload/mod.rs:39-119` | What is sent is zeros, the message, a one and zeros, encrypted once under every key, the last key first. |
| `SphinxPayloads.RecoverMeaning` | `sphinx-benchmarks/src/payload/mod.rs:138-177` | A payload of any length is recovered exactly if it is leading zeros, the message, a one, and anything without another one. |
| `SphinxPayloads.RecoverRefuses` | `sphinx-benchmarks/src/payload/mod.rs:138-177` | Which payloads fail with which error. |
| `SphinxPayloads.SizesAccepted` | `sphinx-benchmarks/src/payload/mod.rs:58-86` | Before encryption, exactly too small payload sizes and too long messages are refused, each with its own error. |
| `SphinxPayloads.EncapsulateMessage` | `sphinx-benchmarks/src/payload/mod.rs:39-53` | The loop over the reversed keys applies all layers and fails if any of them fails. |
| `SphinxPackets.PacketArrives` | `sphinx-benchmarks/src/packet/mod.rs:96-120` | Packet end to end: for every message that fits, the packet can be built, travels its whole route and delivers the message to the destination. |
| `SphinxPackets.BuiltExactly` | `sphinx-benchmarks/src/payload/mod.rs:39-86` | A packet is built for exactly the messages that fit the payload size. |
| `SphinxPackets.PacketArrivesAsBytes` | `sphinx-benchmarks/src/packet/mod.rs:122-151` | The packet also arrives if every node sends it on as bytes and the next one reads it from them. |
| `SphinxPackets.BytesTravel` | `sphinx-benchmarks/src/packet/mod.rs:96-151` | For every packet whose bytes are accepted at first, sending it as bytes between nodes changes nothing of what they see. |
| `SphinxPackets.BuiltIsReadBack` | `sphinx-benchmarks/src/packet/mod.rs:122-151` | Every packet that a sender builds is read back from its bytes. |
| `SphinxPackets.SurbIsReadBack` | `sphinx-benchmarks/src/surb/mod.rs:61-161` | Every reply block that is created is read back from its bytes. |
| `SphinxPackets.ReplyIsReadBack` | `sphinx-benchmarks/src/surb/mod.rs:93-111` | Every packet made from a reply block is read back from its bytes. |
| `SphinxPackets.PacketHop` | `sphinx-benchmarks/src/packet/mod.rs:96-120` | Each node passes on exactly the packet of the next hop, and the last one can read the message. |
| `SphinxPackets.PacketRefusals` | `sphinx-benchmarks/src/packet/mod.rs:96-120` | A packet is refused exactly with the error of its header, or for a payload shorter than the least block. |
| `SphinxPackets.PacketLayout` | `sphinx-benchmarks/src/packet/mod.rs:122-129` | A packet consists of group element, tag, routing information and payload, in this order. |
| `SphinxPackets.ReplyArrives` | `sphinx-benchmarks/src/surb/mod.rs:61-111` | A reply block is usable for exactly the messages that fit; the reply goes to the first node, travels the route and delivers the message. |
| `SphinxPackets.PacketRoundTrip` | `sphinx-benchmarks/src/packet/mod.rs:122-151` | A packet is read back from its bytes exactly if its payload is at least as long as the overhead. |
| `SphinxPackets.PacketBytesRoundTrip` | `sphinx-benchmarks/src/packet/mod.rs:131-151` | Accepted byte strings are exactly those long enough, and each is reproduced. |
| `SphinxPackets.SurbRoundTrip` | `sphinx-benchmarks/src/surb/mod.rs:113-161` | A reply block is read back from its bytes exactly if it has a payload key. |
| `SphinxPackets.SurbBytesRoundTrip` | `sphinx-benchmarks/src/surb/mod.rs:122-161` | Accepted byte strings are exactly those with at least one and only complete keys, and each is reproduced. |
| `SphinxPackets.ReadKeys` | `sphinx-benchmarks/src/surb/mod.rs:145-154` | The index loop reads all complete keys. |
| `Bytes.BERoundTrip` | `sphinx-benchmarks/src/header/delays.rs:45-53` | A delay is read back from its big-endian bytes. |
| `Bytes.XorByteAt` | `aimless-onions/src/format.rs:189-191` | A bit of an exclusive or is set exactly if that bit of one of the two bytes is set. |
| `Bytes.FromLEPlaces` | `aimless-onions/src/format.rs:169` | In little-endian bytes, each byte counts by the power of 256 of its index. |
| `Bytes.BEIsReversedLE` | `sphinx-benchmarks/src/header/delays.rs:45-53` | Big-endian bytes are little-endian bytes in reverse. |
| `Accuracy.MapeBound` | `accuracy.py:170-176` | With a positive total weight `W`, the mean error at a depth is below `100 * W / 2^depth`. |
| `Accuracy.MapeIs` | `accuracy.py:170-176` | The mean error as a number: the sum of remainder over share for all relays with a weight, in percent, over the number of relays; zero without any weight. |
| `Accuracy.MapeNeverIncreases` | `accuracy.py:170-176` | Of any two depths, the deeper tree never has a larger mean error. |
| `Accuracy.RoundedIsQuota` | `accuracy.py:134-157` | At the depth of the tree, the assigned weight is the allocator's quota as a fraction of all leaves. |
| `Accuracy.RoundedIsShare` | `accuracy.py:134-157` | At every depth, the assigned weight is the share of the cells rounded down. |
| `Accuracy.AllocateWeights` | `accuracy.py:134-159` | Every relay is assigned exactly its weight rounded down to the finest cell; the assertions inside the loop hold. |
| `Accuracy.ScaleWeights` | `accuracy.py:125-131` | Every relay gets its fraction of the total weight, or zero if there is none. |
| `Accuracy.HeapPop` | `accuracy.py:146-147` | The queue hands out a relay with the largest request. |
| `Accuracy.Evaluate` | `accuracy.py:190-198` | The loop over a range of depths yields for each of them the error as a number, computed from the weights alone, in a sequence that never increases. |
| `Accuracy.DeeperIsCloser` | `accuracy.py:134-157` | A deeper tree assigns at least as much, and never too much. |

## Left out

- `OnionFormat.OneLayer`: does not speak of the tag field of the hop record, because unwrapping reads back the tag bytes, which were written in clear over the encrypted ones; only the delay is claimed.
- `OnionPath.FullPeel`: says of an onion for identity zero only what `OnionFormat.FinalExactly` says: it is final if all its encrypted shares are zero bytes, which the contract of the foreign encryption does not exclude.
- `Allocator.Allocate`: an overflow of the 64-bit total weight is a panic as in a checked build, and `Authority.TotalFits` shows that the authority never gets there; the sort before the heap is built is not modelled, because the heap may hand out equal elements in any order.
- `AuthorityObjects.InnerRequests.Insert`: a registration beyond the 32-bit counter is a panic as in a checked build; the wrap-around of an unchecked build is not modelled.
- `Hibe.CachedBbgKeygen.DeriveKey`: a maximal depth of zero is a panic as in a checked build; the wrap-around of an unchecked build is not modelled.
- `SphinxPayloads.FitsExactly`: leaves open whether the foreign cipher encrypts a payload of exactly its digest size, 32 bytes; longer ones it does, and the size check of the program refuses shorter ones.
- `Accuracy.Evaluate`: gives the exact errors; their conversion to floating point and the over-allocation columns are not modelled.
- Onions for zero authorities: at least one is required, because the secret sharing crate and the client demand it.
- `identity_matrix`: its contents are not fixed, since any cache is proved to leave the keys unchanged.
- Buffers are sequence-valued fields that methods reassign, so aliasing between buffers is not captured.
- Ciphers, MACs, key derivation, curves, pairings, and the secret sharing and HIBE crates: foreign code, used through contracts.
- Confidentiality, and unforgeability beyond `OnionFormat.ChangeIsDetected` and `SphinxHeaders.ChangeIsDetected`.
- HTTP and TLS handlers, command lines, configuration, logging, scheduling, and the message board.
- Epoch arithmetic: short modular arithmetic, easier than the rest.
- The over-allocation branch of the accuracy model and its count of free cells, which is not conserved there.
- `doublechoose.py`: floating point.
- Consensus parsing, address lookup, plotting, base58 addresses, error texts, and the sampling of delays.
- Processing whole packets with precomputed keys: the payload part is that of normal processing, and the header part is proved.
- The debug assertion inside the recovery of a plaintext.
