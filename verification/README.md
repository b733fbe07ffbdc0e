# CiphertextCommits and the mock-contract generator

This project models two programs of the gateway contracts and proves what they promise.

**CiphertextCommits** is a voting protocol. Coprocessors vote on the material (key id and two digests)
of a ciphertext handle; the first material whose votes reach the threshold is frozen for good. The
contract keeps nine storage mappings. The model follows `CiphertextCommits.sol` and the runtime
bytecode of the same contract that the Rust binding carries: the selector dispatch, the calldata
decoder, the ABI encoder, and the decimal logarithm and printer exist as code only in that bytecode.
Offsets such as "pc 0x1f92" count bytes of the deployed code in line 616 of the binding.

**The mock-contract generator** is a small source-to-source compiler from a Solidity syntax tree to a
mock contract: recursive scanners over a generic tree, declarations with scopes, and typed request ids.

## Files

| file | content |
|---|---|
| `Votes.dfy` | the protocol as an append-only log of accepted votes |
| `CommitsStorage.dfy` | the nine mappings, the one step that writes them, refinement of the log by every run |
| `CommitsInvariants.dfy` | conservation, disjoint lists, no overflow, write-once, late votes |
| `Consensus.dfy`, `Confluence.dfy` | added iff quorum, the one event, agreement, exactly when order does not matter |
| `Validity.dfy` | exactly when the honest coprocessors' result is the only one, and exactly when it is delivered |
| `Deadlock.dfy` | exactly when an undecided handle can still be decided |
| `CiphertextCommits.dfy` | the contract as a class over the nine mappings, with its getters |
| `GatewayConfig.dfy` | the coprocessor registry, threshold and host chains the contract asks |
| `AbiEncoding.dfy`, `AbiEncoder.dfy` | the ABI specification with a decoder, and the in-place encoder |
| `Calldata.dfy`, `Dispatch.dfy`, `ExternalCalls.dfy` | argument decoder, selectors, and the getters from bytes to bytes |
| `Decimal.dfy` | seven-stage log10 and the backwards printer |
| `SyntaxTree.dfy`, `MockScan.dfy`, `EmitScan.dfy` | syntax trees and the three scanners |
| `ScannerCases.dfy` | what each scanner makes of one node, by its type |
| `MockFunctions.dfy`, `MockScoping.dfy`, `MockContract.dfy` | the generator and the scoping of its output |
| `MockCounters.dfy`, `RequestIds.dfy` | which counters the printed increments change, and where the counters start |
| `MockRuns.dfy` | runs of the printed mock contract, and exactly when the request ids it reads are sound |
| `EmittedIds.dfy` | exactly when the request ids it emits are sound |
| `DecryptionMocks.dfy` | what the generator makes of types, of decryptionId, and of the Decryption contract |
| `MockExamples.dfy` | inputs on which the generator fails, one for each condition found |
| `Words.dfy`, `Lists.dfy`, `Wrappers.dfy` | machine words and bytes, lists, option and result types |

## What the proofs found

- **The threshold need not be a majority.** The documentation (`docs/protocol/architecture/coprocessor.md`)
  speaks of majority consensus, but `GatewayConfig` accepts every threshold from 1 to the number of listed
  coprocessors. If no sender submits two votes for one handle, the order of the votes is irrelevant if and
  only if the threshold is a majority of the distinct senders (`Confluence.ConfluentIffMajority`).
- **Second thoughts depend on order under every threshold.** The contract reverts the second call of a sender
  for a handle, so a sender that submits two materials votes for whichever call comes first. Without the premise
  of one vote per sender, order is irrelevant only where nothing can be decided at all
  (`Confluence.OrderNeverMattersIff`); `Confluence.MajorityWithSecondThoughts` is a case with two of three.
- **An honest majority is not enough.** The same document promises valid results as long as more than half of the
  coprocessors are honest. That is so if and only if the threshold is at least half the number of distinct senders
  (`Validity.HonestMajorityIsEnoughIff`, `GatewayConfig.AcceptedConfigIsValid`). Three coprocessors under the
  accepted threshold 1 break it (`GatewayConfig.ThresholdOneIsNotValid`). For any set of honest senders,
  `Validity.OnlyValidIff` and `Validity.AlwaysDeliveredIff` give the exact numbers for safety and liveness.
- **Votes of removed senders keep counting.** Registries that are each safe can be unsafe in succession
  (`Validity.ReplacingSendersIsUnsafe`). `Validity.OnlyValidInSuccessionIff` gives the exact condition for
  configurations that follow each other, and `Validity.OnlyValidAcrossIff` the one for configurations that can also
  come back; the two differ (`Validity.OrderOfRegistriesMatters`).
- **A split vote is final.** Nobody can vote again, so a handle can stay undecided for good under a majority threshold
  (`Deadlock.SplitVoteDeadlocks`); `Deadlock.CanStillDecideIff` says exactly when.
- **A repeated sender can block consensus.** The threshold is checked against the length of a list, but only
  distinct senders can vote: an accepted configuration can decide if and only if its threshold is at most the
  number of distinct senders (`GatewayConfig.AcceptedConfigCanDecide`; `RepeatedSenderCannotDecide` is a case).
- **The emit scanner misses emits** in else branches, in bodies without braces and in statement kinds it does
  not name; `EmitScan.FoundOrMissed` counts them exactly (`MockExamples.ElseBranchIsMissed` is a case).
- **Some names break the generated code.** Declarations are inserted with `String.replace`, which prints `$$`
  as `$`, and an unnamed event parameter prints as `null` in one place and as nothing in another.
  `MockScoping.WellScopedIff` gives the exact condition (`MockExamples.DollarArgumentIsNotDeclared` is a case).
- **An increment can change the wrong variable.** A counter `a$$` is incremented as `a$`, which may be another
  counter, and a parameter or an earlier declaration of the counter's name hides it. `MockCounters.PrintedIncrementsIff`
  gives the exact condition (`MockExamples.DollarCounterHitsAnother` and `ParameterHidesCounter` are cases).
- **Request ids can collide, and can change before they are emitted.** The counters `key` and `keyCounter` start at
  the same value, so functions that take ids from both emit the same id twice (`MockExamples.KeyAndKeyCounterCollide`).
  A parameter of a counter's name gives the same id for equal arguments (`MockExamples.ParameterHidesCounter`). And a
  later counter that bears the name of an id increments the id itself before it is emitted
  (`MockExamples.LaterIncrementChangesId`). `EmittedIds.GeneratedIdsAreSoundIff` gives the exact condition for the
  emitted ids of every contract that compiles: none of these three happens to a request id, and its name has no `$$`.

## Conventions

A Solidity mapping that was never written reads as zero; the member functions of `Storage` say so. keccak256
is symbolic: injective and never zero. `Votes.PreimageInjective` shows that the bytes it hashes determine the
vote. What `GatewayConfig` answers during one call is the call's `Env`; unless a theorem says otherwise it may
be different in every call. Each result about runs holds for all runs from the empty storage, including calls
that revert.

## Model

| member | source | states |
|---|---|---|
| Votes.ChainIdIsBytes22To29 | gateway-contracts/contracts/libraries/HandleOps.sol:22-32 | the chain id cut out by shift and mask is the big-endian number in bytes 22 to 29, the documented handle layout |
| Votes.PreimageInjective | gateway-contracts/contracts/CiphertextCommits.sol:134 | the hashed ABI encodings of two votes are equal exactly when handle, key id and both digests are equal |
| Votes.PreimageLayout | gateway-contracts/contracts/CiphertextCommits.sol:134 | the hashed bytes are four words: handle, key id, digest and the other digest, in that order |
| CommitsStorage.StepRefines | gateway-contracts/contracts/CiphertextCommits.sol:116-184 | one call, accepted or reverted, changes the mappings as it changes the vote log and gives the same outcome and events |
| CommitsStorage.RunRefinesLog | gateway-contracts/contracts/CiphertextCommits.sol:116-184 | after every run, under arbitrary registries and thresholds, all nine mappings are the abstraction of the log of accepted votes, and all outcomes agree |
| CommitsInvariants.OutcomeIff | gateway-contracts/contracts/CiphertextCommits.sol:116-184 | after every run, exactly which calls are accepted, and which of the errors each other call gets |
| CommitsInvariants.CountersNeverOverflow | gateway-contracts/contracts/CiphertextCommits.sol:135 | the checked counter increment cannot panic in any reachable state |
| CommitsInvariants.ListsMatchCounters | gateway-contracts/contracts/CiphertextCommits.sol:135-153 | every sender list is duplicate-free and as long as its counter |
| CommitsInvariants.FlaggedIffListed | gateway-contracts/contracts/CiphertextCommits.sol:125-153 | a sender is flagged for a handle exactly when he is in the list of some material of it, and then of one material only |
| CommitsInvariants.ListsOfOneHandleAreDisjoint | gateway-contracts/contracts/CiphertextCommits.sol:125-153 | the lists of two materials of one handle share no sender |
| CommitsInvariants.Conservation | gateway-contracts/contracts/CiphertextCommits.sol:125-153 | the counters over all vote hashes of a handle add up to the number of senders flagged for it |
| CommitsInvariants.WriteOnce | gateway-contracts/contracts/CiphertextCommits.sol:164-174 | the five entries of an added handle never change in any continuation of any run |
| CommitsInvariants.StoredTripleHashes | gateway-contracts/contracts/CiphertextCommits.sol:164-174 | the consensus hash is the hash of the handle with the stored triple, and an undecided handle stores only zeros |
| CommitsInvariants.LateVotesOnlyExtend | gateway-contracts/contracts/CiphertextCommits.sol:260-271 | the consensus senders at any time are a prefix of those at any later time, and are empty exactly for undecided handles |
| Consensus.AddedIffQuorum | gateway-contracts/contracts/CiphertextCommits.sol:160-163 | under a fixed threshold a handle is added iff some vote hash of it has reached the threshold (one vote if it is zero) |
| Consensus.ConsensusEventOnce | gateway-contracts/contracts/CiphertextCommits.sol:158-182 | an added handle has exactly one consensus event and an undecided one none; it carries the stored material and the first distinct senders, exactly a quorum of them under a fixed threshold |
| Confluence.Agreement | gateway-contracts/contracts/CiphertextCommits.sol:302-305 | under a majority threshold and a fixed registry at most one material of a handle reaches the threshold |
| Confluence.VotesShareSenders | gateway-contracts/contracts/CiphertextCommits.sol:125-153 | the counters of two materials of one handle together never exceed the number of registered senders |
| Confluence.CountersCountCalls | gateway-contracts/contracts/CiphertextCommits.sol:131-135 | when no sender votes twice for a handle, the votes logged for a hash are exactly the calls for it that pass the registry checks |
| Confluence.ConfluentIffMajority | gateway-contracts/contracts/CiphertextCommits.sol:160-163 | if no sender submits two votes for one handle, all reorderings of the same calls decide every handle alike if and only if the threshold is a majority of the senders, or no handle is on a registered chain |
| Confluence.OrderNeverMattersIff | gateway-contracts/contracts/CiphertextCommits.sol:125-127 | if senders may submit several votes for one handle, all reorderings of the same calls decide every handle alike if and only if no handle can be decided |
| Confluence.MajorityWithSecondThoughts | gateway-contracts/contracts/CiphertextCommits.sol:125-127 | with threshold two of three senders, order is irrelevant among single votes and relevant among repeated ones |
| Confluence.CanDecideIffQuorumExists | gateway-contracts/contracts/CiphertextCommits.sol:160-163 | some run decides a handle iff its chain is registered and there are at least threshold many distinct senders |
| Validity.OnlyValidIff | docs/protocol/architecture/coprocessor.md:79 | for any set of honest senders: whatever the others call, nothing but the honest material is ever stored, if and only if the others are fewer than a quorum, or the chain is not registered |
| Validity.HonestMajorityIsEnoughIff | docs/protocol/architecture/coprocessor.md:79 | the documented promise, valid results as long as more than half are honest, holds if and only if the threshold is at least half the number of senders, or the chain is not registered |
| Validity.AlwaysDeliveredIff | docs/protocol/architecture/coprocessor.md:79 | the honest material is stored in every run in which all honest senders have called, if and only if the chain is registered, the honest senders are a quorum and the others are not |
| Validity.OnlyValidAcrossIff | gateway-contracts/contracts/GatewayConfig.sol:262-283 | where registries and thresholds change between the votes, in any order and back again: nothing but the honest material is ever stored, if and only if no environment that registers a dishonest sender has a threshold the dishonest senders of all environments together can meet |
| Validity.OnlyValidInSuccessionIff | gateway-contracts/contracts/GatewayConfig.sol:262-283 | where they follow each other in a fixed order: the same, if and only if no environment that registers a dishonest sender has a threshold the dishonest senders of it and all before it can meet |
| Validity.ReplacingSendersIsUnsafe | gateway-contracts/contracts/GatewayConfig.sol:262-283 | a case where a succession is not safe: each of two successive registries has one dishonest sender of three under threshold two, and together they store their own material |
| Validity.OrderOfRegistriesMatters | gateway-contracts/contracts/GatewayConfig.sol:262-283 | a succession that is safe in its order, and not if the first registry can come back |
| Deadlock.CanStillDecideIff | gateway-contracts/contracts/CiphertextCommits.sol:125-163 | after any run, an undecided handle can still be decided under the present registry and threshold iff its chain is registered, some registered sender has not voted, and one material's votes plus all votes left meet the threshold |
| Deadlock.SplitVoteDeadlocks | gateway-contracts/contracts/CiphertextCommits.sol:125-163 | a case where it cannot: three senders, threshold two, three materials, one vote each |
| CiphertextCommits.CiphertextCommits.AddCiphertextMaterial | gateway-contracts/contracts/CiphertextCommits.sol:116-184 | the method's new mappings and outcome are those of the proved step, so the object stays at the end of a run one call longer |
| CiphertextCommits.CiphertextCommits.IsCiphertextMaterialAdded | gateway-contracts/contracts/CiphertextCommits.sol:189-192 | true exactly when the run has stored a material for the handle |
| CiphertextCommits.CiphertextCommits.GetAddCiphertextMaterialConsensusTxSenders | gateway-contracts/contracts/CiphertextCommits.sol:260-271 | the senders of the decided hash, and the empty list exactly when the log decides nothing |
| CiphertextCommits.CiphertextCommits.GetCiphertextMaterials | gateway-contracts/contracts/CiphertextCommits.sol:197-223 | one record per handle in order, or a revert naming the first undecided handle |
| CiphertextCommits.CiphertextCommits.GetSnsCiphertextMaterials | gateway-contracts/contracts/CiphertextCommits.sol:228-254 | the same with the other digest |
| CiphertextCommits.RecordsAreVoted | gateway-contracts/contracts/CiphertextCommits.sol:197-254 | both getters return, for an added handle, the key id and digests of one logged vote and exactly the senders of that vote in order, at least as many as its threshold |
| GatewayConfig.GatewayConfig.IsCoprocessorTxSender | gateway-contracts/contracts/GatewayConfig.sol:409-412 | answers exactly the registered senders, from the flags |
| GatewayConfig.GatewayConfig.IsHostChainRegistered | gateway-contracts/contracts/GatewayConfig.sol:441-444 | answers exactly the registered chains, from the flags |
| GatewayConfig.GatewayConfig.RemoveCoprocessors | gateway-contracts/contracts/GatewayConfig.sol:266-277 | clearing the flags and entries of the listed coprocessors clears every flag and every entry there is |
| GatewayConfig.GatewayConfig.RegisterCoprocessors | gateway-contracts/contracts/GatewayConfig.sol:654-660 | afterwards the flags are exactly the new lists, and the entry of each sender is his last one in the list |
| GatewayConfig.GatewayConfig.UpdateCoprocessors | gateway-contracts/contracts/GatewayConfig.sol:262-283 | accepts exactly a threshold from one to the length of a non-empty list, names the error of every other call, replaces senders, signers and entries exactly, and leaves everything as it was on an error |
| GatewayConfig.GatewayConfig.UpdateCoprocessorThreshold | gateway-contracts/contracts/GatewayConfig.sol:752-767 | only thresholds from one to the number of coprocessors are accepted |
| GatewayConfig.GatewayConfig.AddHostChain | gateway-contracts/contracts/GatewayConfig.sol:351-367 | registers a chain exactly when the owner asks, its id is a non-zero uint64 and it is new, and names the error of every other call |
| GatewayConfig.AcceptedConfigCanDecide | gateway-contracts/contracts/GatewayConfig.sol:643-665 | an accepted configuration can decide a handle if and only if its chain is registered and the threshold is at most the number of distinct senders |
| GatewayConfig.RepeatedSenderCannotDecide | gateway-contracts/contracts/GatewayConfig.sol:752-767 | a case where it cannot: a list that names one sender twice, under the accepted threshold 2 |
| GatewayConfig.AcceptedConfigConfluence | gateway-contracts/contracts/GatewayConfig.sol:752-767 | an accepted configuration is independent of the order of single votes iff twice its threshold exceeds the number of distinct senders |
| GatewayConfig.AcceptedConfigIsValid | gateway-contracts/contracts/GatewayConfig.sol:752-767 | under an accepted configuration an honest majority of the distinct senders is enough for valid results iff twice the threshold is at least their number |
| GatewayConfig.ThresholdOneIsNotValid | gateway-contracts/contracts/GatewayConfig.sol:752-767 | a case where it is not: three coprocessors under the accepted threshold 1 |
| Decimal.Log10 | gateway-contracts/rust_bindings/src/ciphertext_commits.rs:616 | pc 0x1545: for every 256-bit v > 0 the ladder returns r with 10^r <= v < 10^(r+1), and 0 for 0 |
| Decimal.LadderConstants | gateway-contracts/rust_bindings/src/ciphertext_commits.rs:616 | the hexadecimal constants at pc 0x154b to 0x1687 are the powers of ten, and seven rungs suffice for 256 bits |
| Decimal.LogCountsDigits | gateway-contracts/rust_bindings/src/ciphertext_commits.rs:616 | that logarithm is the number of digits found by repeated division, less one |
| Decimal.ToString | gateway-contracts/rust_bindings/src/ciphertext_commits.rs:616 | pc 0xfe1: the backwards loop fills a buffer of log10+1 bytes exactly, inside its bounds, with the decimal numeral |
| Decimal.DigitsParse | gateway-contracts/rust_bindings/src/ciphertext_commits.rs:616 | the numeral parses back to the number and has no leading zero except for zero |
| Decimal.ParseDigits | gateway-contracts/rust_bindings/src/ciphertext_commits.rs:616 | every numeral without a leading zero is the printed form of what it parses to |
| AbiEncoding.HeadLandsOnTail | gateway-contracts/rust_bindings/src/ciphertext_commits.rs:616 | the head of every dynamic component holds the offset at which exactly its tail stands |
| AbiEncoding.TailsTile | gateway-contracts/rust_bindings/src/ciphertext_commits.rs:616 | tails start where the heads end, never overlap, and end with the encoding |
| AbiEncoding.ReturnRoundTrip | gateway-contracts/rust_bindings/src/ciphertext_commits.rs:644-654 | decoding the encoded result by following its offsets gives back every list of records |
| AbiEncoding.OneRecordInWords | gateway-contracts/rust_bindings/src/ciphertext_commits.rs:644-654 | the result with one record, word by word: the offsets, the length, the four words of the record in order, then its senders |
| AbiEncoder.EncodeAddressArray | gateway-contracts/rust_bindings/src/ciphertext_commits.rs:616 | pc 0x1eb7: writes the specified encoding of an address array and nothing outside it |
| AbiEncoder.EncodeStruct | gateway-contracts/rust_bindings/src/ciphertext_commits.rs:616 | pc 0x1f13: writes the specified encoding of a record with its nested array and nothing outside it |
| AbiEncoder.EncodeRecordArray | gateway-contracts/rust_bindings/src/ciphertext_commits.rs:616 | pc 0x1f92: the loop with head and tail pointers writes the specified encoding of an array of records and nothing outside it |
| AbiEncoder.EncodeReturnData | gateway-contracts/rust_bindings/src/ciphertext_commits.rs:616 | pc 0x2005: the returned data is the specified encoding |
| Calldata.AcceptsIffInside | gateway-contracts/rust_bindings/src/ciphertext_commits.rs:616 | pc 0x1dc1 and 0x1d6c: despite wrap-around and a signed comparison the decoder accepts exactly the calldata that holds offset, length and all elements |
| Calldata.AcceptedElementsInside | gateway-contracts/rust_bindings/src/ciphertext_commits.rs:616 | every element of an accepted array lies inside calldata and is read at its position |
| Calldata.CanonicalCallDecodes | gateway-contracts/rust_bindings/src/ciphertext_commits.rs:616 | a canonical call is accepted iff it has fewer than 2^64 handles, and then decodes to the encoded handles |
| Dispatch.BinarySearch | gateway-contracts/rust_bindings/src/ciphertext_commits.rs:4871 | in a strictly sorted table the search finds a selector iff it is listed, at its index |
| Dispatch.ShimsOwnSelectors | gateway-contracts/rust_bindings/src/ciphertext_commits.rs:4688-4870 | the decode shim at every index belongs to the variant that owns the selector at that index |
| Dispatch.Decode | gateway-contracts/rust_bindings/src/ciphertext_commits.rs:4751-4879 | a selector decodes to a variant iff it is that variant's selector, and to none otherwise |
| Dispatch.TreeSelectsOwner | gateway-contracts/rust_bindings/src/ciphertext_commits.rs:616 | pc 0: for all 2^32 selectors the split comparison tree selects exactly the owner in the binding's table |
| ExternalCalls.AnswerIsRecords | gateway-contracts/contracts/CiphertextCommits.sol:197-254 | a getter succeeds iff all handles are added, and its answer is then determined |
| ExternalCalls.GetterRoundTrip | gateway-contracts/contracts/CiphertextCommits.sol:197-254 | bytes in to bytes out, after every run: a canonical call reverts iff some handle is undecided, and otherwise the returned bytes decode to the stored record of each handle in order |
| ExternalCalls.CiphertextMaterialsAnswer | gateway-contracts/contracts/CiphertextCommits.sol:197-223 | the same for the selector bytes 55c4d997: the decoded records hold key id, ciphertext digest and consensus senders |
| ExternalCalls.SnsCiphertextMaterialsAnswer | gateway-contracts/contracts/CiphertextCommits.sol:228-254 | the same for the selector bytes a14f8971, with the other digest |
| MockScan.FindCounterOperators | gateway-contracts/scripts/mock_contracts_cli.js:537-556 | removing duplicates at every recursion level gives one first-occurrence removal over the whole preorder of increments, and the recursion ends on every tree |
| Lists.DedupKeepsOrder | gateway-contracts/scripts/mock_contracts_cli.js:555 | without duplicates, names are in the order of their first occurrence |
| MockScan.FindCounterIdAssignments | gateway-contracts/scripts/mock_contracts_cli.js:564-592 | filtering by counter at every node gives the preorder list of all member reads, filtered once |
| ScannerCases.IncrementsOfOperation | gateway-contracts/scripts/mock_contracts_cli.js:541 | of all unary operations on all expressions, only the increment of a member access counts, and gives the member's name |
| ScannerCases.ReadsOfDeclaration | gateway-contracts/scripts/mock_contracts_cli.js:568-580 | of all statements with a list of variables, only the declaration from a member access pairs the member with the first variable, if both have names |
| ScannerCases.EmitsOfStatement | gateway-contracts/scripts/mock_contracts_cli.js:501-527 | of a statement of any type: itself if it is an emit, the emits of one of its four lists if it is an if, a block or a loop, and none otherwise |
| EmitScan.FindEmitStatements | gateway-contracts/scripts/mock_contracts_cli.js:498-530 | the emits on the followed statement lists, in order |
| EmitScan.FoundOrMissed | gateway-contracts/scripts/mock_contracts_cli.js:498-530 | every emit statement in a body is either returned or lies off the followed paths, and is counted there |
| EmitScan.EmitsCompleteIffNoneMissed | gateway-contracts/scripts/mock_contracts_cli.js:498-530 | the scanner returns all emits in order iff none lies in an else branch, an unbraced body or an unnamed statement kind |
| MockExamples.ElseBranchIsMissed | gateway-contracts/scripts/mock_contracts_cli.js:507-510 | a case where it does not: an emit in an else branch |
| MockFunctions.GenerateMockFunction | gateway-contracts/scripts/mock_contracts_cli.js:372-467 | the nested loops with their set and list give one declaration for the first parameter of every new name over all events, or throw exactly when an event or a type is unknown |
| MockFunctions.FirstMatchIsFirst | gateway-contracts/scripts/mock_contracts_cli.js:421-432 | an id is read from the counter of the first assignment that matches |
| MockFunctions.FindEventIsFirst | gateway-contracts/scripts/mock_contracts_cli.js:405 | an emit stands for the first event of its name |
| DecryptionMocks.TypeTextParts | gateway-contracts/scripts/mock_contracts_cli.js:477-492 | a type is printed as its innermost type and one pair of brackets for each array around it, and is unsupported exactly if the innermost type is |
| DecryptionMocks.FormByType | gateway-contracts/scripts/mock_contracts_cli.js:436-449 | an event parameter that is no id: arrays are allocated, structs, strings and bytes are declared in memory, everything else on the stack |
| DecryptionMocks.DecryptionIdForm | gateway-contracts/scripts/mock_contracts_cli.js:14-19 | decryptionId is read from publicDecryptionCounter or userDecryptionCounter, whichever the function increments, and from no counter if it increments neither |
| DecryptionMocks.DecryptionIsMocked | gateway-contracts/contracts/mocks/DecryptionMock.sol:84-133 | the mock functions of the Decryption contract, name by name; a first function of any visibility and mutability is mocked exactly if it is public or external and neither view nor pure |
| MockScoping.MockDeclarations | gateway-contracts/scripts/mock_contracts_cli.js:398-452 | exactly the emit arguments that are not inputs are declared, each once |
| MockScoping.FreshAreFirst | gateway-contracts/scripts/mock_contracts_cli.js:409-415 | of several event parameters of one name the first is declared, with its type, and the declarations are in the order of first occurrence |
| MockScoping.WellScopedIff | gateway-contracts/scripts/mock_contracts_cli.js:398-460 | the printed mock of a function is well scoped if and only if every event the function emits has only named parameters, and those that are not inputs have no double dollar sign |
| MockExamples.DollarArgumentIsNotDeclared | gateway-contracts/scripts/mock_contracts_cli.js:460 | a case where it is not: the mock generated for an event parameter with a double dollar sign |
| MockScoping.CollapseKeepsIff | gateway-contracts/scripts/mock_contracts_cli.js:460 | inserting by replacement keeps a name iff it has no double dollar sign |
| MockScoping.CollapseHalvesDollars | gateway-contracts/scripts/mock_contracts_cli.js:460 | replacement halves every run of dollar signs, rounding up, and keeps all other text |
| MockContract.GenerateMockFunctions | gateway-contracts/scripts/mock_contracts_cli.js:357-470 | the three passes over all definitions give the mocks in order, and throw if a definition has no body |
| MockScoping.EmitsOneForOne | gateway-contracts/scripts/mock_contracts_cli.js:402-456 | a mock emits one event per scanned emit statement, in scan order: the first event of that name, with the names of its parameters as arguments |
| MockContract.CountersAreClosed | gateway-contracts/scripts/mock_contracts_cli.js:283-291 | every counter any generated function increments is declared exactly once, although declarations come from a scan of whole definitions and increments from scans of bodies |
| MockCounters.PrintedIncrementsIff | gateway-contracts/scripts/mock_contracts_cli.js:434-460 | the printed increments of a mock change the state variables of exactly the counters they were generated for, in order, if and only if no counter the function takes an id from has a double dollar sign or is named like an input or an event parameter declared before |
| MockExamples.DollarCounterHitsAnother | gateway-contracts/scripts/mock_contracts_cli.js:460 | a case where they do not: both ids of a function with the counters a$$ and a$ are read from a$ |
| MockExamples.ParameterHidesCounter | gateway-contracts/scripts/mock_contracts_cli.js:434 | a parameter of the counter's name is incremented instead, and two calls with the same argument emit the same id |
| RequestIds.GenerateMockCounters | gateway-contracts/scripts/mock_contracts_cli.js:283-291 | every counter found in the definitions is declared, in order, with the initial value of its request type |
| RequestIds.InitialValues | gateway-contracts/scripts/mock_contracts_cli.js:23-32 | the counters of the six request types start at 1 to 6 times 2^248, with and without the suffix Counter |
| RequestIds.OtherInitialValues | gateway-contracts/scripts/mock_contracts_cli.js:599-611 | all other counters start at 0 |
| DecryptionMocks.DecryptionCountersAreDeclared | gateway-contracts/contracts/mocks/DecryptionMock.sol:81-82 | the counters of the Decryption contract and where they start |
| MockRuns.RunIsConsistent | gateway-contracts/scripts/mock_contracts_cli.js:434 | after every run of the printed contract, reverted calls included, each state variable is its initial value plus its increments, and each id read from one was that sum when it was read |
| MockRuns.ReadsAreSoundIff | gateway-contracts/scripts/mock_contracts_cli.js:434 | for any mock functions that compile: in every run with fewer than 2^248 increments per counter all request ids are distinct and typed when they are read, if and only if every request counter keeps its name and no two that are used share a name up to the suffix |
| EmittedIds.EmittedInCall | gateway-contracts/scripts/mock_contracts_cli.js:402-460 | every id argument that a call emits belongs to a declaration from a counter and carries the value of its printed name when all declarations are made |
| EmittedIds.VariableAfter | gateway-contracts/scripts/mock_contracts_cli.js:430-460 | a declared id holds what was read for it, plus one for every later increment that is printed under its name |
| EmittedIds.MocksAreSoundIff | gateway-contracts/scripts/mock_contracts_cli.js:402-460 | for any mock functions that compile and emit all they declare, as the generated ones do: in every run all emitted request ids are the values their counters gave out, distinct and typed, if and only if, besides, every request id has a plain name and no later increment is printed under it |
| RequestIds.FirstByteIsShifted | gateway-contracts/scripts/mock_contracts_cli.js:32 | shifting a word right by 248 bits leaves its first byte, so the type of an id is its first byte |
| MockExamples.KeyAndKeyCounterCollide | gateway-contracts/scripts/mock_contracts_cli.js:599-611 | a case where they are not: the mock of a function that takes ids from key and keyCounter emits the same id twice in its first call |
| MockExamples.LaterIncrementChangesId | gateway-contracts/scripts/mock_contracts_cli.js:434-456 | another: a counter named like an id increments the id after it was read, and the first call emits one key id twice though it read two |
| EmittedIds.GeneratedIdsAreSoundIff | gateway-contracts/scripts/mock_contracts_cli.js:23-32 | the same for the functions generated from a source, with the conditions read off the source: the counters that give ids, the inputs, and the event parameters in the order of their declarations |

## Left out

- upgradeToAndCall, the initializers, proxy slots and ownership transfer: foreign calls, or claims one branch settles.
- keccak256 itself, gas, and the allocation of memory: the encoder is given memory that is long enough.
- The string and bytes arguments of other functions, getVersion and UPGRADE_INTERFACE_VERSION: constants or simple copies.
- KMS nodes, custodians, pausing and the metadata of `GatewayConfig`: the same loops, not asked by CiphertextCommits.
- GatewayConfig.GatewayConfig.UpdateCoprocessors: does not model the first registration by the initializer, on empty lists.
- Confluence.ConfluentIffMajority: is about one registry and one threshold throughout; when they change between votes, what holds is in `CommitsInvariants`, `CiphertextCommits.RecordsAreVoted` and `Validity.OnlyValidAcrossIff`.
- ExternalCalls.Serve: does not model the revert of a call that carries value; functions other than the two batch getters answer nothing here.
- ExternalCalls.GetterRoundTrip: is about canonical calldata of fewer than 2^64 handles; a longer list is rejected by `Calldata.CanonicalCallDecodes`.
- AbiEncoding.ReturnRoundTrip: needs the encoding to be shorter than the 2^256 bytes that offsets can address; `ExternalCalls.ReturnFits` shows that this holds for every answer of the contract.
- Dispatch.Decode: yields the variant; decoding its arguments is done by a library that is not part of this model, except for the handle lists in `Calldata`.
- MockFunctions.GenerateMockFunction: returns a structured function instead of its text; a JavaScript exception is one result, whatever its message.
- DecryptionMocks.DecryptionIsMocked: gives each function the statements that hold increments, ids and emits; the statements between them hold none, and the view and internal functions, which are not mocked, are left out.
- MockScoping.WellScopedIff: is about the names of variables; a type whose name has `$$` is declared under another name too.
- MockFunctions.FirstMatch: does not model names that every JavaScript object inherits, such as `toString`, as keys of the request id table.
- RequestIds.InitialValue: does not model such inherited names as keys of the request type table.
- EmittedIds.GeneratedIdsAreSoundIff: is about functions of fewer than 2^16 declarations, as a contract's code is shorter than that, and takes every parameter and declared variable for a uint256; a hidden counter of another type may not compile or may wrap around earlier.
- MockCounters.PrintedIncrementsIff: knows the counters, parameters and local variables; functions, events and structs that bear the name of a counter are not part of this model.
- MockScan.Text: names that are not strings read as the text they would be printed as; the parser gives strings.
- The Solidity parser, Prettier, files and the command line, and the generators of structs, enums and events, which only join strings.
- The error and event selector tables and the other binding files: the dispatch pattern again.
