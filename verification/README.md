# Verification of the radnet morphic kernel

A Dafny 4.11 model of the parts of the repository whose correctness is an
invariant over whole runs, a round trip, or an agreement between two programs.
`dafny verify dfyconfig.toml` checks it. Every file is one module:

| component | modules |
|---|---|
| incremental Ising solver (`src/bin/bio_quantum_record.rs`) | `IsingBuild`, `IsingSolver`, `IsingState`, `PackedSpins` |
| account slot table and card authorisation (`src/bin/hyperion_grpc_server.rs`) | `SlotTable`, `CardSaga`, `CardOutcome`, `CardQuota`, `CardCount` |
| swap ledger and its write-ahead log (`src/blockchain/ledger.rs`, `src/bin/hyperion_raw_ingress.rs`) | `SwapLedger`, `SwapOutcome` |
| chain blocks and ingress sessions (`src/blockchain/mod.rs`, `src/bin/hyperion_raw_ingress.rs`) | `ChainBlock`, `IngressSession` |
| rule language: text, intermediate form, binary file, runners (`src/bin/radnet_tools.rs`, `src/bin/raman_portable.rs`) | `TextTools`, `GplText`, `GplRoundTrip`, `StableSort`, `RuleIr`, `RuleText`, `Gbc2`, `RuleRunner`, `RuleMeaning` |
| binary artifact (`src/raman.rs`) | `BinaryFormat`, `ByteCodec`, `RamanArtifact` |
| byte layouts of the rule file and the artifact | `FileLayout` |
| rule executors and compiled rule text (`src/raman.rs`, `raman-core/src/lib.rs`) | `MirrorExecutor`, `RamanActions`, `RplText`, `RplLines`, `CoreExecutor` |
| RLP and transactions (`src/bin/hft_web3_bench.rs`) | `BigEndian`, `Rlp`, `LegacyTx` |
| dates (`src/bin/gplc_rt.rs`, `src/bin/hft_web3_bench.rs`) | `Calendar` |
| CRC-protected learning bank (`src/bin/radnet_tools.rs`) | `LinearRegister`, `Crc32`, `CrcIdentity`, `BankImage` |
| hop plan, packet ring, anomaly detector, replay window | `HopPlan`, `PacketRing`, `SortedReals`, `AnomalyDetector`, `ReplayWindow` |
| shared | `Outcome`, `RealTools` |

Objects that the program updates in place are classes here, and its loops are
methods proved against a function of their inputs; what the program promises is
then proved about that function. The two lock-free components and the card
authorisation are state machines: every atomic access is one step, the steps of
different calls interleave freely, and results hold in every state of every
run. Where the program passes control to something outside the model (hash
functions, float parsing and comparison, UTF-8, the database, random draws, the
radio planner), the model takes that thing as a parameter or as a free choice,
so the results hold for all of them.

## Where the code falls short of what one would expect

The model follows the code. These results say exactly when it does what one
would expect of it, and give an input where it does not:

- `build_problem` drops duplicate pairs after an unstable sort
  (`src/bin/bio_quantum_record.rs:137-161`). The matrix is sure to be symmetric
  exactly when no pair is drawn twice with different weights
  (`IsingBuild.SymmetricIff`); otherwise one flip may spoil the cached fields
  (`IsingBuild.TwiceDrawnBreaksCache`, `IsingSolver.FieldUpdateIff`).
- The running energy of a solver run drifts by `2 alpha / n` per accepted flip
  (`IsingState.RunningEnergyDrift`, `RunningEnergyExactIff`).
- The winner of an account slot stores the opening values after publishing the
  tag (`src/bin/hyperion_grpc_server.rs:420-431`). Money is lost exactly when its
  balance store runs over a balance (`CardSaga.MoneyConserved`,
  `EarlyDepositLost`), and the approval bound grows by the count its
  count store runs over (`CardQuota.ApprovalsBounded`, `BoundMet`); neither
  happens if deposits and requests come after its last store
  (`CardSaga.LateDepositsKept`, `CardQuota.LateRequestsBounded`).
- With a database the transaction count can wrap below zero, exactly when a
  request counts back from zero (`CardCount.WrapsIff`, `CountCanWrap`); failures
  alone lead there exactly from a count smaller than the requests that may still
  fail (`CardCount.CanWrapIff`), and without a database it never wraps
  (`CardCount.NoDatabaseNoWrap`).
- The hand-laid signing preimage is the EIP-155 one only for nonces of three
  bytes (`LegacyTx.FastIsGenericIff`), and a zero signature scalar is not written
  canonically (`LegacyTx.TrimmedCanonicalIff`).
- The largest packet nonce can be replayed, and a window near the top of the
  nonce range refuses the very frame it expects
  (`ReplayWindow.AcceptedNoncesIncrease`, `NextFrameAcceptedIff`).
- A rule with the least 32-bit priority is sorted first instead of last, so
  compiled text comes out as meant exactly when it does not state that priority
  beside a higher one (`RplText.AsMeantIff`, `RplLines.LeastPriorityFirst`; with overflow
  checks on it panics instead).
- The even median adds two 64-bit words, and where that sum wraps the median
  leaves the middle of the window (`AnomalyDetector.MedianBetweenIff`,
  `ConstantWindowIsQuiet`).
- A condition that compares with a single quote character makes `parse_scalar`
  slice past its end; lowering panics exactly when such a condition comes before
  any other fault (`RuleIr.LowerPanicsIff`, `LoneQuotePanics`).
- A parsed value may keep white space that stood inside its quotes; printing and
  parsing once more then loses it (`GplRoundTrip.ParseAgainIff`,
  `ValueStableIff`).

## Model

| member | source | states |
|---|---|---|
| `PackedSpins.PackSpins` | src/bin/bio_quantum_record.rs:108-116 | one word per 64 sites, and each bit set exactly where its spin is up |
| `PackedSpins.ToggleMirrors` | src/bin/bio_quantum_record.rs:238 | toggling one site's bit keeps the bits the mirror of the spins after that spin is negated |
| `IsingSolver.FlipEnergy` | src/bin/bio_quantum_record.rs:206-232 | negating one spin changes the energy, recomputed in full, by exactly twice the spin times its local field, less 2 alpha / n |
| `IsingSolver.FieldUpdateIff` | src/bin/bio_quantum_record.rs:240-256 | after the neighbour loop of a flip every cached field equals its recomputation if and only if row i and column i of the weight matrix agree |
| `IsingBuild.Neighbours` | src/bin/bio_quantum_record.rs:133-149 | the drawing loop leaves in row r exactly what the draws of pairs with site r push, in order, a site never paired with itself |
| `IsingBuild.OtherIs` | src/bin/bio_quantum_record.rs:140-142 | a site that draws itself is paired with the next one, the last site with the first, and any other draw stands as it is |
| `IsingBuild.Compress` | src/bin/bio_quantum_record.rs:150-161 | the row loop builds row starts, columns and weights of the rows laid end to end |
| `IsingBuild.BuildProblem` | src/bin/bio_quantum_record.rs:118-172 | the built problem is the assembled one over what the unstable sort makes of the pushed rows, well-formed, and symmetric if draws of one pair carry one weight |
| `IsingBuild.WeightIsKept` | src/bin/bio_quantum_record.rs:153-161 | the weight of i for j is that of the first entry for j in sorted row i, and zero if there is none |
| `IsingBuild.SymmetricIff` | src/bin/bio_quantum_record.rs:137-161 | every outcome of the unstable sort gives a symmetric matrix with an empty diagonal if and only if no pair was drawn twice with different weights |
| `IsingBuild.TwiceDrawnBreaksCache` | src/bin/bio_quantum_record.rs:137-161 | a pair drawn twice with different weights, whatever the biases, reference spins and other draws: some outcome of the sort makes one flip spoil accurate fields from every state |
| `IsingSolver.CouplingsAreRow` | src/bin/bio_quantum_record.rs:211-232 | with symmetric weights the couplings of a site above and below the diagonal, and its diagonal entry, add up to its whole row |
| `IsingState.State.constructor` | src/bin/bio_quantum_record.rs:174-204 | packed bits, cached fields and the reference overlap all equal their recomputation from the drawn spins |
| `IsingState.State.Energy` | src/bin/bio_quantum_record.rs:211-232 | the energy computed from the caches is the energy of the spins |
| `IsingState.State.ApplyFlip` | src/bin/bio_quantum_record.rs:234-256 | the spin is negated, bits and overlap stay accurate on any matrix, and the cached fields stay accurate exactly when row and column of the site agree |
| `IsingState.State.TryFlip` | src/bin/bio_quantum_record.rs:302-313 | one accept-or-reject step: who is accepted, the new spins, and that the true energy moves by dE - 2 alpha / n |
| `IsingState.State.Anneal` | src/bin/bio_quantum_record.rs:275-326 | over the whole annealing loop the running energy exceeds the true energy by 2 alpha / n per accepted flip, the best energy is the least running energy of the run, and the loop stops early exactly at the first plateau |
| `IsingState.State.Polish` | src/bin/bio_quantum_record.rs:329-347 | with a non-negative coupling every polish flip strictly lowers the energy; if the loop stops early no single flip lowers it by more than 2 alpha / n |
| `IsingState.RunningEnergyDrift` | src/bin/bio_quantum_record.rs:302-316 | for any sequence of flipped sites, the start energy plus all dE is the final energy plus 2 alpha / n times the number of flips |
| `IsingState.RunningEnergyExactIff` | src/bin/bio_quantum_record.rs:302-316 | the running energy is the true energy if and only if alpha is zero or nothing was flipped |
| `IsingState.BestIsLeast` | src/bin/bio_quantum_record.rs:312-322 | the recorded best energy is attained during the run and no running energy is below it |
| `IsingState.LastRecord` | src/bin/bio_quantum_record.rs:312-322 | what the plateau limit is compared with is the number of steps since the last one whose running energy was below all before it, or since the start |
| `IsingState.RunStart` | src/bin/bio_quantum_record.rs:258-352 | one start reports the true energy and overlap of its final spins, never above the start when no uphill move was allowed |
| `SlotTable.ClaimsArePermanent` | src/bin/hyperion_grpc_server.rs:405-440 | under every interleaving a claimed slot keeps its tag for the rest of the run |
| `SlotTable.OneSlotPerTag` | src/bin/hyperion_grpc_server.rs:405-440 | finished calls name the same slot if and only if they are for the same tag, and that slot holds the tag from then on |
| `SlotTable.TagsUnique` | src/bin/hyperion_grpc_server.rs:405-440 | no tag is stored in two slots |
| `SlotTable.ExhaustedOnlyWhenFull` | src/bin/hyperion_grpc_server.rs:439 | the error is returned only when every slot holds some other tag, and then it stays so |
| `SlotTable.AnswersMatchSearch` | src/bin/hyperion_grpc_server.rs:405-440 | every answer is the one an undisturbed probe loop gives at any later moment |
| `SlotTable.StepsAreBounded` | src/bin/hyperion_grpc_server.rs:408-438 | a call ends within two steps per slot of its own, whatever the others do |
| `SlotTable.NeverStuck` | src/bin/hyperion_grpc_server.rs:408-438 | an unfinished call can always take a step |
| `SlotTable.RunInv` | src/bin/hyperion_grpc_server.rs:405-440 | in every reachable table each stored tag sits where probing for it stops first, and every call is consistent with the table |
| `SlotTable.ProbeIsTheLoop` | src/bin/hyperion_grpc_server.rs:407-437 | the probe positions used throughout are the loop's own slot arithmetic |
| `CardSaga.AdvanceConserves` | src/bin/hyperion_grpc_server.rs:123-280 | no step of a card authorisation creates or destroys money: the balance and what the request holds move against each other; which step it is, is `CardOutcome.DeclinedIff` and `LoneRequest` |
| `CardOutcome.DeclinedIff` | src/bin/hyperion_grpc_server.rs:790-806 | under every interleaving a request that reads the balance is declined if and only if the balance it finds is smaller than its amount, and otherwise goes on to debit; the account is not touched |
| `CardOutcome.NobodyElseDeclines` | src/bin/hyperion_grpc_server.rs:123-280 | no other step declines for the balance, and only the limit check sends a request to upgrade |
| `CardOutcome.LoneRequest` | src/bin/hyperion_grpc_server.rs:123-280 | without a database, for every amount, balance, count and level: a request nobody interferes with is sent to upgrade exactly on a basic account with 100 transactions, fails exactly on a bad currency, is declined exactly above the balance, and is else approved with the balance lower by exactly its amount and the count higher by one |
| `CardOutcome.LoneRequestWithDatabase` | src/bin/hyperion_grpc_server.rs:123-280 | with a database, on a currency that passes and a count and level that let it through: the same, except that it is approved exactly if the database counts and records it; whenever the database fails either the balance is what it was |
| `CardOutcome.FetchDecides` | src/bin/hyperion_grpc_server.rs:442-465 | what the database fetch leaves in the account, and that the fetched count and level decide who goes on |
| `CardOutcome.StepsRun` | src/bin/hyperion_grpc_server.rs:123-280 | every such outcome is the end of a run of the interleaving model |
| `CardOutcome.ApprovalLiftsLimit` | src/bin/hyperion_grpc_server.rs:70-122 | after a KYC decision a request held up by the count goes on exactly if the decision was an approval |
| `CardSaga.MoneyConserved` | src/bin/hyperion_grpc_server.rs:123-309 | in every reachable state the balance is not negative and no money is unaccounted for; once all requests have replied the balance is deposits less approved debits if and only if the slot winner's balance store found a zero balance |
| `CardSaga.NothingLostIff` | src/bin/hyperion_grpc_server.rs:420-431 | over a whole run nothing is lost if and only if the winner's balance store never runs over a balance other than zero |
| `CardSaga.LateDepositsKept` | src/bin/hyperion_grpc_server.rs:123-309 | if every deposit lands after the winner's last store, all money is there at every moment, and at rest the balance is deposits less approved debits |
| `CardSaga.LostOnlyInSetUp` | src/bin/hyperion_grpc_server.rs:420-431 | a step loses money only as the winner's balance store, and then exactly the balance it finds |
| `CardSaga.EarlyDepositLost` | src/bin/hyperion_grpc_server.rs:420-431 | a deposit of any size that lands between the claim and the balance store is lost entirely |
| `CardQuota.ApprovalsBounded` | src/bin/hyperion_grpc_server.rs:151-180 | without a database, with at most k requests in flight and the level always basic, at most 99 + k requests are approved if the winner's count store found a zero count, and otherwise at most what it found on top |
| `CardQuota.NothingForgottenIff` | src/bin/hyperion_grpc_server.rs:427 | over a whole run no count is forgotten if and only if the winner's count store found a zero count |
| `CardQuota.LateRequestsBounded` | src/bin/hyperion_grpc_server.rs:151-180 | if no request begins before the winner's last store, at most 99 + k are ever approved |
| `CardQuota.BoundMet` | src/bin/hyperion_grpc_server.rs:151-180 | the bound is met, and what the winner forgot really comes on top: for every early <= 100 a run with one request in flight at a time approves exactly 99 + 1 + early |
| `CardQuota.ForgottenOnlyInSetUp` | src/bin/hyperion_grpc_server.rs:427 | a step forgets counts only as the winner's count store, and then exactly the count it finds |
| `CardCount.WrapsIff` | src/bin/hyperion_grpc_server.rs:467-490 | in every reachable state a request that counts back takes the count to 2^64 - 1 if and only if it finds zero, and takes off one otherwise |
| `CardCount.NoDatabaseNoWrap` | src/bin/hyperion_grpc_server.rs:467-490 | without a database no request ever counts back, so the count never wraps |
| `CardCount.CanWrapIff` | src/bin/hyperion_grpc_server.rs:225-265 | failures of the database alone can wrap the count if and only if it is smaller than the number of counted requests that may still fail |
| `CardCount.WrapNeedsStore` | src/bin/hyperion_grpc_server.rs:442-490 | a run whose count wraps has, earlier, a store of a count or an overflowing increment that left the count smaller than the requests that may still count back |
| `CardCount.CountCanWrap` | src/bin/hyperion_grpc_server.rs:442-490 | a run with a truthful database wraps: a request reads zero, another is counted, the zero is copied over, and recording the other one fails |
| `CardSaga.QuiescentHolds` | src/bin/hyperion_grpc_server.rs:225-265 | once all requests have replied, what they hold is what approved replies reported: failed and declined ones are refunded in full |
| `SwapLedger.Conservation` | src/blockchain/ledger.rs:92-139 | under every interleaving each USDT balance is its opening value less the debits done and never negative, and each EURC balance its opening value plus the credits done, modulo 2^64 exactly when they overflow |
| `SwapLedger.OneEffectPerStep` | src/blockchain/ledger.rs:107-137 | a step touches one swap only; a swap debits once and credits once, by exactly its own amounts |
| `SwapLedger.PricedBySaturation` | src/blockchain/ledger.rs:108 | in every reachable state every swap carries the saturating price of its own amount and rate; what that price is, is `SwapOutcome.CreditsThePrice` |
| `SwapOutcome.CreditsThePrice` | src/blockchain/ledger.rs:108 | every swap of every run credits a millionth of amount times rate, rounded down: 1 000 000 times the credit is at most the product and within a million of it, with 2^64 - 1 for a product that overflows |
| `SwapOutcome.AddingWraps` | src/blockchain/ledger.rs:127-135 | credits add up modulo 2^64 |
| `SwapOutcome.RefusedIff` | src/blockchain/ledger.rs:110-114 | a swap that reads its source balance is refused for funds if and only if it finds less than its amount there |
| `SwapOutcome.InvalidIff` | src/blockchain/ledger.rs:99-106 | in every reachable state a swap stands refused for its accounts if and only if one of the two does not exist |
| `SwapOutcome.LoneSwap` | src/blockchain/ledger.rs:92-139 | a swap nobody interferes with is refused exactly for a missing account or too small a balance, with nothing changed, and else takes its amount off the source and adds the rounded price to the destination, modulo 2^64 |
| `SwapOutcome.WritesEvery64` | src/bin/hyperion_raw_ingress.rs:228-268 | the logger writes exactly when its batch reaches 64 records, and then writes all of them in order |
| `SwapOutcome.SendsBelow1024` | src/bin/hyperion_raw_ingress.rs:229-434 | a record can be sent exactly while fewer than 1024 wait |
| `SwapLedger.WalLag` | src/bin/hyperion_raw_ingress.rs:228-268 | the file never holds a record that was not logged, and lags the logged swaps by at most 63 + 1024 records |
| `SwapLedger.ReplayRebuildsLedger` | src/bin/hyperion_raw_ingress.rs:397-433 | once everything is quiet, replaying the file in any order onto the opening balances gives exactly the ledger, with no balance negative on the way |
| `SwapLedger.SumsPermute` | src/bin/hyperion_raw_ingress.rs:231-268 | what a log moves per account does not depend on the order of its records |
| `ChainBlock.BuiltBlockValidates` | src/blockchain/mod.rs:137-186 | a built block passes the seal check, and the link check for one previous hash only |
| `ChainBlock.BlockIs` | src/blockchain/mod.rs:137-176 | what stands at each of the 128 bytes of a built block, from the eight letters of its tag to the eight bytes of its seal |
| `ChainBlock.HeadFixesHistory` | src/blockchain/mod.rs:178-186 | two unbroken chains with the same head hash are the same chain, whatever their lengths, or contain a SHA-256 collision or a block whose digest is zero |
| `ChainBlock.UnbrokenExtends` | src/blockchain/mod.rs:178-186 | a sealed block that links to the head of an unbroken chain extends it to an unbroken chain |
| `IngressSession.Session.ProcessFrame` | src/bin/hyperion_raw_ingress.rs:363-437 | the status of a frame, that only an accepted frame is appended, and that a rejected one leaves the expected hash and the count alone |
| `IngressSession.RequestIs` | src/bin/hyperion_raw_ingress.rs:385-395 | source account, destination account, amount and rate are read from bytes 0, 2, 4 and 12 of the swap, least significant byte first |
| `IngressSession.VerdictIs` | src/bin/hyperion_raw_ingress.rs:363-437 | each status exactly under its condition: a bad seal before a broken link before a refused swap |
| `IngressSession.Session.ProcessBankFrame` | src/bin/hyperion_raw_ingress.rs:439-516 | bank mode mints its own block on the last one, appended exactly when the ledger accepts the swap |
| `IngressSession.AcceptedUnbroken` | src/bin/hyperion_raw_ingress.rs:363-437 | whatever frames arrive, the accepted ones form an unbroken hash chain |
| `IngressSession.ReplayRejected` | src/bin/hyperion_raw_ingress.rs:380-396 | sending the last accepted block again is answered with a broken link, unless the block contains its own digest |
| `IngressSession.SameHeadSameHistory` | src/bin/hyperion_raw_ingress.rs:363-437 | sessions that end on one head accepted the same blocks, or accepted two that collide or one whose digest is zero |
| `TextTools.ParsePrintI32` | src/bin/radnet_tools.rs:824-829 | every 32-bit integer reads back from its print |
| `TextTools.PrintedPlainly` | src/bin/radnet_tools.rs:699-709 | an integer is printed with a sign exactly if it is negative, and without leading zeros |
| `TextTools.LinesOfUnlines` | src/bin/radnet_tools.rs:799-801 | lines written one after the other read back as the same lines, up to carriage returns at their ends |
| `TextTools.LessIff` | src/bin/radnet_tools.rs:902-906 | one text comes before another exactly if, behind what they share, it ends or has the lesser character |
| `GplText.RenderGpl` | src/bin/radnet_tools.rs:691-716 | the loop builds the specified text, trailing blank lines collapsed |
| `GplRoundTrip.PrintedIs` | src/bin/radnet_tools.rs:691-716 | the printed text, character for character: the heading, and for each rule a blank line, its name, its priority, its condition and its fields |
| `GplText.ParseGpl` | src/bin/radnet_tools.rs:799-854 | the two nested loops compute the specified parse, including every error |
| `GplText.ParsePhyPairs` | src/bin/radnet_tools.rs:856-868 | the field loop computes the specified ordered map, or the first bad part |
| `GplText.MissingIs` | src/bin/radnet_tools.rs:841-845 | a rule is reported for the first of priority, condition and fields that none of its statements gives |
| `GplText.FieldFaults` | src/bin/radnet_tools.rs:858-861 | a field is an error exactly if it has no equals sign |
| `GplText.InsertIsUpdate` | src/bin/radnet_tools.rs:856-868 | inserting into the ordered map keeps it ordered, sets its key and changes no other |
| `GplRoundTrip.ParseOfRender` | src/bin/radnet_tools.rs:691-868 | printing a rule list and parsing the text gives the list back with every value trimmed of white space and then of quotes |
| `GplRoundTrip.ParseUndoesRenderIff` | src/bin/radnet_tools.rs:691-868 | printing and parsing gives the same list back if and only if no value has white space, and then quotes, at its ends |
| `GplRoundTrip.ParseAgainIff` | src/bin/radnet_tools.rs:691-868 | whatever text parses, its print parses again, to the same rules if and only if no value has white space at its ends |
| `GplRoundTrip.SameParse` | src/bin/radnet_tools.rs:799-854 | the parser does not see carriage returns at the ends of lines |
| `GplRoundTrip.ValueStableIff` | src/bin/radnet_tools.rs:862-866 | a field value reads back as itself exactly when trimming it and then its edge quotes changes nothing |
| `RuleIr.LowerRules` | src/bin/radnet_tools.rs:889-908 | lowering computes the specified rules in the specified order, or the first error |
| `RuleIr.CompilePredicates` | src/bin/radnet_tools.rs:910-923 | the chunk loop computes the specified predicates, or the first error; what they are is `RuleText.WhenReads` |
| `RuleText.OperatorReads` | src/bin/radnet_tools.rs:925-936 | each of ==, !=, >=, <=, > and <, between a field and a value free of those characters, is taken for exactly that operator with exactly that field and value |
| `RuleText.IntegerReads` | src/bin/radnet_tools.rs:952-963 | every 64-bit integer is read as a number |
| `RuleText.QuotedReads` | src/bin/radnet_tools.rs:945-951 | a value between quotes is the text between them |
| `RuleText.TruthReads` | src/bin/radnet_tools.rs:940-944 | true and false, in any case, are the truth values |
| `RuleText.WordReads` | src/bin/radnet_tools.rs:952-963 | any other value without a point is the text itself |
| `RuleText.PointReads` | src/bin/radnet_tools.rs:952-963 | a value with a point is a number exactly if it parses as a finite float |
| `RuleText.WhenReads` | src/bin/radnet_tools.rs:910-923 | a condition text joined by and compiles to exactly those conditions in their order, each with its own field, operator and scalar |
| `RuleText.RuleReads` | src/bin/radnet_tools.rs:889-908 | a rule with such a text is lowered to its own name and priority, those conditions, and its own fields |
| `RuleText.RulesCarry` | src/bin/radnet_tools.rs:889-901 | every lowered rule carries what the written one at its place says |
| `RuleIr.SortOrdered` | src/bin/radnet_tools.rs:902-906 | the sort puts no rule behind one it precedes and loses or adds none |
| `RuleIr.SortedMeans` | src/bin/radnet_tools.rs:902-906 | of two lowered rules the one in front has the higher priority, or the same and no later a name |
| `StableSort.SortOrdered` | src/bin/radnet_tools.rs:902-906 | sorting by any weak order leaves no value behind one it comes before, and loses and adds none |
| `StableSort.SortKeepsTies` | src/bin/radnet_tools.rs:902-906 | sorting by any weak order keeps values that tie in the order they came in |
| `RuleIr.TiesAre` | src/bin/radnet_tools.rs:902-906 | two rules tie exactly when their priorities and names are equal |
| `RuleIr.SortKeepsTies` | src/bin/radnet_tools.rs:902-906 | rules of one priority and name keep the order they were written in |
| `RuleIr.LoweredConsistent` | src/bin/radnet_tools.rs:889-964 | everything lowered has a known operator and a value of the kind its type says, in order, with no rule lost or added |
| `RuleIr.ScalarPanicsIff` | src/bin/radnet_tools.rs:938-964 | parsing a scalar panics if and only if the text, trimmed, is a single quote character |
| `RuleIr.LowerStopsIff` | src/bin/radnet_tools.rs:889-964 | lowering stops with the fault of the first faulty condition in written order, and not at all if none has one: readable off the when texts alone |
| `RuleIr.LowerPanicsIff` | src/bin/radnet_tools.rs:889-964 | lowering panics if and only if some condition compares with a lone quote and none written before it is faulty |
| `RuleIr.LoneQuotePanics` | src/bin/radnet_tools.rs:938-951 | a rule whose when text is x==" panics, whatever its other fields |
| `Gbc2.EncodeGbc2` | src/bin/radnet_tools.rs:966-1028 | encoding fails exactly when some name, predicate or value does not fit its 16-bit length (or a number is none), and otherwise writes the specified bytes |
| `FileLayout.RuleFileIs` | src/bin/radnet_tools.rs:966-1028 | the bytes of a rule file, stated on their own: tag, count, and for each rule its name, priority, conditions, action kind and fields, each with its little-endian length |
| `FileLayout.WrittenRuleIs` | src/bin/radnet_tools.rs:971-1013 | the numbers operators and value kinds are written as, and that each rule is written with its own parts |
| `Gbc2.LoadGbc2` | src/bin/raman_portable.rs:260-364 | the loader computes the specified rules or the specified error |
| `FileLayout.RuleFileRefused` | src/bin/raman_portable.rs:320-328 | a file is too short below eight bytes, and foreign exactly if it is not and does not start with GBC2 |
| `Gbc2.RuleEncodableIff` | src/bin/radnet_tools.rs:971-1013 | a rule can be written if and only if each of its lengths fits 16 bits and each predicate can be written |
| `Gbc2.LoadUndoesEncode` | src/bin/raman_portable.rs:320-364 | loading an encoded rule list gives its rules back, whatever bytes follow |
| `Gbc2.PrefixNotLoaded` | src/bin/raman_portable.rs:320-364 | no proper prefix of an encoded rule list loads |
| `RuleRunner.PredicateAgrees` | src/bin/raman_portable.rs:139-216 | on a known operator and a well-typed value the JSON and the binary predicate mean the same on every context |
| `RuleMeaning.NumberCondition` | src/bin/raman_portable.rs:139-216 | in both forms a condition on a number holds exactly if its field is there, is a number, and stands to the written one as the written operator says, for floats that compare as numbers do |
| `RuleMeaning.TextCondition` | src/bin/raman_portable.rs:139-216 | in both forms a condition on a text holds exactly for == with the very text and != with another one, and never for the other operators |
| `RuleMeaning.TruthCondition` | src/bin/raman_portable.rs:139-216 | in both forms a condition on a truth value compares it, by == or !=, with whether the field reads true in any case |
| `RuleMeaning.AllConditions` | src/bin/raman_portable.rs:393-477 | in both forms a rule matches exactly if every one of its conditions holds |
| `RuleRunner.CarriedIff` | src/bin/radnet_tools.rs:976-984 | on texts and truth values the binary form of a predicate answers as the JSON form in every context if and only if its operator is one of the six; the compiler lowers no other, so the encoder's default arm is never reached |
| `RuleRunner.BinaryFormPreservesMeaning` | src/bin/raman_portable.rs:393-477 | whatever rules the compiler lowers, if their encoding succeeds the file loads and decides exactly as the JSON form does, on every context and mapping: rule, priority, profile and register writes |
| `RuleRunner.DecisionIsBest` | src/bin/raman_portable.rs:393-422 | a decision comes from a matching rule that no matching rule precedes in priority and name |
| `RuleMeaning.DecisionIs` | src/bin/raman_portable.rs:393-422 | on compiled rules: nothing is decided exactly if no rule matches, and otherwise the decision has the name, the priority, the profile and the register writes of the chosen rule |
| `RuleRunner.ApplyAction` | src/bin/raman_portable.rs:218-237 | the write loop computes the specified register writes |
| `RuleMeaning.WritesScaled` | src/bin/raman_portable.rs:228-234 | the value written for an integer: the integer times scale plus offset where that fits 32 bits and is not negative, zero below, and the largest 32-bit integer above |
| `RuleMeaning.WritesInOrder` | src/bin/raman_portable.rs:218-237 | registers are written in the order of the mappings, and a field that is missing or no integer is skipped |
| `RuleRunner.WritesFit` | src/bin/raman_portable.rs:228-234 | every register write is a non-negative 32-bit value |
| `BinaryFormat.CountedByLawful` | src/raman.rs:424-434 | a counted list reads back what it writes and refuses every cut, if its count and its items do |
| `BinaryFormat.TextLawful` | src/raman.rs:1176-1188 | a length-prefixed string reads back what it writes and refuses every cut |
| `BinaryFormat.AppendCounted` | src/raman.rs:336-349 | the writing loop appends exactly the counted list |
| `BinaryFormat.TakeCounted` | src/raman.rs:423-450 | the reading loop reads exactly the counted list, or stops at the first item that fails |
| `RamanArtifact.EncodeArtifact` | src/raman.rs:328-389 | the encoder writes the specified layout |
| `FileLayout.ArtifactIs` | src/raman.rs:328-389 | the bytes of an artifact, stated on their own, list by list and field by field |
| `RamanArtifact.ParseArtifact` | src/raman.rs:391-512 | the parser computes the specified artifact or error, validation included |
| `RamanArtifact.ValidIff` | src/raman.rs:514-566 | an artifact is valid exactly if it states the one version and runtime, has text, rules as many as it says, indexed fields, and executable and device rules as many where it has any, the latter under the one ABI version |
| `RamanArtifact.ComplaintIs` | src/raman.rs:514-566 | which complaint is made, and that it is the first that applies |
| `FileLayout.ArtifactRefused` | src/raman.rs:391-399 | a file of less than eight bytes ends too soon, and one without the eight letters of the tag is refused |
| `RamanArtifact.ParseUndoesEncode` | src/raman.rs:328-512 | parsing an encoded artifact, with any bytes behind it, gives the artifact if it is valid and its validation error otherwise |
| `RamanArtifact.PrefixRejected` | src/raman.rs:391-512 | every proper prefix hits the end of the file, except the cut where the device ABI starts, which parses to the artifact without device rules |
| `RamanArtifact.WithoutDeviceAbiValid` | src/raman.rs:514-566 | dropping the device ABI never invalidates an artifact |
| `RamanArtifact.EncodeInjective` | src/raman.rs:328-389 | two artifacts with one encoding are the same artifact |
| `MirrorExecutor.FoldIsSearch` | src/raman.rs:724-776 | the one pass succeeds exactly when every slot's own search comes to something readable, and then every slot holds what its search in rule order finds |
| `MirrorExecutor.FreshIsSearch` | src/raman.rs:704-811 | a fresh decision holds slot by slot what independent searches over the matching rules find; a failed one leaves the state alone |
| `RamanActions.FreshSucceedsIff` | src/raman.rs:724-776 | with the program's own readers a fresh decision succeeds if and only if the first matching ris, verify, hold and cooldown actions state the keys and numbers they need and the first profile other than the planner's is readable |
| `RamanActions.StatesIff` | src/raman.rs:743-773 | which keys and numbers make each kind of action readable |
| `MirrorExecutor.Executor.Execute` | src/raman.rs:682-811 | the call computes the specified answer and the specified new window; and, stated outright, a fresh decision answers the guard's fallback if its metric is below its minimum, whatever the transport, else the transport's priority, else the default, and reports the window it opens |
| `MirrorExecutor.FreshAnswers` | src/raman.rs:778-811 | every fresh decision: the guard's fallback exactly when there is a guard whose metric is below its minimum, else the transport's priority if there is one, else the default; and hold before cooldown, with their ticks |
| `MirrorExecutor.NoneMatch` | src/raman.rs:704-811 | with no matching rule the decision is the planned profile, the default priority and no window |
| `MirrorExecutor.MatchingIs` | src/raman.rs:724-730 | a rule counts exactly if all its predicates hold, and in its place |
| `RamanActions.ReadsIts` | src/raman.rs:1054-1075 | each kind of action reads its own keys |
| `RamanActions.TransportReads` | src/raman.rs:738-742 | a transport action answers the first value under its key priority |
| `RamanActions.FaultIs` | src/raman.rs:1054-1075 | which missing key or malformed number an unreadable action is reported for: the first in the order they are read |
| `RamanActions.FirstValue` | src/raman.rs:1044-1052 | a key stated twice counts with its first value |
| `MirrorExecutor.WindowsHaveTicks` | src/raman.rs:688-703 | in every reachable state a stored window has ticks left |
| `MirrorExecutor.WindowLasts` | src/raman.rs:688-703 | once a window of n ticks is open, its stream's next n calls return the remembered decision, whatever contexts and other streams' calls come between, unless one of those opens a window; then none is left |
| `MirrorExecutor.FreshOpensWindow` | src/raman.rs:788-811 | a fresh decision with ticks to hold or cool down opens exactly that window |
| `MirrorExecutor.FailureKeepsState` | src/raman.rs:682-811 | a failed call leaves the state as it was |
| `RplText.ParseCompiled` | src/raman.rs:837-870 | the line loop computes the specified rules in the specified order, or the first error |
| `RplLines.OperatorReads` | src/raman.rs:877-894 | each of >=, <=, ==, > and <, between a field and a value free of those characters, is taken for exactly that operator |
| `RplLines.ConditionsRead` | src/raman.rs:877-894 | conditions joined by and are read in their order, each with its own field, operator and value, quotes of either kind taken off |
| `RplLines.ActionReads` | src/raman.rs:896-923 | an action is read with its kind, one of the seven or any other, and its settings in their order |
| `RplLines.LineReadsAs` | src/raman.rs:837-923 | a whole line is read as the rule it states: its priority, or 100 if it states none, its conditions, its action and its settings |
| `RplLines.FaultIs` | src/raman.rs:837-870 | which error a line gets that is not written so |
| `RplText.CompiledRules` | src/raman.rs:837-870 | compiled rules are in key order, each carries its line number and a 32-bit priority, and none is lost or added |
| `RplText.SortMeantIff` | src/raman.rs:868 | sorting by negated 32-bit priority agrees with highest priority first on a pair exactly when the least 32-bit integer is not on one side only |
| `RplText.AsMeantIff` | src/raman.rs:837-870 | compiled text comes out highest priority first, then earliest line, if and only if it does not state the least 32-bit priority beside a higher one |
| `RplLines.LeastPriorityFirst` | src/raman.rs:837-870 | for every higher priority, and whatever conditions and action the lines state: a text of two lines whose second states the least priority has it sorted first |
| `RplText.SearchPicksBest` | src/raman.rs:837-870 | on compiled text each slot is filled from the line of highest priority, and among those the earliest, that has an answer for it, unless the text states the least 32-bit priority beside a higher one |
| `CoreExecutor.ScanBest` | raman-core/src/lib.rs:150-175 | the scan finds the matching rule nothing beats and nothing earlier ties with, if any rule matches |
| `CoreExecutor.OperatorsCompare` | raman-core/src/lib.rs:218-225 | which of the six operators hold is read off the sign of the difference between field and value |
| `CoreExecutor.AllPredicates` | raman-core/src/lib.rs:188-196 | a rule matches exactly if every one of its predicates does |
| `CoreExecutor.FieldsAre` | raman-core/src/lib.rs:198-217 | each of the twelve fields is its own measurement of the context |
| `CoreExecutor.ScanDecides` | raman-core/src/lib.rs:150-186 | a call that scans answers the action of a matching rule of the highest priority, in that of the least order, and of the first such; nothing exactly if none matches; and its counters start from that action |
| `CoreExecutor.HoldsFirst` | raman-core/src/lib.rs:126-149 | a remembered action is replayed for its hold ticks first and for its cooldown ticks after them, one tick a call |
| `CoreExecutor.Executor.Run` | raman-core/src/lib.rs:120-186 | one call computes the specified decision and state |
| `CoreExecutor.CountersHaveActions` | raman-core/src/lib.rs:120-186 | in every state reachable from the default a positive counter has an action to replay |
| `CoreExecutor.ReplaysForTicks` | raman-core/src/lib.rs:120-150 | from a state with t ticks each of the next t calls replays the action, whatever the contexts, and uses one tick |
| `CoreExecutor.FreshDecisionLastsExactly` | raman-core/src/lib.rs:120-186 | a fresh decision with hold h and cooldown c is replayed on exactly the next h + c calls, and the call after them scans again |
| `CoreExecutor.NoMatchRestoresDefault` | raman-core/src/lib.rs:176-186 | a scan without a match leaves exactly the default state |
| `BigEndian.StripZeros` | src/bin/hft_web3_bench.rs:763-766 | dropping leading zeros leaves the minimal bytes of the same number |
| `BigEndian.MinimalIff` | src/bin/hft_web3_bench.rs:763-766 | the minimal byte strings are exactly those without leading zeros |
| `BigEndian.FixedSameIff` | src/bin/hft_web3_bench.rs:675-732 | two numbers share their low n bytes if and only if they agree modulo 256^n |
| `Rlp.RlpUint` | src/bin/hft_web3_bench.rs:759-768 | a number is written as the string of its minimal bytes, zero as the empty string |
| `Rlp.RlpBytes` | src/bin/hft_web3_bench.rs:779-795 | a string is written as the specification says, single bytes and long strings included |
| `Rlp.StringIs` | src/bin/hft_web3_bench.rs:779-826 | the bytes of a string: itself below 0x80, a prefix counted from 0x80 up to 55 bytes, and from 0xB7 with its big-endian length above |
| `Rlp.RlpList` | src/bin/hft_web3_bench.rs:797-815 | a list is written as its length prefix and its items |
| `Rlp.ListIs` | src/bin/hft_web3_bench.rs:797-826 | the bytes of a list: a prefix counted from 0xC0 up to 55 bytes, and from 0xF7 with its big-endian length above |
| `Rlp.RlpTrimmed` | src/bin/hft_web3_bench.rs:770-777 | a trimmed scalar is its minimal bytes, except that zeros leave one zero byte |
| `Rlp.LengthBytes` | src/bin/hft_web3_bench.rs:817-826 | a length is written in its minimal bytes, zero as one zero byte |
| `Rlp.DecodeEncode` | src/bin/hft_web3_bench.rs:759-826 | decoding recovers any nested item from its encoding, whatever bytes follow |
| `Rlp.UniquelyDecodable` | src/bin/hft_web3_bench.rs:759-826 | no encoding is a prefix of another: a stream splits into items in one way only |
| `LegacyTx.EncodeUnsignedFast` | src/bin/hft_web3_bench.rs:675-732 | the buffer ends up holding the specified 54 bytes |
| `LegacyTx.PreimageIs` | src/bin/hft_web3_bench.rs:675-732 | the 54 bytes one by one: the digits of the nonce, the gas price 1 000 000 000, the gas limit 220 000, the receiver, the payload and the chain 8453 |
| `LegacyTx.EncodeSigned` | src/bin/hft_web3_bench.rs:734-757 | the signed transaction is the RLP of its nine fields |
| `LegacyTx.SignedAre` | src/bin/hft_web3_bench.rs:734-757 | the nine fields in their order, each a big-endian number without leading zeros, or the string it was given; the signature scalars keep their value |
| `LegacyTx.FastIsGenericIff` | src/bin/hft_web3_bench.rs:675-732 | the hand-laid preimage equals generic RLP of the nine EIP-155 fields if and only if 2^16 <= nonce < 2^24 |
| `LegacyTx.FastSameIff` | src/bin/hft_web3_bench.rs:675-732 | two hand-laid preimages coincide if and only if everything but the nonce is equal and the nonces agree in their low 24 bits |
| `LegacyTx.SignedReadsBack` | src/bin/hft_web3_bench.rs:734-757 | decoding a signed transaction gives exactly the fields that went in |
| `LegacyTx.TrimmedCanonicalIff` | src/bin/hft_web3_bench.rs:770-777 | a signature scalar is written as the canonical integer if and only if it is not zero |
| `Calendar.UnixToYmd` | src/bin/gplc_rt.rs:232-276 | the loops find the valid date and time that make up the timestamp, and the date is the closed form's |
| `Calendar.DateUnique` | src/bin/gplc_rt.rs:239-275 | two dates from 1970 on with one day number are the same date |
| `Calendar.ClosedFormCorrect` | src/bin/hft_web3_bench.rs:1122-1132 | the closed form names a valid Gregorian date with the day number it was given, for every day from 1970 on |
| `Calendar.ClosedFormInverts` | src/bin/hft_web3_bench.rs:1122-1132 | the closed form gives every date from 1970 on back from its day number: dates and day numbers are in bijection |
| `Calendar.YearOfEraIs` | src/bin/hft_web3_bench.rs:1126 | the rounding corrections find the year of the 400-year era exactly |
| `Crc32.Checksum` | src/bin/radnet_tools.rs:1138-1148 | the bit loop computes the CRC register; which CRC that is, is `CrcIdentity.GeneratorInvisible` and `CheckValue` |
| `CrcIdentity.GeneratorInvisible` | src/bin/radnet_tools.rs:1138-1148 | the error pattern made of the 33 bits of the generator of section 8 of RFC 1952 goes unseen |
| `CrcIdentity.CheckValue` | src/bin/radnet_tools.rs:1138-1148 | the CRC of the nine bytes 123456789 is 0xCBF43926: the start value, the direction of the bits and the final complement |
| `Crc32.Crc32IsLawful` | src/bin/radnet_tools.rs:1138-1148 | the register step is linear over exclusive or and can be undone |
| `LinearRegister.RegisterLinear` | src/bin/radnet_tools.rs:1138-1148 | the register is linear in its start and its input together |
| `LinearRegister.OnlyTheMiddleMatters` | src/bin/radnet_tools.rs:1138-1148 | an error pattern that is zero outside its middle is missed exactly when the middle alone is |
| `Crc32.UndetectedIff` | src/bin/radnet_tools.rs:1138-1148 | two inputs of one length share a CRC if and only if their difference drives a zero register back to zero |
| `Crc32.FourByteErrorVisible` | src/bin/radnet_tools.rs:1138-1148 | no non-zero pattern of four bytes does that |
| `Crc32.BurstDetected` | src/bin/radnet_tools.rs:1138-1148 | two inputs that differ only within four consecutive bytes share a CRC if and only if they are equal |
| `BankImage.ValidateLayout` | src/bin/radnet_tools.rs:1114-1136 | the layout check succeeds if and only if no listed sector shares an address with the bank |
| `BankImage.LayoutIsSafe` | src/bin/radnet_tools.rs:10-20 | the bank stays clear of every protected sector |
| `BankImage.EndangeredIff` | src/bin/radnet_tools.rs:10-20 | a sector is endangered exactly if its 4096 bytes reach into the addresses from 0x1F0000 to 0x3EFFFF |
| `BankImage.BuildBankImage` | src/bin/radnet_tools.rs:1052-1070 | building fails exactly for payloads that are too large, and otherwise fills the specified image |
| `BankImage.ImageIs` | src/bin/radnet_tools.rs:1052-1070 | the two megabytes of an image: the tag BNRL and version 1, the length, CRC and creation time of the payload, the payload at byte 4096, and zeros everywhere else |
| `BankImage.ParseBankImage` | src/bin/radnet_tools.rs:1072-1112 | parsing computes the specified bank or the specified error |
| `BankImage.ParsesIff` | src/bin/radnet_tools.rs:1072-1112 | an image parses exactly if it has the size, the tag, the version, a length that fits and the CRC of the payload it cuts out, and that payload is the result |
| `BankImage.RefusalIs` | src/bin/radnet_tools.rs:1072-1112 | which error an image gets that does not parse |
| `BankImage.ParseUndoesBuild` | src/bin/radnet_tools.rs:1052-1112 | parsing undoes building |
| `BankImage.CorruptionDecided` | src/bin/radnet_tools.rs:1072-1112 | whatever else of an image is overwritten, with its header words intact it parses exactly when the payload's error pattern is invisible to the CRC |
| `BankImage.BurstRejected` | src/bin/radnet_tools.rs:1072-1112 | a payload altered only within four consecutive bytes is always rejected |
| `BankImage.CreationTimeUnprotected` | src/bin/radnet_tools.rs:1072-1112 | any other creation time parses with the same payload |
| `HopPlan.HopsArePermutation` | src/channel_ensemble.rs:88-110 | for every seed the hop sequence is a permutation of the 125 channels |
| `HopPlan.LastHops` | src/channel_ensemble.rs:95-104 | the last two channels of a plan, from the seed alone: the first draw modulo 125 and the second modulo 124 among what is left |
| `HopPlan.SlotIsDrawn` | src/channel_ensemble.rs:97-103 | each slot gets what stands in the slot its draw names, and keeps it |
| `HopPlan.GeneratorIs` | src/channel_ensemble.rs:98-101 | the generator of the draws: its value at zero, and that each next value is 0x4C957F2D more, modulo 2^32 |
| `HopPlan.Plan.constructor` | src/channel_ensemble.rs:88-110 | the in-place shuffle computes the specified hop sequence of the seed |
| `HopPlan.Plan.NextChannel` | src/channel_ensemble.rs:113-121 | a call returns the channel at the current position with its frequency and steps on cyclically |
| `HopPlan.FullSweep` | src/channel_ensemble.rs:113-121 | from any position 125 consecutive calls visit every channel, with pairwise distinct frequencies between 863 and 870 MHz |
| `PacketRing.Ring.Push` | src/drivers/sx1276.rs:92-104 | a push takes the ring to the state of one more push of the history |
| `PacketRing.RingIsLastPushes` | src/drivers/sx1276.rs:92-104 | after any run of pushes the ring read from the overwrite position is exactly the last pushes in order |
| `PacketRing.DropsCounted` | src/drivers/sx1276.rs:92-104 | one drop is counted for every push the ring no longer holds, until the counter saturates |
| `AnomalyDetector.Detector.Update` | src/blockchain/raman_anomaly.rs:35-84 | the score is the median/MAD formula on the last 128 samples of the whole history |
| `AnomalyDetector.ScoreIs` | src/blockchain/raman_anomaly.rs:35-84 | the score by ranks, without a sort: the middle sample or half the 64-bit sum of the two, the middle distance from it times 1.4826, and an alarm exactly beyond three of those or, with a spread below one, off the median |
| `AnomalyDetector.WarmingUp` | src/blockchain/raman_anomaly.rs:35-50 | below eight samples nothing is flagged, and the window is the last 128 samples |
| `AnomalyDetector.OrderDoesNotMatter` | src/blockchain/raman_anomaly.rs:35-84 | the score depends on the samples of the window, not on their order |
| `AnomalyDetector.ShiftInvariant` | src/blockchain/raman_anomaly.rs:35-84 | raising every sample by one amount changes no score, as long as the even median's 64-bit sum does not wrap |
| `AnomalyDetector.MedianBetweenIff` | src/blockchain/raman_anomaly.rs:52-56 | the even median lies between the two middle samples if and only if their 64-bit sum does not wrap |
| `AnomalyDetector.ConstantWindowIsQuiet` | src/blockchain/raman_anomaly.rs:35-84 | a window of one repeated value never raises an alarm for that value, and scores it zero if and only if it is warming up or odd, or the value is below 2^63 |
| `SortedReals.SortIgnoresOrder` | src/blockchain/raman_anomaly.rs:48-62 | sorting gives one result for all orders of the same samples |
| `SortedReals.RankedIff` | src/blockchain/raman_anomaly.rs:48-62 | a value stands at a position after sorting exactly if that many samples, and no more, are smaller |
| `ReplayWindow.DecodeUndoesEncode` | src/packet.rs:43-64 | decoding a frame under its session gives the payload back |
| `ReplayWindow.DecodesIff` | src/packet.rs:58-64 | a frame gives a payload exactly if its tag is the session's for its nonce and word, and then the word without its mask; otherwise the tag is reported |
| `ReplayWindow.AlteredRefused` | src/packet.rs:43-64 | a frame whose word was altered is refused, unless the session gives both words one tag |
| `ReplayWindow.TakesIff` | src/packet.rs:68-84 | a window takes a frame exactly if its nonce lies between the expected one and the bound, which may wrap, and its tag is right; which of the two other verdicts it gets otherwise |
| `ReplayWindow.Window.AcceptFrame` | src/packet.rs:68-84 | the verdict on a frame, and the window after it |
| `ReplayWindow.Window.Resync` | src/packet.rs:87-101 | when a resync succeeds, which error it reports otherwise, and that the window moves only on success |
| `ReplayWindow.AcceptedNoncesIncrease` | src/packet.rs:68-84 | between resyncs accepted nonces never fall, and rise strictly if and only if the earlier one is not the largest 32-bit value |
| `ReplayWindow.LastNonceReplays` | src/packet.rs:81-83 | at the largest nonce an exact replay is accepted |
| `ReplayWindow.NextFrameAcceptedIff` | src/packet.rs:77-79 | a well-formed next frame is accepted if and only if the window's 32-bit bound does not wrap |

## Left out

- Floats: the solver and the detector compute over `real`, so rounding is not modelled; elsewhere floats are opaque bytes with uninterpreted comparisons.
- IsingBuild.Neighbours: there are at least two sites; with one site the program pairs it with itself.
- IsingBuild: the random numbers of `build_problem` are free inputs, and so is what the unstable sort makes of a row, as long as it is sorted by column.
- IsingState: packed words are lists of 64 bits rather than machine words; the temperature schedule and the random numbers of a run are free inputs, and autotuning is not modelled.
- HMAC, Keccak, SHA-256, BLAKE2 and secp256k1 are parameters; nothing is proved about them.
- CardSaga: amounts are non-negative and deposits add up to at most 2^63 - 1, because the program adds them as signed 64-bit words without a check; how an amount is priced, the signature pool and the event times are not modelled.
- CardSaga: one account slot is modelled; that all calls for an account get the same slot is `SlotTable.OneSlotPerTag`.
- SlotTable: the table starts empty and tags are non-zero, as `account_tag` makes them; the hash of an account id is not modelled.
- SwapLedger: a write-ahead log that cannot be opened or written, and a logger that dies early, are not modelled; `route_via_optimal_avatar` is left out, a counter modulo a list length.
- IngressSession: sockets, timeouts and the status bytes' transport are left out; the swap outcome is a parameter that `SwapLedger` models.
- GplText, GplRoundTrip and RuleIr: JSON is taken as the identity, and file access, `mutate_gpl_by_metrics`, `typecheck_gpl` and the token count of the debug output are left out.
- StableSort: `sort_by` and `sort_by_key` of the standard library are modelled as a stable insertion sort, of which order, content and stability are proved.
- RuleRunner: how a context prints its fields is a parameter, and reading the mapping file is left out.
- RamanArtifact: the JSON form, and the counts that validation returns beside its verdict, are left out; whether a text is blank is a parameter.
- MirrorExecutor and RamanActions: predicate matching, number parsing and the radio profile of a `phy` action are parameters.
- Gbc2: the rule count is assumed below 2^32, since the file keeps only its low 32 bits; `decision_to_bin` is left out, as nothing reads it back.
- AnomalyDetector: the sorts of the standard library are modelled by their result; the even median's 64-bit sum may wrap, as in a release build.
- HopPlan: only `FullBandHopPlan`; the other channel plans are cyclic counters of the same kind.
- LegacyTx: slices are at most 2^63 - 1 bytes long, as Rust guarantees; signing itself is not modelled.
- `src/bin/gplc_rt.rs` repeats the rule compiler and an evaluator of its own; only its calendar is modelled.
- `src/kernel.rs`, `src/phy.rs`, `src/power.rs`, `src/assurance.rs`, `src/portability.rs` and `src/sim.rs`: finite case tables and metrics, which would only add easy members.
- Networking, HTTP and gRPC transport, the database client, file access, the FFI layer, hardware access, scripts and the frontend.
