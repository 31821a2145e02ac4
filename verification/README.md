# Tage: a verified model

A Dafny model of the logic of Tage, a Bitcoin layer-2 written in Rust: its
256-bit arithmetic and virtual machine, its lending pool, its BitVM bisection
bridge, its covenant commitments and its validator registry. Check everything
with `dafny verify dfyconfig.toml`.

| files | what they model |
|---|---|
| `Wrappers`, `Arith`, `Bytes`, `MapSum` | options and results, floor division, byte encodings and orders, sums over maps |
| `U256`, `Division` | `src/types.rs`: carry chains, schoolbook product, bit-serial division, each proved against integers modulo 2^256 |
| `Machine`, `StateRoot`, `VM` | `src/execution/`: a reference machine on integers, its run properties, what the state root binds, and the byte-array VM proved to make the same steps |
| `PoolModel`, `PoolTheorems`, `PoolRuns`, `PoolHistories`, `LendingPool` | `src/yield_engine/lending_pool.rs`: the pool's steps on values, their properties over one call and over histories, and the mutable pool proved to make those steps |
| `Bisection`, `BridgeManager` | `src/bridge/bitvm_bridge.rs`: the dispute game, fraud proofs, claims |
| `Encoding`, `Ctv`, `Taproot`, `PegIn` | `src/utils/hash.rs`, `src/covenant/`, `src/bridge/peg_in.rs`: serialisations with exact decoders, and what each hash binds |
| `Validators`, `Rewards`, `RegistryRuns` | `src/staking/`: the registry, fair distribution, the epoch counter, histories |

SHA-256 is a parameter `sha`, an arbitrary total function from byte strings to
32 bytes. Binding theorems say "the fields agree, or two different strings that
were hashed have one hash"; the strings are named, so the theorem assumes
nothing about `sha`. Iteration over a hash map is an arbitrary choice of the
next key; results are proved not to depend on it, but for the state root. Heights and satoshi
amounts of the pool and the registry are unbounded naturals.

## Where the code and its documentation differ

The model follows the code.

- The pool's documentation says its exchange rate never decreases.
  `PoolTheorems.RateFallsIff` proves the one exception: the last outstanding
  shares of an appreciated pool are redeemed; `PoolHistories.RateFalls` is a
  history that ends so. The comment that the rate starts at 1,000,000,000 is
  also off; it starts at 1,000,000.
- The exchange rate is documented as total deposits over total shares. It is
  floored, so redeeming the last shares can leave satoshis that belong to no
  share, and the next depositor gets them: in
  `PoolHistories.StrandedSatsGoToNextDepositor` 1 sat is redeemed for 501.
  `PoolRuns.StrandsIff` says exactly when this happens.
- Withdrawals are documented to be limited to liquid BTC. Interest enters the
  deposits when it accrues and again when it is paid; `PoolRuns.EveryRun` gives
  the gap between the limit and the cash held, `PoolRuns.OverdrawsIff` exactly
  which calls fall into it, and `PoolHistories.PayoutBeyondCash` one that does.
- The fraud proof's documentation lists a Merkle inclusion check. The code
  folds the path and compares the result with nothing; `Bisection.Verify`
  proves that only the re-executed step decides, and
  `Bisection.ConvictsHonestIff` that any untrue pre-state or operation convicts
  an honest operator.
- A claim is documented to be final when no dispute succeeded.
  `finalise_expired_claims` looks at heights only; `BridgeManager.FinalIff`
  gives the exact condition, and `BridgeManager.FinalWhileDisputed` a claim that
  is final while its dispute is open.
- The state root is documented as that of a Merkle trie. It is a hash of the
  entries in the hash map's order; `StateRoot.OrderShowsIff` proves that the
  storage determines the hashed bytes only while it has at most one slot.
- `U256::to_bytes_be` is documented to convert to big-endian. The array is
  big-endian already, so its reversal is little-endian
  (`U256.ToBytesBEIsLittleEndian`), and so are the numbers in the state root.
- The peg-in fees are documented to be deducted from the deposit.
  `PegIn.FeesIff` proves that the sequencer path deducts its fee exactly when
  the deposit covers it.
- A Taproot leaf has a version field, but the leaf hash always uses `0xc0`, so
  leaves are compared by script.
- Collateral is documented as 150%. The requirement is floored, so
  `PoolTheorems.BorrowAcceptedIff` allows half a satoshi less.

## Model

| member | source | states |
|---|---|---|
| Bytes.LexIsNumeric | src/types.rs:241 | the derived lexicographic order on equally long byte arrays is numeric order |
| U256.AsU64Value | src/types.rs:261-272 | narrowing a word keeps its value modulo 2^64 |
| U256.FromU64Value | src/types.rs:255-265 | widening is exact and narrowing undoes it |
| U256.ToLimbs | src/types.rs:286-295 | the loop yields the four big-endian 64-bit groups, least significant first |
| U256.FromLimbs | src/types.rs:297-304 | the loop writes the joined bytes of the limbs |
| U256.LimbsValue | src/types.rs:286-295 | the limbs of a word denote the number the word denotes |
| U256.LimbsOfWordOf | src/types.rs:286-304 | splitting joined limbs gives the limbs back |
| U256.WordOfLimbsOf | src/types.rs:286-304 | joining split limbs gives the word back |
| U256.ToBytesBEIsLittleEndian | src/types.rs:274-278 | the method returns the little-endian encoding of the number |
| U256.Add | src/types.rs:322-337 | the carry chain is addition modulo 2^256 |
| U256.Sub | src/types.rs:339-354 | the borrow chain is subtraction modulo 2^256 |
| U256.MultiplyAccumulate | src/types.rs:366-368 | a limb product plus cell plus carry is exact in 128 bits |
| U256.MulRow | src/types.rs:363-372 | one row of the product adds `x*b` shifted by i limbs, minus what leaves the top |
| U256.Mul | src/types.rs:356-375 | the truncated schoolbook product is multiplication modulo 2^256 |
| Division.Shl1 | src/types.rs:306-312 | the byte-wise shift doubles modulo 2^256 and clears the low bit |
| Division.GetBitValue | src/types.rs:314-316 | the tested bit is the binary digit of the word's value |
| Division.SetBit | src/types.rs:318-320 | setting a bit adds its weight unless it was set already |
| Division.NextPrefix | src/types.rs:384-389 | the doubled remainder plus one stays below 2^256, so the shift drops no bit |
| Division.DivisionStep | src/types.rs:384-395 | one turn extends quotient and remainder from one dividend prefix to the next, and the quotient bit was clear |
| Division.DivideBit | src/types.rs:384-395 | the loop body keeps remainder and quotient those of the dividend's prefix |
| Division.Div | src/types.rs:377-398 | the bit-serial division is the exact floor quotient, and zero for a zero divisor |
| Machine.FromU8Iff | src/execution/vm.rs:45-62 | the byte of every instruction and of none, and PUSH pushes only zero |
| Machine.AdvancesByOne | src/execution/vm.rs:109-113 | a step moves the counter to the next byte, but for the two jumps |
| Machine.RunKeeps | src/execution/vm.rs:108-131 | over any run words stay below 2^256, the program counter stays within the code, other contracts' storage and memory are untouched |
| Machine.NoReturnData | src/execution/vm.rs:211-221 | a VM, whose memory starts empty, never returns data |
| Machine.RunCompose | src/execution/vm.rs:108-131 | a halted run ignores further fuel and an interrupted one resumes exactly, so fuel is only a time limit |
| Machine.RunNonInterference | src/execution/vm.rs:174-186 | a run depends on no other contract's storage |
| Machine.ZeroRun | src/execution/vm.rs:45-62 | code with neither CHECKSIG nor HASH256 keeps an all-zero stack and storage all zero over any run, because PUSH pushes only zero |
| Machine.RunDiverges | src/execution/vm.rs:108-131 | the two-byte program PUSH, JUMP never halts |
| Machine.SubProgram | src/execution/vm.rs:140-145 | the run of PUSH, CHECKSIG, SUB ends with 1: the top word less the second |
| Machine.DivProgram | src/execution/vm.rs:154-162 | the run of PUSH, CHECKSIG, DIV fails: the second word is the divisor |
| Machine.StoreProgram | src/execution/vm.rs:181-186 | the run of PUSH, CHECKSIG, SSTORE stores 0 in slot 1: the slot is on top |
| Machine.BranchProgram | src/execution/vm.rs:198-209 | the run of PUSH, CHECKSIG, JUMPI does not jump: the condition is below |
| VM.NumericLoad | src/execution/state.rs:73-78 | reading the numeric storage is reading the word storage, absent slots being zero |
| VM.NumericStore | src/execution/state.rs:81-84 | writing a word slot writes exactly that numeric slot |
| VM.StateTrie.Get | src/execution/state.rs:73-78 | a slot reads as its numeric value, or zero |
| VM.StateTrie.Set | src/execution/state.rs:81-84 | a write replaces one numeric slot and no other, and the root then belongs to the new storage |
| VM.StateTrie.UpdateRoot | src/execution/state.rs:87-96 | whatever order the map is visited in, the root is the hash of the hash of 84 bytes a slot: address, slot and value, the numbers little-endian |
| StateRoot.ListingExact | src/execution/state.rs:90-94 | where address, slot and value of each entry sit in the hashed bytes |
| StateRoot.ListingInjective | src/execution/state.rs:87-95 | the hashed listing determines its order and what the slots hold |
| StateRoot.RootBinds | src/execution/state.rs:87-96 | two roots agree exactly when storage and visiting order agree, up to named hash collisions |
| StateRoot.OrderShowsIff | src/execution/state.rs:87-96 | the storage alone determines the hashed listing exactly when it has at most one slot |
| VM.VM.constructor | src/execution/vm.rs:90-105 | a new machine starts at zero with empty stack, memory and return data |
| VM.VM.Pop | src/execution/vm.rs:164-167 | takes the last word off the stack and returns it, or reports underflow |
| VM.VM.JumpTo | src/execution/vm.rs:190-194 | moves the counter to the word modulo 2^64, or reports a destination outside the code |
| VM.VM.OpAdd | src/execution/vm.rs:133-138 | the top two words become their sum modulo 2^256, the rest stays; an underflow empties the stack; it is the ADD step |
| VM.VM.OpSub | src/execution/vm.rs:140-145 | the top two words become the top less the second modulo 2^256, the rest stays; an underflow empties the stack; it is the SUB step |
| VM.VM.OpMul | src/execution/vm.rs:147-152 | the top two words become their product modulo 2^256, the rest stays; an underflow empties the stack; it is the MUL step |
| VM.VM.OpDiv | src/execution/vm.rs:154-162 | the top two words become the floor of the top over the second, or an error if that is zero; it is the DIV step |
| VM.VM.OpPop | src/execution/vm.rs:164-167 | the top word goes, the rest stays; an underflow empties the stack; it is the POP step |
| VM.VM.OpPush | src/execution/vm.rs:169-172 | the constant goes on top; it is the PUSH step |
| VM.VM.OpSload | src/execution/vm.rs:174-179 | the top word becomes what the contract's own slot of that number holds, or zero; it is the SLOAD step |
| VM.VM.OpSstore | src/execution/vm.rs:181-186 | the slot on top of the stack takes the word below it, both go, no other slot changes; it is the SSTORE step |
| VM.VM.OpJump | src/execution/vm.rs:188-196 | the counter moves to the top word modulo 2^64 if that lies in the code, else an error names it; it is the JUMP step |
| VM.VM.OpJumpi | src/execution/vm.rs:198-209 | as JUMP when the word below is nonzero, else the counter stays; it is the JUMPI step |
| VM.VM.OpReturn | src/execution/vm.rs:211-221 | offset on top and size below, modulo 2^64: the overflow panic, the bounds error, or those bytes of memory; it is the RETURN step |
| VM.VM.OpChecksig | src/execution/vm.rs:223-231 | a word of value one goes on top; it is the CHECKSIG step |
| VM.VM.OpHash256 | src/execution/vm.rs:233-238 | the top word becomes the hash of the hash of its bytes; it is the HASH256 step |
| VM.VM.Dispatch | src/execution/vm.rs:113-128 | every opcode byte makes the reference machine's step, unknown bytes its error |
| VM.VM.FetchAndExecute | src/execution/vm.rs:109-128 | one turn of the loop is one step of the reference machine; all but jumps move on by one byte |
| VM.VM.Execute | src/execution/vm.rs:108-131 | a run of the byte-array VM is the run of the integer machine: same counter, stack, storage and outcome; the counter stays within the code, only the contract's own storage changes, and a root that belonged to the storage still does |
| MapSum.SumRemove | src/yield_engine/lending_pool.rs:395-404 | a total over a hash map does not depend on which entry is taken first |
| PoolTheorems.RateFacts | src/yield_engine/lending_pool.rs:190-196 | the rate is at least 10^6 and never overstates what shares are backed by, so `deposit` never divides by zero |
| PoolTheorems.ExchangeRateExact | src/yield_engine/lending_pool.rs:190-196 | the rate is the floor of deposits times 10^6 over shares, and 10^6 without shares |
| PoolTheorems.ChargeExact | src/yield_engine/lending_pool.rs:395-404 | a position is charged its own principal times its own rate times the blocks since its last charge, over 10^4 * 52560, floored, and keeps the rest |
| PoolTheorems.DepositExact | src/yield_engine/lending_pool.rs:207-236 | a deposit enters whole and mints the floor of sats times 10^6 over the rate, to its depositor alone |
| PoolTheorems.WithdrawExact | src/yield_engine/lending_pool.rs:242-283 | the three refusals with what they report, and otherwise the floored price paid and the shares gone |
| PoolTheorems.BorrowExact | src/yield_engine/lending_pool.rs:295-336 | the two refusals with what they report, and otherwise a fresh position at the rate of the utilisation before the loan |
| PoolTheorems.ApplyKeepsInv | src/yield_engine/lending_pool.rs:207-409 | every call keeps: lender shares sum to the total, shares at most deposits, borrows at most deposits, open principals at most borrows |
| PoolTheorems.RepayExact | src/yield_engine/lending_pool.rs:354-371 | interest is paid first, neither subtraction saturates, and the debt falls by exactly the payment |
| PoolTheorems.RepayOutcome | src/yield_engine/lending_pool.rs:339-379 | what is paid, where it goes, and that rate, collateral and all other positions stay |
| PoolTheorems.BorrowAcceptedIff | src/yield_engine/lending_pool.rs:304-318 | a loan is granted exactly when collateral and liquidity suffice |
| PoolTheorems.WithdrawAcceptedIff | src/yield_engine/lending_pool.rs:250-274 | shares are redeemed exactly when owned and covered by unlent deposits |
| PoolTheorems.RateCurve | src/yield_engine/interest_rate.rs:40-53 | the two-slope rate rises from 50 through 500 to 10000 basis points |
| PoolTheorems.UtilisationExact | src/yield_engine/interest_rate.rs:32-37 | utilisation is the floored share lent out in basis points, at most 10000, zero without deposits |
| PoolTheorems.CurveExact | src/yield_engine/interest_rate.rs:40-53 | the rate lies within one basis point below the two straight lines |
| PoolTheorems.GentleSlopeIff | src/yield_engine/interest_rate.rs:31-53 | the rate lies between 50 and 10000 basis points, and is at most 500 exactly while floored utilisation is at most 80% |
| PoolTheorems.RateNeverFalls | src/yield_engine/lending_pool.rs:88-94 | while shares remain, no call lowers the exchange rate |
| PoolTheorems.RateFallsIff | src/yield_engine/lending_pool.rs:88-94 | the rate falls exactly when the owner of all shares of an appreciated pool redeems them and the pool has their price unlent, which can be told before the call |
| PoolTheorems.ClaimsCovered | src/yield_engine/lending_pool.rs:250-251 | all lenders' floored claims together are at most the deposits |
| PoolRuns.RunRateNeverFalls | src/yield_engine/lending_pool.rs:88-94 | over any run with shares outstanding the rate does not fall |
| PoolRuns.RunBalanced | src/yield_engine/lending_pool.rs:207-409 | over any run the books of deposits, borrows and interest balance |
| PoolRuns.EveryRun | src/yield_engine/lending_pool.rs:116-409 | every reachable pool is backed, covered and balanced; borrows exceed open principals by exactly the overwritten ones; deposits less borrows exceed the cash held by exactly the interest ever accrued; deposits exceed cash and open debt by exactly the interest booked twice and the debt overwritten |
| PoolRuns.OverdrawsIff | src/yield_engine/lending_pool.rs:266-336 | after any history a call leaves less than no cash exactly when what it takes, the loans out and all interest ever accrued exceed the deposits |
| PoolRuns.RefusalsOnlyAccrue | src/yield_engine/lending_pool.rs:242-379 | over any run refused calls leave no trace but their accrual, in the pool and in its books |
| PoolRuns.SyncedIff | src/yield_engine/lending_pool.rs:387-409 | a call keeps all positions in step with the pool exactly when its height does not go back, or it asks for no grantable loan and pays on no debt |
| PoolRuns.RunSynced | src/yield_engine/daemon.rs:107-119 | fed with non-decreasing heights, a pool stays in step with all of its positions |
| PoolRuns.SteppedInterest | src/yield_engine/lending_pool.rs:387-409 | n accruals charge at most the single accrual over the same span, and less than n sats below it |
| PoolRuns.RoundTrip | src/yield_engine/lending_pool.rs:207-283 | depositing and redeeming the minted shares at once: with other shares outstanding it pays at most rate/10^6 sats more and less than rate/10^6 + 1 sats less than the deposit; without them it pays all the pool holds, stranded sats included, up to two floors, and all of it exactly when the rate is not rounded; it is refused exactly when that much is not unlent |
| PoolRuns.StrandsIff | src/yield_engine/lending_pool.rs:242-283 | satoshis come to belong to no share exactly when the owner of all shares redeems them, their price is unlent and the rate is rounded; they stay so exactly until a positive deposit |
| PoolRuns.DrainsIff | src/yield_engine/lending_pool.rs:190-251 | all shares are worth exactly all deposits when deposits*10^6 is a multiple of the shares, and otherwise not |
| PoolHistories.StrandedSatsGoToNextDepositor | src/yield_engine/lending_pool.rs:207-283 | a history of four calls after which 500 sats belong to no share; the next depositor redeems 1 sat for 501 |
| PoolHistories.RateFalls | src/yield_engine/lending_pool.rs:88-94 | a history in which the rate falls from 1.01 to 1: a year's loan is repaid and the only lender leaves |
| PoolHistories.PayoutBeyondCash | src/yield_engine/lending_pool.rs:266-274 | a history in which a withdrawal pays out more than the pool holds, because unpaid interest counts as liquid |
| PoolHistories.SecondLoanBearsItsRate | src/yield_engine/lending_pool.rs:295-409 | a history in which a loan at 80% utilisation bears 500 basis points beside one at 50, and each is charged its own |
| LendingPool.LendingPool.constructor | src/yield_engine/lending_pool.rs:118-127 | a new pool is empty and satisfies the invariant |
| LendingPool.LendingPool.GetExchangeRate | src/yield_engine/lending_pool.rs:190-196 | the floor of deposits times 10^6 over shares, 10^6 without shares, never below 10^6 |
| LendingPool.LendingPool.GetBorrowRateBps | src/yield_engine/lending_pool.rs:134-142 | the quoted rate lies between 50 and 10000 basis points, and is at most 500 exactly while floored utilisation is at most 80% |
| LendingPool.LendingPool.AccrueInterest | src/yield_engine/lending_pool.rs:387-409 | accrual charges every position its own rate on its own principal for its own blocks, floored, credits the deposits with the total, and does nothing at an earlier height |
| LendingPool.LendingPool.AccruePositions | src/yield_engine/lending_pool.rs:393-404 | the loop has one outcome whatever the order: each position charged as `PoolTheorems.ChargeExact` says, and the sum returned |
| LendingPool.LendingPool.DepositSats | src/yield_engine/lending_pool.rs:207-236 | the object makes the deposit step and keeps the invariant |
| LendingPool.LendingPool.WithdrawShares | src/yield_engine/lending_pool.rs:242-283 | the object makes the withdrawal step, errors in the code's order, accrual kept on failure |
| LendingPool.LendingPool.BorrowSats | src/yield_engine/lending_pool.rs:295-336 | the object makes the borrow step |
| LendingPool.LendingPool.RepaySats | src/yield_engine/lending_pool.rs:339-379 | the object makes the repayment step |
| Bisection.BisectionState.constructor | src/bridge/bitvm_bridge.rs:147-155 | a game starts on the whole range with no rounds played |
| Bisection.BisectionState.IsResolved | src/bridge/bitvm_bridge.rs:184-186 | resolved means at most one step is left |
| Bisection.BisectionState.ChallengerAcceptsMid | src/bridge/bitvm_bridge.rs:167-172 | keeps the upper half, counts the round, errors past 32 |
| Bisection.BisectionState.ChallengerRejectsMid | src/bridge/bitvm_bridge.rs:176-181 | keeps the lower half, counts the round, errors past 32 |
| Bisection.PlayWidth | src/bridge/bitvm_bridge.rs:158-181 | after r rounds the width lies between floor and ceiling of N/2^r |
| Bisection.EndsSumFits | src/bridge/bitvm_bridge.rs:158-181 | the two ends a midpoint is taken of sum to at most 2N in every game, so the 64-bit sum is exact below 2^63 steps |
| Bisection.ExtremeStrategies | src/bridge/bitvm_bridge.rs:158-181 | both bounds are reached, by always rejecting and always accepting |
| Bisection.EveryStrategyResolvesIff | src/bridge/bitvm_bridge.rs:58-66 | every challenger finishes within 32 rounds exactly when N is at most 2^32 |
| Bisection.SomeStrategyResolvesIff | src/bridge/bitvm_bridge.rs:58-66 | some challenger finishes within 32 rounds exactly when N is below 2^33 |
| Bisection.Verify | src/bridge/bitvm_bridge.rs:243-277 | a fraud proof passes exactly when re-execution contradicts the claim |
| Bisection.TruthfulPlayKeeps | src/bridge/bitvm_bridge.rs:119-181 | an honest challenger keeps the traces agreeing at the low end and differing at the high end |
| Bisection.FraudIsCaught | src/bridge/bitvm_bridge.rs:119-258 | a wrong result of at most 2^32 steps is narrowed to one step whose fraud proof passes |
| Bisection.HonestOperatorIsSafe | src/bridge/bitvm_bridge.rs:243-258 | whatever answers isolated a step, the true pre-state and operation do not convict an honest operator |
| Bisection.ConvictsHonestIff | src/bridge/bitvm_bridge.rs:243-277 | at an isolated step a proof convicts an honest operator exactly when its pre-state and operation are not the true bytes, up to named hash collisions |
| BridgeManager.BitvmBridgeManager.constructor | src/bridge/bitvm_bridge.rs:297-299 | a new manager is the empty history: no claims, no disputes |
| BridgeManager.LastOpen | src/bridge/bitvm_bridge.rs:324-329 | the most recent open claim for an outpoint, or none |
| BridgeManager.BitvmBridgeManager.FindLastOpen | src/bridge/bitvm_bridge.rs:324-329 | the search from the back finds the last open claim |
| BridgeManager.BitvmBridgeManager.SubmitClaim | src/bridge/bitvm_bridge.rs:302-310 | makes the history's submission step: a new claim with a deadline 2016 blocks on, disputes kept |
| BridgeManager.BitvmBridgeManager.InitiateDispute | src/bridge/bitvm_bridge.rs:315-342 | unknown outpoint, expired window with its deadline, or a fresh game over the whole range on the most recent open claim; it is the history's dispute step |
| BridgeManager.BitvmBridgeManager.FinaliseExpiredClaims | src/bridge/bitvm_bridge.rs:347-356 | finalises exactly the open claims at or past their deadline, reports them, and leaves disputes alone; it is the history's sweep |
| BridgeManager.ReportedInOrder | src/bridge/bitvm_bridge.rs:347-356 | one report for each claim finalised, in claim order |
| BridgeManager.ReportedOnce | src/bridge/bitvm_bridge.rs:347-356 | over any history of submissions, disputes and sweeps every finalised claim is reported exactly once |
| BridgeManager.FinalIff | src/bridge/bitvm_bridge.rs:302-356 | in any history, disputes included, a claim is final exactly when a later sweep ran at least 2016 blocks after its publication |
| BridgeManager.DisputeAnswer | src/bridge/bitvm_bridge.rs:315-342 | after any history a dispute is granted exactly when the latest submission for the outpoint that no sweep has finalised is less than 2016 blocks old; if it is older the error names its deadline; if there is none the outpoint is unknown |
| BridgeManager.DisputeOpens | src/bridge/bitvm_bridge.rs:315-342 | a granted dispute opens a game over all steps on that submission's claim, a refused one changes nothing |
| BridgeManager.DisputeGrantedIff | src/bridge/bitvm_bridge.rs:302-356 | after any history and a sweep, a dispute is opened exactly when some submission for the outpoint is less than 2016 blocks old and no earlier sweep was past its deadline; otherwise the error is never an expired window |
| BridgeManager.DisputesDecideNothing | src/bridge/bitvm_bridge.rs:347-356 | a history without its disputes has the same claims and the same reports |
| BridgeManager.FinalWhileDisputed | src/bridge/bitvm_bridge.rs:302-356 | after any history, a claim disputed within its window is final and reported at +2016 blocks while its game is still open |
| BridgeManager.DisputesAreOnClaims | src/bridge/bitvm_bridge.rs:324-340 | over any history every open game is on a claim submitted for its outpoint, as it was before finalisation |
| BridgeManager.SweepIdempotent | src/bridge/bitvm_bridge.rs:347-356 | sweeping again at the same or an earlier height does nothing |
| Encoding.ReadCompactSizeIff | src/utils/hash.rs:254-270 | a string reads as n exactly when it starts with the code of n |
| Encoding.CompactSizePrefixFree | src/utils/hash.rs:254-270 | codes followed by anything determine the number and what follows |
| Encoding.CompactSizeExact | src/utils/hash.rs:254-270 | one byte up to 252, else 253, 254 or 255 and the value in 2, 4 or 8 little-endian bytes |
| Encoding.OutputExact | src/utils/hash.rs:232-238 | the value in eight little-endian bytes, then the script with its length |
| Encoding.OutputsConcat | src/utils/hash.rs:230-243 | outputs are written one after another in order |
| Encoding.ParseOutputIff | src/utils/hash.rs:232-238 | one output parses exactly from its serialisation |
| Encoding.ParseOutputsIff | src/utils/hash.rs:230-243 | the decoder accepts exactly the serialised output lists, without a count |
| Encoding.SequencesInjective | src/utils/hash.rs:216-225 | concatenated sequence numbers determine the list |
| Encoding.PreimageInjective | src/utils/hash.rs:182-203 | the template preimage determines all its fields |
| Encoding.PreimageLayout | src/utils/hash.rs:195-203 | the offset of every field in the 116 bytes |
| Encoding.TaggedMessageInjective | src/utils/hash.rs:83-95 | tagged messages determine the message and the hash of the tag |
| Encoding.TagsSpelled | src/utils/hash.rs:105-131 | the two tags are the ASCII of TapLeaf and TapBranch |
| Encoding.LeafMessageInjective | src/utils/hash.rs:105-111 | a leaf message determines the script |
| Encoding.PushCompactSize | src/utils/hash.rs:254-270 | appends the code and changes nothing else |
| Encoding.HashSequences | src/utils/hash.rs:216-225 | hashes four little-endian bytes a sequence number, in order |
| Encoding.AbsorbOutput | src/utils/hash.rs:232-238 | the loop body feeds the hasher exactly one serialised output |
| Encoding.HashOutputs | src/utils/hash.rs:230-243 | hashes the concatenated serialised outputs |
| Encoding.CtvTemplateHash | src/utils/hash.rs:182-210 | hashes the preimage, with 32 zero bytes for absent scriptSigs |
| Encoding.ComputeTaggedHash | src/utils/hash.rs:83-95 | the hash of the tag hash, the tag hash again and the message |
| Encoding.TapleafHash | src/utils/hash.rs:105-111 | the hash of the doubled tag hash, 0xc0, the length and the script |
| Encoding.TapbranchHash | src/utils/hash.rs:120-131 | the hash of the doubled tag hash and the two children, the numerically smaller first |
| Ctv.Hash | src/covenant/ctv.rs:109-132 | the hash of 116 bytes holding version, locktime, zeros, input count, hash of the sequences, output count, hash of the outputs and input index, in that order, numbers little-endian |
| Ctv.PreimageFields | src/covenant/ctv.rs:108-132 | which template field sits where in the 116 bytes |
| Ctv.HashBinds | src/covenant/ctv.rs:109-132 | equal hashes mean agreement on everything but the label, or a collision in one of three named pairs; and conversely |
| Ctv.VerifySequencerSpend | src/covenant/ctv.rs:211-221 | passes exactly when the template hashes agree: the committed spend and, collisions aside, nothing else |
| Ctv.VerifyUserExit | src/covenant/ctv.rs:229-253 | rejects before the timelock, then passes exactly when the template hashes agree: the committed exit and, collisions aside, nothing else |
| Bytes.SortedPairIff | src/utils/hash.rs:118-130 | sorting a pair forgets its order and nothing else |
| Taproot.ComputeMerkleRoot | src/covenant/taproot.rs:118-125 | the recursion through the hashing code: leaves and branches hashed as spelled out, the smaller child first |
| Taproot.EquivalentTreesAgree | src/covenant/taproot.rs:113-134 | swapping children changes neither root nor depth |
| Taproot.RootBinds | src/covenant/taproot.rs:118-125 | trees with one root are swap-equivalent, or two strings hashed on the way collide |
| PegIn.BuildTapscriptCtvLeaf | src/covenant/ctv.rs:267-273 | 34 bytes: 0x20, the hash, 0xb3 |
| PegIn.TemplatesExact | src/bridge/peg_in.rs:153-199 | both templates in full: version 2, the exit locked for 144 blocks absolutely and relatively, the fees of 1000 and 500 sats |
| PegIn.PegRootExact | src/bridge/peg_in.rs:202-212 | the root is the branch hash of the two 34-byte leaves, the numerically smaller hash first |
| PegIn.PegRootBinds | src/bridge/peg_in.rs:201-212 | equal peg roots mean the same unordered pair of templates, or a collision |
| PegIn.PegRootIff | src/bridge/peg_in.rs:201-212 | peg roots agree exactly for the same unordered pair of templates, up to named collisions, and for the same pair in any case |
| PegIn.FeesIff | src/bridge/peg_in.rs:162-199 | which fee each path deducts, and exactly when |
| PegIn.CreatePegAddress | src/bridge/peg_in.rs:138-227 | rejects below 546 sats, else returns the root and the two templates with locktime, sequence, amounts and exit height spelled out |
| PegIn.PegAddressBinds | src/bridge/peg_in.rs:138-227 | a peg root determines amount and height but not the recipient, or hashes collide |
| Validators.ValidatorRegistry.constructor | src/staking/validator.rs:125-127 | the registry starts empty |
| Validators.ValidatorRegistry.Register | src/staking/validator.rs:139-181 | refuses below 10^7 sats or beside 100 active validators, else a fresh active entry |
| Validators.ValidatorRegistry.ApplySlash | src/staking/validator.rs:106-112 | takes the amount from the bond down to zero, and slashes exactly below 10^7 sats |
| Validators.ValidatorRegistry.TotalEligibleBond | src/staking/validator.rs:195-200 | the sum of the bonds of active validators with at least 10^7 sats, whatever the order |
| Validators.ValidatorRegistry.CreditAll | src/staking/validator.rs:218-231 | the crediting loop has one outcome whatever the order |
| Validators.ValidatorRegistry.DistributeRewards | src/staking/validator.rs:193-240 | every active validator with the minimum bond is credited the floor of reward times bond over total, once pending and once for life, others nothing |
| Validators.ValidatorRegistry.ClaimRewards | src/staking/validator.rs:243-253 | pays and clears the pending rewards |
| Validators.ValidatorRegistry.InitiateUnbonding | src/staking/validator.rs:259-280 | starts or restarts the delay, from any status |
| Validators.ValidatorRegistry.CompleteExit | src/staking/validator.rs:285-321 | pays the whole bond exactly when unbonding began at least 2016 blocks ago, with the error of each refusal |
| Validators.ValidatorRegistry.RemoveValidator | src/staking/validator.rs:339-344 | removes and returns the entry |
| Rewards.DistributionBounds | src/staking/validator.rs:193-240 | credits are at most the reward, and less than one sat per eligible validator below it |
| Rewards.LargerBondEarnsMore | src/staking/validator.rs:187-192 | in one distribution a larger bond never earns less |
| Rewards.SplittingNeverPays | src/staking/validator.rs:187-192 | splitting a bond never earns more, and costs at most one sat |
| Rewards.ValidatorDaemon.constructor | src/staking/daemon.rs:89-115 | starts counting epochs from the height it is given: 0 when created, the chain tip once `run` has seeded it |
| Rewards.ValidatorDaemon.MaybeDistribute | src/staking/daemon.rs:125-150 | when an epoch or more has passed it pays the reward of all full epochs, capped at 64 bits and less than one sat per eligible validator short, and moves to the height; else nothing |
| Rewards.NeverOverpays | src/staking/daemon.rs:125-150 | lifetime credits are at most the epoch reward times the epochs passed since the seed |
| Rewards.NeverUnderpays | src/staking/daemon.rs:125-150 | over any polls that find an eligible bond, lifetime credits per block are the epoch reward over its length, short only of each settlement's dust and unfinished epoch |
| Rewards.LifetimeBound | src/staking/daemon.rs:125-150 | the same against the highest height ever polled |
| RegistryRuns.EveryRunBalanced | src/staking/validator.rs:139-344 | over any history bonds are held, returned, slashed, removed or overwritten, and rewards pending, claimed or forfeited |
| RegistryRuns.EveryRunCommittee | src/staking/validator.rs:139-181 | at most 100 active validators, each with the minimum bond, and active means eligible |
| RegistryRuns.UnbondingSince | src/staking/validator.rs:259-280 | an unbonding status records the height of the latest request |
| RegistryRuns.ExitDelay | src/staking/validator.rs:259-321 | a bond is paid at least 2016 blocks after the latest unbonding request |
| RegistryRuns.PaidOnce | src/staking/validator.rs:285-321 | after leaving, nothing more is paid until a new bond is registered |

## Left out

- Width of satoshi and height arithmetic in the pool, registry and bridge: amounts, products and heights are unbounded naturals there, so u64 and u32 wrap-around, the `checked_add` fallbacks they trigger, and games on 2^63 steps or more (`Bisection.EndsSumFits`) are not modelled.
- VM.VM.Execute: takes a fuel bound, because bytecode need not halt; `Machine.RunCompose` shows the bound is only a time limit.
- VM.VM.OpReturn: `offset + size` past 2^64 is a trap, as in a checked build; a release build wraps instead.
- Rewards.ValidatorDaemon.MaybeDistribute: requires a nonzero epoch length; the code would panic on zero.
- PegIn.CreatePegAddress: stops at the Merkle root; the secp256k1 tweak, `TaprootBuilder::build` and the key-path script are foreign and enter as a parameter. The exit height must fit 32 bits.
- Keys derived by formatting: outpoints, public keys and depositor names are map keys themselves instead of their strings, and the copies of those names inside entries, like validators' display names, are dropped.
- RPC client, daemon loops, environment configuration, CLI, logging, JSON persistence and peg-out transactions.
- SHA-256 and RIPEMD-160 themselves, signature checking (CHECKSIG pushes one) and conformance of the template preimage to BIP-119.
- `to_bare_script`, `register_deposit`, `confirm_deposit`, the slashing event log, pool metrics and the totals written to shared state.
