# Splash off-chain: verified models

Dafny models of the four parts of this repository that carry the most state and arithmetic, with proofs
about every input, every run or every reachable state of those models.

**StableSwap arithmetic** (`StableSwapInvariant`, `StableSwapActions`, `StableSwapQuote`, `StableSwapSwap`,
`StableSwapWitnesses`, over `Arithmetic`).
The invariant is found by an integer Newton loop and a one-unit tuning loop. For every list of at least two
positive balances and every amplification of at least 1 the result is proved to be a global minimiser of the
invariant error: no lower bound on the balances is needed. The proof runs over the unfloored curve
`G(d) = ((ann - 1) d - ann s) k + d^(n+1)`, with `k = n^n p`: AM-GM puts the start above its root, convexity keeps every
iterate at or above the floor of the root, and two slope bounds show that the loop can only stop where the error has
stopped falling downwards. On top of it, deposits, redemptions and swaps are modelled with every floor, assertion,
underflow and division of the source, and their results are stated in floors over the inputs, apart from the functions that
compute them. For the swap it is stated exactly when the search for the quote balance ends and
exactly when the whole action finishes.

**Ledger following** (`Ledger`, `ChainCache`, `EventSource`, `EventReplay`, `UtxoIndex`, `UtxoRuns`,
`RestartRollback`, `AtomicFlow`, `ByteOrder`, `KeyOrder`). A cache of linked blocks, the event source that turns chain upgrades into applied and undone
transactions, the UTxO index with its secondary tables, the rollback at restart, the atomic flow as a state machine, and
the byte keys under which all of it is stored and scanned. `after` is the slot up to which rollbacks are disabled and
blocks are not cached.

**Graduation state** (`GraduationText`, `GraduationJournal`, `Graduation`). A set, a tracker and a journal in memory,
mirrored as text rows in a key-value store, with observation, rollback and reload.

**Intent codec** (`IntentCodec`). Length-prefixed messages written back to back.

Five results say where the code and what one would expect of it part, each with the exact condition and a pool, message,
output or pair of blocks at which it happens:

- `StableSwapQuote.SearchEndsExactly`: the search for the quote balance rounds to token units. Where decimals divide the
  precision it ends if and only if its first step is a fault or it can stop at the quote floor, the largest balance in whole
  tokens at which the quote equation is not yet positive; it always ends where the quote token has the largest decimals.
  `StableSwapWitnesses.SearchCircles` is a pool of two assets in which it alternates between two balances for ever.
- `StableSwapQuote.AdjustedIsLeast`: the comment at `cardano-offchain-stableswap/src/stable_swap_amm_actions.rs:373`
  announces an adjustment of at least one unit towards the extremum. The loop at line 388 starts from a cell that is
  already one unit low, meets the error it started with and stops, so the result is the searched balance where that is a
  strict local minimum and one unit less everywhere else. It has the least error of all balances in whole tokens if and
  only if the searched balance is a strict local minimum, or the balance one token below it is no worse than it and than
  the one two tokens below. `StableSwapWitnesses.AdjustmentMovesAway` is a swap that passes all its checks and is adjusted
  away from the minimum.
- `RestartRollback.RollbackBlocks`: the walk stops without writing the tip exactly when some stored block past the target
  cannot be decoded, and then cache and index still describe a common chain if and only if the newest block is one of those.
  `RestartRollback.UndecodableWitness` has two blocks of which the older one cannot be decoded.
- `UtxoRuns.ApplyAndUndo`: entries of the event indexes are written under the slot an output is spent at and deleted under
  the slot it settled at. Taking a transaction back restores them if and only if its stored inputs had entries at that slot
  before and its outputs had none. `UtxoRuns.UndoLeavesEntry` is an unspent output with such an entry.
- `IntentCodec.RoundTrip`: a field of 2^32 bytes or more is written with a cut length, and exactly then decoding does not
  give the intent back; `IntentCodec.LongFieldLost` is such a field.

`dafny verify dfyconfig.toml` checks the whole project.

## Model

| member | source | states |
|---|---|---|
| `StableSwapInvariant.AmGm` | cardano-offchain-stableswap/src/stable_swap_invariant.rs:148-152 | n^n times the product of any n balances is at most the n-th power of their sum, which is why the start d = s lies above the root |
| `StableSwapInvariant.ErrorIsFlooredCurve` | cardano-offchain-stableswap/src/stable_swap_invariant.rs:36-50 | the floored error curve of the code has the sign of the unfloored one, for every d |
| `StableSwapInvariant.ErrorIncreases` | cardano-offchain-stableswap/src/stable_swap_invariant.rs:29-50 | the signed error is strictly increasing, by at least 3 for each unit of d, so its absolute value is V-shaped |
| `StableSwapInvariant.StepStaysAbove` | cardano-offchain-stableswap/src/stable_swap_invariant.rs:155-162 | a Newton step from any d lands at or above every y at which the unfloored curve is not positive |
| `StableSwapInvariant.StepSize` | cardano-offchain-stableswap/src/stable_swap_invariant.rs:155-167 | direction and length of a step bound the error at d: no step up from above, no step down from below, and a short step only near the root |
| `StableSwapInvariant.DownwardSlope` | cardano-offchain-stableswap/src/stable_swap_invariant.rs:155-162 | bound on the floored power term below d, for every d a pool can reach, that lets a step of at most one unit stop the loop |
| `StableSwapInvariant.UpwardSlope` | cardano-offchain-stableswap/src/stable_swap_invariant.rs:155-162 | bound on the rise of the floored power term that keeps steps from below to one unit |
| `StableSwapInvariant.StartFromSum` | cardano-offchain-stableswap/src/stable_swap_invariant.rs:148-153 | the start d = s has a non-negative error and is a place the loop may stand at |
| `StableSwapInvariant.NewtonStep` | cardano-offchain-stableswap/src/stable_swap_invariant.rs:153-168 | every step stays at or above the floor of the real root and at n or more, rises by at most one, and either shrinks d by at least 2 or stops where the error no longer falls downwards |
| `StableSwapInvariant.NewtonFrom` | cardano-offchain-stableswap/src/stable_swap_invariant.rs:153-168 | the Newton loop ends, at a value of at least n whose error is no larger than one unit further down |
| `StableSwapInvariant.TuneFrom` | cardano-offchain-stableswap/src/stable_swap_invariant.rs:190-206 | the tuning loop ends because its error strictly falls, at the first value whose successor is no better |
| `StableSwapInvariant.NewtonRaphson` | cardano-offchain-stableswap/src/stable_swap_invariant.rs:151-168 | the loop with the source's two nested floors and its two variables computes the limit of the Newton iteration from s |
| `StableSwapInvariant.FineTune` | cardano-offchain-stableswap/src/stable_swap_invariant.rs:170-207 | the guarded loop over the error function of the source computes the limit of the tuning iteration |
| `StableSwapInvariant.CalculateInvariant` | cardano-offchain-stableswap/src/stable_swap_invariant.rs:139-208 | for all positive balances, n at least 2 and A at least 1: the result has the least error of all natural numbers, passes the extremum check and is at least n |
| `StableSwapInvariant.LocalMinimumIsGlobal` | cardano-offchain-stableswap/src/stable_swap_invariant.rs:88-96 | a value no worse than its two neighbours is a global minimiser, and conversely |
| `StableSwapInvariant.InvariantIsMinimiser` | cardano-offchain-stableswap/src/stable_swap_invariant.rs:139-208 | Newton followed by tuning gives a global minimiser for every pool |
| `StableSwapInvariant.StrictMinimumIsComputed` | cardano-offchain-stableswap/src/stable_swap_invariant.rs:139-208 | a value with a smaller error than both its neighbours is the one that is computed |
| `StableSwapInvariant.ErrorIsAbsolute` | cardano-offchain-stableswap/src/stable_swap_invariant.rs:29-50 | the error computed by comparing two unsigned sides is the absolute value of the signed curve |
| `StableSwapInvariant.ExtremumCheckIsExact` | cardano-offchain-stableswap/src/stable_swap_invariant.rs:88-96 | the check accepts d at least 1 if and only if d minimises the error over all natural numbers |
| `StableSwapInvariant.InvariantOfBalances` | cardano-offchain-stableswap/src/stable_swap_invariant.rs:62-74 | the minimiser property in terms of the error function on balances |
| `StableSwapInvariant.ComputedPassesCheck` | cardano-offchain-stableswap/src/stable_swap_amm_actions.rs:147-158 | the extremum assertion on a computed invariant never fires |
| `StableSwapInvariant.MinimisersOrdered` | cardano-offchain-stableswap/src/stable_swap_amm_actions.rs:429-448 | of two different pools ordered asset by asset, every minimiser of the larger one is at least every minimiser of the smaller one |
| `StableSwapInvariant.InvariantMonotone` | cardano-offchain-stableswap/src/stable_swap_amm_actions.rs:429-448 | raising any balances never lowers the computed invariant |
| `StableSwapInvariant.EqualBalances` | cardano-offchain-stableswap/src/stable_swap_invariant.rs:266-278 | n equal balances b give exactly n times b |
| `StableSwapActions.PrecisionExactly` | cardano-offchain-stableswap/src/stable_swap_amm_actions.rs:223 | the common precision is the largest decimals value, wherever it stands in the list, in 64 bits |
| `StableSwapActions.PricedExactly` | cardano-offchain-stableswap/src/stable_swap_amm_actions.rs:222-231 | a pool is priced at d if and only if its reserves without fees, converted with one floor each, are all positive and d is their computed invariant, which has the least error of all |
| `StableSwapActions.RedeemExactly` | cardano-offchain-stableswap/src/stable_swap_amm_actions.rs:186-254 | a uniform redemption ends with a given result if and only if every payout is the floored share of the LP tokens in circulation, payout and remainder add up, the LP amount grows by what was redeemed, and d2 is the invariant of the remainder; all in floors over the inputs |
| `StableSwapActions.RedeemOnce` | cardano-offchain-stableswap/src/stable_swap_amm_actions.rs:199-241 | every asset splits exactly into payout and remainder, the payout is the largest whole amount within the share, less than the whole supply is redeemed, the balance per LP share does not fall, and d2 is the least-error invariant of the remainder |
| `StableSwapActions.RedeemAllExactly` | cardano-offchain-stableswap/src/stable_swap_amm_actions.rs:186-254 | a run of redemptions ends at a given position if and only if each one, in numbers, starts from what the one before left |
| `StableSwapActions.RedeemAllConserves` | cardano-offchain-stableswap/src/stable_swap_amm_actions.rs:199-241 | over any run of redemptions final reserves plus payouts equal initial reserves, the supply falls by the summed LP amount, and the balance per LP share does not fall |
| `StableSwapActions.RedeemAllBounded` | cardano-offchain-stableswap/src/stable_swap_amm_actions.rs:199-216 | no run of redemptions pays out more of any asset than one redemption of the summed LP amount |
| `StableSwapActions.LiquidityResult` | cardano-offchain-stableswap/src/stable_swap_amm_actions.rs:33-166 | deposit and redemption over all inputs, with their faults; the two extremum assertions never fire |
| `StableSwapActions.LiquidityAction` | cardano-offchain-stableswap/src/stable_swap_amm_actions.rs:33-166 | the loops of the source compute exactly that result, and it is the one of `LiquidityExactly` |
| `StableSwapActions.LiquidityExactly` | cardano-offchain-stableswap/src/stable_swap_amm_actions.rs:33-166 | an action ends with a given result if and only if d0, d1 and d2 are the invariants before, after and without the new fees, every asset pays its floored fee on the distance from its ideal balance, and the LP tokens moved are the floored relative change of the invariant, of which a deposit leaves at least one; all in floors over the inputs |
| `StableSwapActions.CollectDifferences` | cardano-offchain-stableswap/src/stable_swap_amm_actions.rs:80-92 | the push loop gathers the distance of each balance from its ideal value for the new invariant |
| `StableSwapActions.DeductFees` | cardano-offchain-stableswap/src/stable_swap_amm_actions.rs:107-113 | the push loop with its assertion succeeds exactly when every balance exceeds its fee |
| `StableSwapActions.LiquidityFeesAddUp` | cardano-offchain-stableswap/src/stable_swap_amm_actions.rs:105-130 | collected fees never shrink and stay below the reserves, the final invariant is that of reserves minus collected fees, and removing the protocol fee does not raise it |
| `StableSwapActions.LiquidityShares` | cardano-offchain-stableswap/src/stable_swap_amm_actions.rs:132-142 | a deposit never lowers the invariant per LP share and releases less than one token too few, d0 supply' <= d2 supply < d0 supply' + d0; a redemption satisfies d2 supply <= supply' d0 < d2 supply + d0 |
| `StableSwapActions.DepositsNeverDilute` | cardano-offchain-stableswap/src/stable_swap_amm_actions.rs:33-166 | over any run of deposits, each starting from the reserves and fees the previous one left, the invariant per LP share does not fall |
| `StableSwapQuote.ScaleExact` | cardano-offchain-stableswap/src/stable_swap_amm_actions.rs:315-327 | where decimals divide the precision, conversion to the common precision and back loses nothing |
| `StableSwapQuote.QuoteSearch` | cardano-offchain-stableswap/src/stable_swap_amm_actions.rs:360-371 | the loop ends where the rounded Newton iteration ends, and only at a value that one more step moves by at most one |
| `StableSwapQuote.SearchStays` | cardano-offchain-stableswap/src/stable_swap_amm_actions.rs:360-371 | a search that has ended has the same outcome for every larger number of rounds |
| `StableSwapQuote.SettledResidual` | cardano-offchain-stableswap/src/stable_swap_amm_actions.rs:349-371 | such a value solves y^2 + (b - d0) y = c up to one slope above and one more than the token unit many slopes below, and the result is a whole number of tokens |
| `StableSwapQuote.StepFromFloor` | cardano-offchain-stableswap/src/stable_swap_amm_actions.rs:361-364 | every step lands at or above the quote floor in whole tokens, and from above the floor goes down by at least one token |
| `StableSwapQuote.QuoteFloorExists` | cardano-offchain-stableswap/src/stable_swap_amm_actions.rs:349-358 | every quote equation has a quote floor: the largest balance in whole tokens at which it is not positive |
| `StableSwapQuote.SearchEndsExactly` | cardano-offchain-stableswap/src/stable_swap_amm_actions.rs:360-371 | with quote decimals that divide the precision, some number of rounds suffices if and only if the first step is a fault or the search can stop at the quote floor; it always does where the quote token has the largest decimals |
| `StableSwapQuote.StopsInNumbers` | cardano-offchain-stableswap/src/stable_swap_amm_actions.rs:361-370 | stopping at the floor m in plain numbers: its slope is not positive, or m^2 + c is below the slope times the next whole token |
| `StableSwapWitnesses.SearchCircles` | cardano-offchain-stableswap/src/stable_swap_amm_actions.rs:361-371 | selling 1 into reserves of 2 and 2 with decimals 10 and 1: the search has not ended after any number of rounds |
| `StableSwapQuote.TuneCell` | cardano-offchain-stableswap/src/stable_swap_amm_actions.rs:387-394 | the adjustment loop ends where it began, one unit below the balance it was meant to tune |
| `StableSwapQuote.AdjustQuote` | cardano-offchain-stableswap/src/stable_swap_amm_actions.rs:373-395 | succeeds exactly when no neighbour underflows or empties the product; keeps the searched balance if and only if its error is strictly below that of both neighbours and goes one unit down otherwise |
| `StableSwapQuote.CurveFalls` | cardano-offchain-stableswap/src/stable_swap_invariant.rs:62-74 | the signed error strictly falls as any one balance rises, for every pool |
| `StableSwapQuote.LeastIsLocal` | cardano-offchain-stableswap/src/stable_swap_amm_actions.rs:373-395 | a balance in whole tokens has the least error of all balances in whole tokens if and only if it is no worse than its neighbours one token away |
| `StableSwapQuote.AdjustedIsLeast` | cardano-offchain-stableswap/src/stable_swap_amm_actions.rs:373-395 | the adjusted balance has the least error of all balances in whole tokens if and only if the searched one is a strict local minimum, or the one a token below is no worse than it and than the one two tokens below |
| `StableSwapWitnesses.AdjustmentMovesAway` | cardano-offchain-stableswap/src/stable_swap_amm_actions.rs:360-394 | selling 1 into reserves of 2 and 12: the search ends at 9, where 10 has a smaller error, and the adjustment goes to 8, which has not the least error |
| `StableSwapWitnesses.AdjustedSwapFinishes` | cardano-offchain-stableswap/src/stable_swap_amm_actions.rs:279-481 | that swap passes all closing checks and is finished |
| `StableSwapSwap.FeeWithinNominal` | cardano-offchain-stableswap/src/stable_swap_amm_actions.rs:404-410 | protocol fee and LP fee recomputed from the floored protocol part never exceed the nominal fee |
| `StableSwapSwap.SplitExactly` | cardano-offchain-stableswap/src/stable_swap_amm_actions.rs:397-417 | a quote balance is split with a given result if and only if the freed amount, the nominal fee, the protocol's share of it and the LP fee are the floors they must be and what is received is the rest |
| `StableSwapSwap.QuoteEquationExactly` | cardano-offchain-stableswap/src/stable_swap_amm_actions.rs:327-359 | the coefficients of the quote equation are the sum of the other balances plus d0 / ann, and d0^(n+1) over n^n, the product of the other balances and ann, the nested floors merged into one |
| `StableSwapSwap.SettlesInNumbers` | cardano-offchain-stableswap/src/stable_swap_amm_actions.rs:397-448 | for all decimals: the freed quote amount and its fees, the new reserves and collected fees, and the two lists whose invariants are d1 and d2, in floors over the inputs |
| `StableSwapSwap.SplitSucceeds` | cardano-offchain-stableswap/src/stable_swap_amm_actions.rs:397-417 | with the fee in range, a quote balance can be split if and only if it does not exceed the old one and the protocol share is in range |
| `StableSwapSwap.FinalReservesExact` | cardano-offchain-stableswap/src/stable_swap_amm_actions.rs:419-427 | with aligned decimals asset i grows by exactly the base amount, asset j falls by exactly the received amount and no other asset moves |
| `StableSwapSwap.FeeOffReserves` | cardano-offchain-stableswap/src/stable_swap_amm_actions.rs:439-446 | taking the protocol fee off the converted reserves equals converting the reserves without it |
| `StableSwapSwap.LpFeeAdds` | cardano-offchain-stableswap/src/stable_swap_amm_actions.rs:429-446 | for all decimals, no balance measured for d2 is below the one measured for d1 |
| `StableSwapSwap.MeasureInvariants` | cardano-offchain-stableswap/src/stable_swap_amm_actions.rs:429-448 | measures exactly when the quote cell covers its LP fee and no balance is empty; d1 and d2 are the invariants of the tradable balances without and with the LP fee, and d1 <= d2 for all decimals |
| `StableSwapSwap.CheckExtremumForAsset` | cardano-offchain-stableswap/src/stable_swap_invariant.rs:98-119 | accepts exactly when two units more and two units less of the asset both leave a strictly larger error |
| `StableSwapSwap.FinalChecks` | cardano-offchain-stableswap/src/stable_swap_amm_actions.rs:450-472 | a swap is released exactly when all closing checks hold |
| `StableSwapSwap.FindQuote` | cardano-offchain-stableswap/src/stable_swap_amm_actions.rs:336-395 | a quote balance is found exactly when the search ends at a value whose neighbours cause no fault, and it is the adjusted settling value of the quote equation of the old invariant |
| `StableSwapSwap.Settle` | cardano-offchain-stableswap/src/stable_swap_amm_actions.rs:397-480 | a quote balance leads to a finished swap exactly when it can be split and measured and passes the closing checks; in whole tokens of an aligned pool the two amount assertions never fire |
| `StableSwapSwap.SettledConserves` | cardano-offchain-stableswap/src/stable_swap_amm_actions.rs:397-427 | with aligned decimals a settled swap adds the base amount to asset i, takes the received amount from asset j, leaves the others, and collects a fee within the nominal one |
| `StableSwapSwap.Swap` | cardano-offchain-stableswap/src/stable_swap_amm_actions.rs:279-481 | finishes exactly when the search ends at a balance that can be adjusted and settled, and is unfinished exactly when the search is; a finished swap pays what the settling balance frees less its protocol and LP fees, each the floor it must be for all decimals, d1 and d2 are the measured invariants, d1 <= d2 and d1 is within two quote units of the old invariant; with aligned decimals every asset is conserved |
| `StableSwapSwap.SwapSearchEnds` | cardano-offchain-stableswap/src/stable_swap_amm_actions.rs:336-371 | the exact condition for the search of a whole swap to end |
| `StableSwapSwap.AlignedSwapFinishes` | cardano-offchain-stableswap/src/stable_swap_amm_actions.rs:279-481 | with aligned decimals and the fee in range, a swap whose search ended finishes if and only if the value can be adjusted, the quote balance does not rise, the share is in range, and the extremum and drift checks hold of the found balance without and with its LP fee |
| `StableSwapSwap.SwapEndsAtMinimum` | cardano-offchain-stableswap/src/stable_swap_amm_actions.rs:279-395 | the quote balance a whole aligned swap moves to has the least error for the old invariant if and only if the errors around the value its search ended at meet that condition |
| `ChainCache.NewestBlock` | cardano-chain-sync/src/cache.rs:65-92 | in a cache that represents a chain the tip is stored exactly when it lies past the threshold, and removing it leaves the chain without its newest block |
| `EventSource.CacheBlock` | cardano-chain-sync/src/event_source.rs:158-168 | a new block extends the represented chain and is linked to the previous tip |
| `EventSource.CachePoint` | cardano-chain-sync/src/event_source.rs:170-174 | a block up to the threshold extends the chain without being stored |
| `EventSource.Rollback` | cardano-chain-sync/src/event_source.rs:297-326 | the walk ends with a cache that represents the cut chain and yields the transactions of each removed block, newest first |
| `EventSource.RollToCuts` | cardano-chain-sync/src/event_source.rs:297-326 | a rollback to a block of the chain cuts right after it; to an unknown point it removes exactly the cached blocks |
| `Ledger.ValidTxsExactly` | cardano-chain-sync/src/event_source.rs:176-224 | the transactions taken from a block are those of a known era, with witnesses and with a place that is not listed as invalid in 16 bits, in block order |
| `EventSource.ItemsExactly` | cardano-chain-sync/src/event_source.rs:190-224 | each of them comes with slot, number and hash of its block, and nothing else does |
| `EventSource.ProcessUpstreamByTxs` | cardano-chain-sync/src/event_source.rs:94-156 | one upgrade moves the represented chain and emits the events of that move, for a block its valid transactions in order; rollbacks up to the threshold do nothing |
| `EventSource.LedgerTransactions` | cardano-chain-sync/src/event_source.rs:28-71 | from any cache that represents a chain, with any replayed blocks before the live run: the cache represents the chain the run arrives at, replay leaves it alone, and the stream is the transactions of the replayed blocks followed by the events of the run |
| `EventSource.NetStep` | cardano-chain-sync/src/event_source.rs:94-156 | the events of one upgrade, read as pushes and pops, lead from the transactions of the old chain to those of the new one |
| `EventSource.NetRun` | cardano-chain-sync/src/event_source.rs:94-174 | in every run each undone transaction is the latest one still applied, and what is left applied are exactly the valid transactions of the current chain, block by block |
| `EventReplay.NetWithoutBase` | cardano-chain-sync/src/event_source.rs:41-71 | a consumer that lacks the bottom of the stack gets through if and only if the events never reach it, and then holds the rest |
| `EventReplay.NetReplay` | cardano-chain-sync/src/event_source.rs:41-71 | a consumer that starts empty with the replay of the chain from block k finds every undone transaction on top if and only if the live run never reaches the transactions before block k, and then holds exactly those of the final chain after them |
| `EventReplay.NetReplayKept` | cardano-chain-sync/src/event_source.rs:41-71 | where the live run never rolls back past block k, that consumer ends with exactly the transactions of the final chain from block k on |
| `UtxoIndex.CredentialsAreCarried` | cardano-utxo-monitor/src/index.rs:318-337 | an output is indexed under payment for the payment part of a base, enterprise or pointer address, under stake for the stake part of a base address and the credential of a reward address, and under nothing else |
| `UtxoIndex.Index.UpdateTxoByRef` | cardano-utxo-monitor/src/index.rs:372-398 | sets the spent flag of a stored output, keeps the unspent indexes in agreement, and moves its event entries exactly from the slot it settled at to the slot it is spent at, or back |
| `UtxoIndex.Index.UpdateUnspentTxo` | cardano-utxo-monitor/src/index.rs:339-370 | stores an output with its new slot and the spent flag it had, keeps the unspent indexes in agreement, and replaces exactly its event entries at the old slot |
| `UtxoIndex.Index.DeleteTxoAndIndexes` | cardano-utxo-monitor/src/index.rs:417-427 | removes an output from the table, from all unspent indexes and from the event indexes at the slot it settled at |
| `UtxoIndex.Index.Apply` | cardano-utxo-monitor/src/index.rs:431-453 | inputs become spent, non-script outputs are stored with the slot and keep their spent flag, the unspent indexes still agree, and the event entries are exactly those of the spent inputs and created outputs at the slot besides the ones that stay |
| `UtxoIndex.Index.Unapply` | cardano-utxo-monitor/src/index.rs:455-476 | inputs become unspent, non-script outputs disappear, the unspent indexes still agree, and the event entries of inputs and outputs at their own slots come back and go |
| `UtxoIndex.KeptMeaning` | cardano-utxo-monitor/src/handler.rs:66-71 | the outputs handed to the index are exactly those at a Byron address or one whose payment part is a key, under their own index |
| `UtxoIndex.RunHandler` | cardano-utxo-monitor/src/handler.rs:22-50 | after any interleaving of ledger and mempool updates the payment and stake unspent indexes hold exactly the stored unspent outputs carrying the credential |
| `UtxoRuns.RunTable` | cardano-utxo-monitor/src/handler.rs:22-50 | after every run of ledger and mempool updates an output is stored if and only if some update brought it and none since took its transaction back, and it is spent if and only if some update spent it while stored and none since took that back |
| `UtxoRuns.RunOutput` | cardano-utxo-monitor/src/handler.rs:22-50 | a stored output is the one of the last update that brought it, at an address without a script, settled at the slot of that update from the ledger and unsettled from the mempool |
| `UtxoRuns.ApplyAndUndo` | cardano-utxo-monitor/src/index.rs:372-476 | applying a fresh transaction and taking it back restores table and unspent indexes, leaves exactly the entries its inputs got at the slot they were spent at, and so restores the event indexes if and only if every stored input had such entries before and no created output did |
| `UtxoRuns.UndoLeavesEntry` | cardano-utxo-monitor/src/index.rs:372-476 | an unspent output settled at slot 1 with an entry at slot 2 that is left over |
| `UtxoIndex.UnspentDetermined` | cardano-utxo-monitor/src/index.rs:339-476 | equal tables have equal unspent indexes |
| `UtxoIndex.UnapplyUndoesApply` | cardano-utxo-monitor/src/index.rs:431-476 | unapplying right after applying restores the table if and only if no created output was stored and no input was spent before |
| `UtxoIndex.UndoLatest` | cardano-utxo-monitor/src/index.rs:455-476 | over a ledger history, unapplying the latest transaction restores the table before it |
| `UtxoIndex.ConfirmationOrder` | cardano-utxo-monitor/src/index.rs:339-453 | confirming a mempool transaction after later independent ones gives the table of confirming it first |
| `UtxoIndex.GetUtxos` | cardano-utxo-monitor/src/index.rs:509-541 | the counting loop returns exactly the slice from offset of the given limit of the scanned outputs that are stored |
| `UtxoIndex.PagesTile` | cardano-utxo-monitor/src/index.rs:481-549 | successive pages are the beginning of the full result, without gap or repeat |
| `UtxoIndex.UnspentPages` | cardano-utxo-monitor/src/index.rs:498-542 | all unspent pages of one snapshot list each stored unspent output carrying the credential exactly once, and nothing else |
| `RestartRollback.HandleRollback` | cardano-utxo-monitor/src/handler.rs:22-36 | the events of a rollback take the table of a ledger chain to the table of the cut chain |
| `RestartRollback.HandleUpgrade` | cardano-utxo-monitor/src/handler.rs:22-36 | the events of one upgrade take the table of the old chain to that of the new one |
| `RestartRollback.MonitorRun` | cardano-utxo-monitor/src/main.rs:135-165 | after every run of upgrades over ledger chains, cache and index describe the same chain |
| `RestartRollback.MonitorFromScratch` | cardano-utxo-monitor/src/main.rs:68-71 | the same from an empty cache and an empty index |
| `RestartRollback.UndoNewest` | cardano-utxo-monitor/src/rollback.rs:38-80 | one round takes the newest block off the index and off the cache together |
| `RestartRollback.RollbackBlocks` | cardano-utxo-monitor/src/rollback.rs:14-92 | the walk ends; it fails on decoding if and only if some stored block past the target is undecodable, and on a missing block if and only if none is and some block past the target was never stored; on success and on a missing block cache and index describe the same prefix of the chain and only blocks past the target were cut; on a decoding failure they describe any common chain if and only if the newest block is undecodable |
| `RestartRollback.UndecodableWitness` | cardano-utxo-monitor/src/rollback.rs:67-73 | two blocks, the older one undecodable: the rollback undoes the newer one, fails, and leaves a tip that cache and index describe no chain with |
| `RestartRollback.Restart` | cardano-utxo-monitor/src/main.rs:74-103 | goes through if and only if no block past the target is undecodable or was never stored; it then resumes at the tip of what cache and index describe, all of the chain up to the target and nothing past it, and the rollback to that point a node sends first changes nothing |
| `AtomicFlow.StepKeepsAgreement` | cardano-chain-sync/src/atomic_flow.rs:160-221 | every step of the flow keeps the cached chain and the committed transactions in agreement up to the block in flight |
| `AtomicFlow.OneBlockInFlight` | cardano-chain-sync/src/atomic_flow.rs:160-243 | in every reachable state the consumer holds exactly the transactions of the cached chain, or those plus the one block about to be cached, or those minus the one block about to be unlinked |
| `AtomicFlow.RewindCompletes` | cardano-chain-sync/src/atomic_flow.rs:183-217 | when every message is committed a rollback ends idle; for a point of the chain cache and consumer both hold the chain up to it, for any other point both are empty |
| `Ledger.PopReversed` | cardano-chain-sync/src/atomic_flow.rs:197-205 | the reversed contents of the newest block come off the stack from the top and leave what was below |
| `ByteOrder.BigEndianOrder` | cardano-utxo-monitor/src/index.rs:190-192 | big-endian bytes are ordered as the numbers they stand for |
| `ByteOrder.ValueOfBigEndian` | intent-relay/src/intent.rs:72-79 | reading big-endian bytes gives back the number that fits their width |
| `KeyOrder.PrefixIsCredential` | cardano-utxo-monitor/src/index.rs:175-188 | an index key starts with the prefix of a credential exactly when it belongs to it |
| `KeyOrder.CredentialScan` | cardano-utxo-monitor/src/index.rs:559-573 | a scan from a least slot returns exactly the entries of that credential from that slot on, in slot order, unsettled ones last |
| `KeyOrder.AllQueryIsComplete` | cardano-utxo-monitor/src/index.rs:502-541 | a query for all outputs from a least slot meets every stored unspent output of its credential that settled at or after that slot or has not settled |
| `KeyOrder.UnspentScan` | cardano-utxo-monitor/src/index.rs:201-205 | an unspent scan meets each unspent output of its credential once, and no other |
| `KeyOrder.PointKeyInjective` | cardano-chain-sync/src/cache.rs:117-126 | distinct points have distinct keys, and none has the key of the tip |
| `KeyOrder.ReplayIsSuffix` | cardano-chain-sync/src/cache.rs:94-100 | the iterator from a cached point lists the keys of the chain from that block on, oldest first |
| `KeyOrder.Replay` | cardano-chain-sync/src/cache.rs:94-115 | replay emits exactly the chain from that block on, each block linked to the point before it, and counts them |
| `GraduationText.TokenRoundTrip` | bloom-offchain-cardano/src/graduation.rs:273-290 | every well-formed token is read back from its text |
| `GraduationText.RefRoundTrip` | spectrum-cardano-lib/src/lib.rs:178-182 | every output reference is read back from its text, for all 64-bit indexes |
| `GraduationText.HashRoundTrip` | bloom-offchain-cardano/src/graduation.rs:262-286 | every transaction hash is read back from its hexadecimal text |
| `GraduationText.HexExactly` | bloom-offchain-cardano/src/graduation.rs:283-286 | text is read as given bytes if and only if it is their hexadecimal text in either case |
| `GraduationText.U64Exactly` | bloom-offchain-cardano/src/graduation.rs:298 | text is read as a number if and only if it is its digits after any zeros and at most one plus sign |
| `GraduationText.TokenExactly` | spectrum-cardano-lib/src/lib.rs:251-254 | text is read as a token if and only if it is its printed form in either case |
| `GraduationText.RefExactly` | bloom-offchain-cardano/src/graduation.rs:292-300 | text is read as an output reference if and only if it is its hash in either case, a number sign and the digits of its index |
| `GraduationJournal.EncodeJournalEntry` | bloom-offchain-cardano/src/graduation.rs:302-324 | the three loops print one line for each consumed, produced and graduated item, in order |
| `GraduationJournal.ParseJournalEntry` | bloom-offchain-cardano/src/graduation.rs:326-374 | the loop over lines accepts and rejects exactly as the line-by-line reading, with its fault |
| `GraduationJournal.LineExactly` | bloom-offchain-cardano/src/graduation.rs:331-366 | a line is read if and only if it is a tag, the words that tag needs and no more, and it adds what it names to the list of that tag |
| `GraduationJournal.EntryRoundTrip` | bloom-offchain-cardano/src/graduation.rs:302-374 | every journal entry is read back exactly as it was written |
| `Graduation.UndoObserve` | bloom-offchain-cardano/src/graduation.rs:121-149 | rolling a transaction back right after observing it restores set, tracker and journal if and only if the observation was fresh and consistent |
| `Graduation.KeyTextInjective` | bloom-offchain-cardano/src/graduation.rs:254-271 | pools, inputs and transactions have pairwise distinct keys |
| `Graduation.RowsDetermineState` | bloom-offchain-cardano/src/graduation.rs:188-208 | no two states have the same rows |
| `Graduation.MirroredStateUnique` | bloom-offchain-cardano/src/graduation.rs:188-208 | the rows of a store mirror at most one state |
| `Graduation.SnekPoolInputTracker.RollbackTx` | bloom-offchain-cardano/src/graduation.rs:421-430 | graduated pools are removed, then produced inputs, then consumed inputs return with their last pool |
| `Graduation.GraduatedSplashPoolStore.ApplyObservationEntry` | bloom-offchain-cardano/src/graduation.rs:121-135 | the loops leave exactly the observed state, journal included |
| `Graduation.GraduatedSplashPoolStore.RollbackTx` | bloom-offchain-cardano/src/graduation.rs:137-149 | a journalled transaction is reverted and its entry returned; any other changes nothing |
| `Graduation.GraduationStateRocksDb.PersistObservation` | bloom-offchain-cardano/src/graduation.rs:210-230 | a store that mirrors a state mirrors it after the observation |
| `Graduation.GraduationStateRocksDb.PersistRollback` | bloom-offchain-cardano/src/graduation.rs:232-251 | a store that mirrors a state mirrors it after the reversal of the entry |
| `Graduation.GraduationStateRocksDb.LoadState` | bloom-offchain-cardano/src/graduation.rs:188-208 | loading succeeds exactly when every row is readable, and from a store that mirrors a state it rebuilds exactly that state, in whatever order rows are met |
| `Graduation.HandlerContext.JournalGraduatedSplashPools` | bloom-offchain-cardano/src/event_sink/handler.rs:118-133 | memory and store observe together and stay mirrored |
| `Graduation.HandlerContext.RollbackGraduation` | bloom-offchain-cardano/src/event_sink/handler.rs:88-95 | memory and store roll back together and stay mirrored |
| `Graduation.HandlerContext.Run` | bloom-offchain-cardano/src/event_sink/handler.rs:88-159 | over every run of observations, rollbacks and restarts the store mirrors the memory, and restarts leave no trace |
| `Graduation.ReverseRollbackRestores` | bloom-offchain-cardano/src/graduation.rs:121-149 | rolling back any sequence of fresh, consistent observations latest first restores the state, wherever restarts fall |
| `Graduation.HandlerObservesReversibly` | bloom-offchain-cardano/src/event_sink/handler.rs:97-106 | an observation as the handler builds it is consistent, so it is reversible whenever its transaction, produced outputs and pools are new |
| `IntentCodec.Encode` | intent-relay/src/intent.rs:11-34 | the buffer holds four fields, each after its length cut to 32 bits, then the credential |
| `IntentCodec.ReadU32` | intent-relay/src/intent.rs:72-79 | reads the number whose four big-endian bytes stand at the cursor, and fails exactly when fewer are left |
| `IntentCodec.ReadVec` | intent-relay/src/intent.rs:81-89 | takes the announced bytes off the rest, and fails exactly when fewer are left |
| `IntentCodec.Decode` | intent-relay/src/intent.rs:36-70 | the cursor walk gives what parsing the four fields and the credential one after the other gives |
| `IntentCodec.DecodesExactly` | intent-relay/src/intent.rs:11-70 | data decodes to an intent if and only if all its lengths fit and the data starts with its encoding |
| `IntentCodec.IncompleteExactly` | intent-relay/src/intent.rs:55-58 | the credential error is given exactly when four whole fields and less than a credential are present |
| `IntentCodec.RoundTrip` | intent-relay/src/intent.rs:11-70 | an encoding followed by any bytes decodes to the intent if and only if every field is shorter than 2^32 |
| `IntentCodec.LongFieldLost` | intent-relay/src/intent.rs:14-16 | a field of 2^32 zero bytes is announced as empty and does not come back |
| `IntentCodec.StrictPrefixRejected` | intent-relay/src/intent.rs:36-70 | no strict prefix of an encoding is accepted |
| `IntentCodec.StreamInjective` | intent-relay/src/intent.rs:11-34 | different sequences of intents have different concatenated encodings |

## Left out

- `StableSwapQuote.QuoteSearch`: the loop need not end, so `rounds` bounds it and a search that has not ended is `Unfinished`; for quote decimals that do not divide the precision no exact condition for its end is given.
- `StableSwapSwap.Swap`: minimality of the quote balance is not claimed, because the adjustment loop does not establish it; exact conservation is stated for decimals that divide the largest one, as rounding loses amounts otherwise.
- `UtxoIndex.RunHandler`: over whole runs the event indexes are proved to miss no stored output and to hold each unspent one at its settlement slot, but not to hold nothing else, because entries at a spend slot stay behind (`UtxoRuns.ApplyAndUndo` states for one transaction which).
- `RestartRollback.RollbackBlocks`: stated for indexes filled by the ledger alone, because mempool contributions are in the index but in no block.
- `EventSource.LedgerTransactions`: live blocks arrive with increasing slots.
- Widths of 512-bit amounts and of the 32-bit products of pool parameters.
- Replay in the atomic flow, which caches replayed blocks again and links the list anew.
- Crashes between the two writes of one cache update, and between memory and store in the graduation handler.
- Graduation rows that are not UTF-8 text, and asset names built from text longer than 32 bytes.
- A handler configured without a graduation store.
- RocksDB, asynchronous scheduling, CBOR and MessagePack forms and hashing: maps, steps and injective functions stand for them.
- Unit indexes, which applying and unapplying do not touch.
- The mempool projection, the FIFO matcher, order books, pool contracts, servers, clients and configuration.
