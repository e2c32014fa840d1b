# telos.gpu in Dafny

A model of the telos.gpu work-marketplace contract (an EOSIO/Antelope smart
contract) and proofs about it. Users escrow a token reward and enqueue
compute requests. Registered workers announce work on a request in its
status list and submit a result hash. When the number of matching results
reaches the request's `min_verification`, the request settles: the reward
is split among the payees, and the request and its result rows are erased.

The contract's tables are the fields of one class, `Gpu.Contract`:

- `config`: the singleton holding token contract, token symbol and nonce.
- `users`: token balances.
- `workers`: registrations.
- `cards`: GPU cards, with a `byowner` index.
- `queue`: requests keyed by nonce, each holding its embedded status list.
- `results`: result rows, with `byresult` and `bytime` indices.

Each action, and each of the four worker-table handlers the header declares without `[[eosio::action]]`, is a method. It makes every check first and writes only
afterwards. This matches the chain, where a failed `check` aborts the whole
transaction and nothing is written. Each method's contract states the
outcome (`Pass` or the specific failure) and the new contents of every
table it may modify, and it preserves the class invariant `Valid()`:

- rows sit under their primary key;
- ids ascend in the ordered tables;
- a request has at most one status entry per worker;
- a worker owns at most one result row;
- the nonce fits in 64 bits.

The pure parts sit in their own modules, each with the lemmas about it:

- `Assets`: fixed-point `ipow`, `divide`, `multiply`, and the payout split.
- `Index`: secondary-index order, `find` and `lower_bound`.
- `Tables`: row types and erasure.
- `Ledger`: `add_balance`/`sub_balance` as table values.
- `Status`: the status-list edits.
- `Quorum`: the request preimage, the match count, and the `bytime` scan.
- `Cards`: the `unregworker` card sweep.
- `Settlement`: what `submit` does to the tables.

`Settlement.Accept` is the reference definition of `submit` after its
checks. `Gpu.Contract.Submit` is proved to end in exactly the tables
`Accept` gives. The lemmas about `Accept` prove the settlement properties:
who is paid, how much, and which rows go.

Secondary indices are views of the table sorted by (secondary key,
primary key). `find(k)` is the first entry whose key equals `k`;
`lower_bound(k)` is the first entry whose key is at least `k`; both return
the end when there is none.

## Model

| member | source | states |
|---|---|---|
| Assets.IPow | contracts/telos.gpu/include/telos.gpu/utils.hpp:9-17 | the loop returns `base^exp`: 1 for a zero exponent, otherwise `base` multiplied in `exp - 1` more times |
| Assets.TruncDiv | contracts/telos.gpu/include/telos.gpu/utils.hpp:27-29 | signed division rounds toward zero, as C++ divides an `int128_t`, for negative dividends too |
| Assets.Divide | contracts/telos.gpu/include/telos.gpu/utils.hpp:19-32 | fails exactly when `B.amount <= 0` (checked first) or the precisions differ; otherwise returns A's symbol and `A.amount * 10^p / B.amount` truncated toward zero |
| Assets.Multiply | contracts/telos.gpu/include/telos.gpu/utils.hpp:34-44 | fails exactly when the precisions differ; otherwise returns A's symbol and `A.amount * B.amount / 10^p` truncated toward zero |
| Assets.SplitPayment | contracts/telos.gpu/src/worker.cpp:238-246 | the share `multiply(reward, divide(asset(1, token), asset(k, token)))` fails exactly when `k == 0` or the reward's precision differs from the token's; it carries the reward's symbol |
| Assets.SplitNeverOverpays | contracts/telos.gpu/src/worker.cpp:238-251 | for a non-negative reward and `k >= 1`, the share is non-negative and `k` shares never exceed the reward |
| Assets.ZeroPrecisionPaysNothing | contracts/telos.gpu/src/worker.cpp:239-246 | with a precision-0 token and `k >= 2`, the divisor's dividend is one smallest unit, so the factor and every share are 0 |
| Assets.SingleWorkerPaidInFull | contracts/telos.gpu/src/worker.cpp:239-246 | with `k == 1`, the share is the whole reward at any precision |
| Index.ViewSorted | contracts/telos.gpu/include/telos.gpu/telos.gpu.hpp:236-251 | an index view is ordered by (key, primary key) and holds exactly the table's entries, as a multiset |
| Index.ViewDistinct | contracts/telos.gpu/include/telos.gpu/telos.gpu.hpp:236-251 | the view holds the same entries as the table, none twice when none was twice |
| Index.Find | contracts/telos.gpu/src/worker.cpp:198 | `find(k)` is the first position whose key is `k`, or the end; no earlier entry has key `k` |
| Index.LowerBound | contracts/telos.gpu/src/worker.cpp:217-218 | `lower_bound(k)` is the first position whose key is at least `k`, or the end; every earlier key is below `k` |
| Index.LowerBoundSuffix | contracts/telos.gpu/src/worker.cpp:217-220 | on an ordered view, the positions from `lower_bound(k)` to the end are exactly those with key at least `k` |
| Index.ViewFindCount | contracts/telos.gpu/src/worker.cpp:197-204 | the iterator walk from `find(k)` to the end visits as many entries as the table has keys at least `k` |
| Index.ViewHasKey | contracts/telos.gpu/src/worker.cpp:198 | `find(k)` is not the end exactly when some row has key `k` |
| Tables.NextResultId | contracts/telos.gpu/src/worker.cpp:188 | `available_primary_key()` on an id-ordered table exceeds every id in it |
| Tables.NextCardId | contracts/telos.gpu/src/worker.cpp:45 | the new card's id exceeds every existing card id |
| Tables.ResultsWithoutMembers | contracts/telos.gpu/src/worker.cpp:226 | erasing by ids keeps exactly the rows whose id is not erased, and never adds a row |
| Tables.ResultsWithoutAscending | contracts/telos.gpu/include/telos.gpu/telos.gpu.hpp:229 | erasing keeps the results in primary-key order |
| Tables.ResultsWithoutTwice | contracts/telos.gpu/src/worker.cpp:220-229 | erasing `a` and then `b` is erasing `a + b`, so one-at-a-time erasure in the loop composes |
| Tables.CardsWithoutMembers | contracts/telos.gpu/src/worker.cpp:71 | erasing cards by id keeps exactly the cards whose id is not erased |
| Tables.CardsWithoutAscending | contracts/telos.gpu/include/telos.gpu/telos.gpu.hpp:177 | erasing keeps the cards in primary-key order |
| Tables.CardsWithoutTwice | contracts/telos.gpu/src/worker.cpp:85-86 | erasing cards in two steps is erasing the union |
| Ledger.DebitCheck | contracts/telos.gpu/src/balance.cpp:44-48 | `sub_balance` fails with "no account" exactly when the owner has no row, and with "overdrawn" exactly when the balance is below the value; otherwise it passes |
| Ledger.Debited | contracts/telos.gpu/src/balance.cpp:50-52 | a debit lowers only the owner's amount, by exactly the value; the symbol and every other row are unchanged; a checked debit leaves a non-negative balance |
| Ledger.Credited | contracts/telos.gpu/src/balance.cpp:55-68 | `add_balance` opens `Account(owner, value)` when there is none, else adds the value to the amount; no other row changes, and rows stay under their own name |
| Ledger.CreditAll | contracts/telos.gpu/src/worker.cpp:250-251 | the payment loop keeps every row under its own user name |
| Ledger.CreditAllEffect | contracts/telos.gpu/src/worker.cpp:250-251 | crediting distinct payees adds the value exactly once to each of them, opens rows only for them, and leaves every other account as it was |
| Ledger.EscrowRoundTrip | contracts/telos.gpu/src/user.cpp:40-41 | a passed debit followed by a credit of the same value to the same account restores the `users` table |
| Status.IndexOf | contracts/telos.gpu/src/worker.cpp:102-106 | `find_if` returns the first entry of the worker, or the end; no earlier entry is the worker's |
| Status.Begin | contracts/telos.gpu/src/worker.cpp:101-110 | fails with "already started" exactly when the worker has an entry; otherwise fails with "too many" exactly when `size > max_workers`; passes exactly when the worker has no entry and `size <= max_workers`, and then appends `{worker, "started", now}`, keeping the old entries as a prefix and at most one entry per worker |
| Status.Update | contracts/telos.gpu/src/worker.cpp:120-128 | fails exactly when the worker has no entry; otherwise only the text of the worker's entry changes, and every worker, start time and other entry stays |
| Status.Cancel | contracts/telos.gpu/src/worker.cpp:139-147 | fails exactly when the worker has no entry; otherwise the worker's first entry is erased and the rest keep their order, so every other worker's entry stays, nothing new appears, and on a unique list the worker is gone |
| Status.BeginTwiceRefused | contracts/telos.gpu/src/worker.cpp:107 | a second `workbegin` by the same worker, with nothing in between, is refused as already started |
| Status.BeginCapOffByOne | contracts/telos.gpu/src/worker.cpp:108 | a list already holding `max_workers` other workers still admits one more, reaching `max_workers + 1` |
| Quorum.DecimalString | contracts/telos.gpu/src/worker.cpp:168 | `to_string(nonce)` is a non-empty string of decimal digits with no leading zero |
| Quorum.DecimalRoundTrip | contracts/telos.gpu/src/worker.cpp:168 | reading the digits back gives the nonce |
| Quorum.DecimalInjective | contracts/telos.gpu/src/worker.cpp:168 | distinct nonces render as distinct strings |
| Quorum.FlattenAppend | contracts/telos.gpu/src/worker.cpp:164-166 | concatenating the inputs distributes over splitting the input list |
| Quorum.ConcatInputs | contracts/telos.gpu/src/worker.cpp:164-166 | the `+=` loop builds the inputs concatenated in order |
| Quorum.RequestPreimage | contracts/telos.gpu/src/worker.cpp:164-168 | `hash_str` is as long as the nonce's decimal digits, the body and the concatenated inputs together, and its leading digits read back as the nonce |
| Quorum.PreimageBindsNonce | contracts/telos.gpu/src/worker.cpp:168 | two requests with the same body and inputs share a preimage only when they share the nonce |
| Quorum.PreimageNotFieldSeparated | contracts/telos.gpu/src/worker.cpp:168-170 | requests 1 with body "23" and 12 with body "3" hash the same preimage |
| Quorum.ByResultCount | contracts/telos.gpu/include/telos.gpu/telos.gpu.hpp:242-244 | the `byresult` entries with key at least `h` are the rows whose hash is at least `h` |
| Quorum.HasSubmittedByWorker | contracts/telos.gpu/src/worker.cpp:182-185 | `byworker.find(worker)` is not the end exactly when the worker owns a result row of any request |
| Quorum.CountMatches | contracts/telos.gpu/src/worker.cpp:197-204 | when some row has the hash, the loop counts every row whose hash is at least it, of any request; otherwise it counts 0 |
| Quorum.CountCoversSameRequest | contracts/telos.gpu/src/worker.cpp:197-207 | the count is never below the number of this request's rows with exactly this hash |
| Quorum.CountSpansRequests | contracts/telos.gpu/src/worker.cpp:197-204 | a higher hash on another request raises the count above the same-request matches |
| Quorum.Picked | contracts/telos.gpu/src/worker.cpp:220-224 | the scan picks at most `min_verification - 1` workers |
| Quorum.PickedIsFirstEligible | contracts/telos.gpu/src/worker.cpp:220-224 | the picked workers are the first `cap` non-submitter workers of this request's rows, in index order |
| Quorum.ErasedIdsMembers | contracts/telos.gpu/src/worker.cpp:221-226 | the erased ids are exactly the ids of the range's rows of this request |
| Quorum.TimeViewEntries | contracts/telos.gpu/include/telos.gpu/telos.gpu.hpp:248-250 | the `bytime` view has one entry per row, keyed by submission second, and is ordered |
| Quorum.SettlementErases | contracts/telos.gpu/src/worker.cpp:216-229 | the scan from `lower_bound(timestamp)` erases exactly this request's rows submitted at or after the timestamp, and every other row stays |
| Quorum.TimeViewWorkersDistinct | contracts/telos.gpu/include/telos.gpu/telos.gpu.hpp:246-250 | with one row per worker, the `bytime` view holds no worker twice |
| Quorum.PickedFromRange | contracts/telos.gpu/src/worker.cpp:220-231 | every picked worker differs from the submitter and owns a row of the request in the range; over distinct workers, the payments vector has no duplicate |
| Quorum.Payees | contracts/telos.gpu/src/worker.cpp:211-231 | the payments vector has between 1 and `cap + 1` names, the submitter last |
| Quorum.ErasingKeepsOneRow | contracts/telos.gpu/src/worker.cpp:226 | erasing rows keeps one row per worker |
| Quorum.ScanRangeDistinct | contracts/telos.gpu/src/worker.cpp:216-220 | the range the settlement walks holds no worker twice |
| Quorum.ScanRangeRows | contracts/telos.gpu/src/worker.cpp:216-220 | each entry of the range is a row of the table submitted at or after the timestamp |
| Quorum.PayeesDistinct | contracts/telos.gpu/src/worker.cpp:220-231 | no name appears twice in the payments vector |
| Quorum.PayeesQualify | contracts/telos.gpu/src/worker.cpp:220-231 | every payee but the submitter owns a row of this request submitted at or after its timestamp, whatever that row's hash |
| Cards.OwnerViewEntries | contracts/telos.gpu/include/telos.gpu/telos.gpu.hpp:178-185 | the `byowner` view is ordered, with one entry per card keyed by owner |
| Cards.FindSplitsOwners | contracts/telos.gpu/src/worker.cpp:83-84 | from `find(account)` on, the view holds exactly the keys at least `account`, provided `account` owns a card; otherwise `find` is the end |
| Cards.SweepKeeps | contracts/telos.gpu/src/worker.cpp:82-86 | the sweep keeps a card exactly when `account` owns no card, or the card's owner has a lower name value than `account` |
| Cards.SweepRemovesOwnCards | contracts/telos.gpu/src/worker.cpp:82-86 | no card of `account` survives the sweep |
| Cards.SweepTakesHigherOwners | contracts/telos.gpu/src/worker.cpp:84-86 | worker 1 unregistering also erases worker 2's card |
| Settlement.NewResult | contracts/telos.gpu/src/worker.cpp:187-195 | the emplaced row's id exceeds every id in the table |
| Settlement.CountsOwnRow | contracts/telos.gpu/src/worker.cpp:197-204 | the caller's new row always counts, so the count is at least 1 |
| Settlement.AppendedCounts | contracts/telos.gpu/src/worker.cpp:187-204 | after the emplace, the match count is at least 1 |
| Settlement.Settles | contracts/telos.gpu/src/worker.cpp:197-207 | the quorum test `match == min_verification` can hold only for `min_verification >= 1`, since the caller's own row is always counted |
| Settlement.Accept | contracts/telos.gpu/src/worker.cpp:172-256 | `submit` fails after its checks exactly when it settles and the reward's precision differs from the token's, and then changes nothing; below the quorum the users stay, the new row is added and the request stays; at the quorum the request goes; no other request changes |
| Settlement.SettlementWaits | contracts/telos.gpu/src/worker.cpp:172-207 | below the quorum nothing is paid or erased: the users stay, the results gain exactly the caller's row, and the request keeps every field but its status list, which is one shorter and holds exactly the old entries of other workers |
| Settlement.NewRowKeepsInvariant | contracts/telos.gpu/src/worker.cpp:182-195 | since the guard found no row of the caller, emplacing keeps ids ascending and one row per worker |
| Settlement.SettlementErasesRows | contracts/telos.gpu/src/worker.cpp:216-229 | a settlement erases exactly the request's rows submitted at or after its timestamp, the caller's new row among them when it qualifies; every other row stays |
| Settlement.SettlementPayees | contracts/telos.gpu/src/worker.cpp:211-231 | the payees are distinct, at most `min_verification` of them, the caller last, and every other one owns a qualifying row of the request, whatever its hash |
| Settlement.SettlementCredits | contracts/telos.gpu/src/worker.cpp:250-251 | each payee gets the share exactly once, a payee without an account gets one, and no other account changes |
| Settlement.SettlementWithinReward | contracts/telos.gpu/src/worker.cpp:238-251 | for a non-negative reward, all the shares together never exceed the escrowed reward |
| Gpu.Contract.GetAndIncrementNonce | contracts/telos.gpu/include/telos.gpu/telos.gpu.hpp:254-260 | fails on a missing config; otherwise returns the stored nonce and stores its successor modulo 2^64, and nothing else of the config changes |
| Gpu.Contract.SubBalance | contracts/telos.gpu/src/balance.cpp:44-53 | the outcome is `DebitCheck`; a failure leaves `users` as it was, and a pass debits exactly the owner's row |
| Gpu.Contract.AddBalance | contracts/telos.gpu/src/balance.cpp:55-68 | `users` becomes `Credited(users, owner, value)` |
| Gpu.Contract.PayAll | contracts/telos.gpu/src/worker.cpp:250-251 | the loop credits the payees in order: `users` becomes `CreditAll(users, payees, value)` |
| Gpu.Contract.Deposit | contracts/telos.gpu/src/balance.cpp:6-25 | no-op when the contract sends or is not the receiver; then fails, in order, on a missing config, the wrong token contract, a non-positive amount or the wrong symbol; passes exactly when it is a no-op or every check holds, and then credits the sender exactly `quantity` |
| Gpu.Contract.Withdraw | contracts/telos.gpu/src/balance.cpp:27-42 | fails on a missing config; otherwise the outcome and new `users` are those of `sub_balance` |
| Gpu.Contract.Enqueue | contracts/telos.gpu/src/user.cpp:5-31 | fails, in order, on no account, overdraft, missing config or an already used nonce, changing nothing; passes exactly when none of these holds, and then debits exactly the reward, advances the nonce by one, and files the request under the old nonce with an empty status list; reward and `min_verification` are not checked |
| Gpu.Contract.Dequeue | contracts/telos.gpu/src/user.cpp:33-44 | fails exactly on a missing request and passes exactly on an existing one, then credits the reward to the caller, whoever filed it, and erases the request, leaving the results |
| Gpu.Contract.RegWorker | contracts/telos.gpu/src/worker.cpp:6-26 | registers a new account, or changes only the url of an existing one |
| Gpu.Contract.AddCard | contracts/telos.gpu/src/worker.cpp:28-53 | fails exactly for an unregistered worker and passes exactly for a registered one, then appends the card under a fresh id |
| Gpu.Contract.RemCard | contracts/telos.gpu/src/worker.cpp:61-72 | fails exactly when no card has the id; otherwise erases that card, whoever owns it |
| Gpu.Contract.UnregWorker | contracts/telos.gpu/src/worker.cpp:74-89 | fails exactly for an unregistered account and passes exactly for a registered one, then erases the registration and every card from `byowner.find(account)` on, which is every card whose owner is at least `account` when it owns one, and keeps no card of its own |
| Gpu.Contract.WorkBegin | contracts/telos.gpu/src/worker.cpp:91-111 | fails on an unregistered worker, then a missing request, then as `Status.Begin` does; on a pass only that request's status list changes |
| Gpu.Contract.WorkUpdate | contracts/telos.gpu/src/worker.cpp:113-129 | fails on a missing request, then as `Status.Update` does; on a pass only that request's status list changes |
| Gpu.Contract.WorkCancel | contracts/telos.gpu/src/worker.cpp:131-148 | fails on a missing request, then as `Status.Cancel` does; on a pass only that request's status list changes |
| Gpu.Contract.Submit | contracts/telos.gpu/src/worker.cpp:150-258 | fails, in order, on a missing config, a missing request, a wrong request hash, no status entry, or a result row already held on any request, changing nothing; once the checks pass, the outcome and tables are those of `Settlement.Accept` |
| Gpu.Contract.Record | contracts/telos.gpu/src/worker.cpp:172-257 | the writes after the checks end in the outcome and tables of `Settlement.Accept`, keeping `Valid()` |
| Gpu.Contract.Conclude | contracts/telos.gpu/src/worker.cpp:207-256 | at the quorum, the tables end as `Settlement.Accept` says |
| Gpu.Contract.Payout | contracts/telos.gpu/src/worker.cpp:211-255 | the payees are credited, the request erased and the settled rows erased |
| Gpu.Contract.Distribute | contracts/telos.gpu/src/worker.cpp:211-251 | the scan erases the settled rows and the payment loop credits the payees |
| Gpu.Contract.Settle | contracts/telos.gpu/src/worker.cpp:211-231 | the scan yields `Quorum.Payees` and leaves the results without `Quorum.SettledIds`, keeping ids ascending and one row per worker |
| Gpu.Scan | contracts/telos.gpu/src/worker.cpp:216-229 | the `bytime` loop from `lower_bound` picks `Quorum.Picked` of the range and erases exactly this request's rows in it |
| Gpu.Sweep | contracts/telos.gpu/src/worker.cpp:83-86 | the `byowner` loop from `find(account)` erases exactly `Cards.SweptIds` |

## Left out

- Authorization: `require_auth` is the chain's business. Each action takes its caller as a parameter and is assumed authorized.
- `print` and `require_recipient` have no effect on the tables and are not modelled.
- Time: `current_time_point()` is the parameter `now`, in whole seconds.
- SHA-256: `assert_sha256` compares against `sha256`, a function supplied when the contract is constructed. SHA-256 itself (FIPS 180-4) is not modelled.
- RAM payers (`emplace`/`modify` payer arguments, `same_payer`) are not modelled.
- The inline `transfer` action that `withdraw` sends is not modelled; `Withdraw` ends after the debit.
- `Worker.left` is never written by the core; a new registration stores 0.
- Names and `checksum256` values are ordered naturals. The `name` encoding and the byte order of `checksum256` comparisons are not modelled.
- `regworker`, `addcard`, `remcard` and `unregworker` are declared in contracts/telos.gpu/include/telos.gpu/telos.gpu.hpp:80-108 without `[[eosio::action]]`, so the ABI may not expose them as actions. The model treats them as callable like the others; whether a transaction can reach them is not modelled.
- `workbegin` reads an undeclared `_workers` member; the model reads the `workers` table.
- contracts/telos.gpu/src/telos.gpu.cpp is not part of this model: it is an earlier revision that cannot be built with the other files.
- contracts/telos.gpu/src/system.cpp is not part of this model. Its `config` action is replaced by the constructor's `config` argument, and `clean` wipes tables for testing.
- eosio.trail/include/eosio.trail.hpp is not part of this model: it holds declarations only.
- Assets.IPow: `int64_t` overflow of `ipow` is not modelled; integers are unbounded. Precisions up to 18 do not overflow.
- Assets.Divide: the `int128_t` product and the `(uint64_t)` cast of the quotient are not modelled, nor is the range check of the `asset` constructor.
- Assets.Multiply: the same `int128_t` and `(uint64_t)` truncations, and the `asset` range check, are not modelled.
- Ledger.Debited: eosio's `asset -=` aborts on a symbol mismatch or an out-of-range result. The model subtracts amounts and keeps the stored symbol.
- Ledger.Credited: eosio's `asset +=` aborts on a symbol mismatch or overflow. The model adds amounts and keeps the stored symbol.
- Quorum.CountMatches: the `uint32_t` counter is unbounded in the model.
- Quorum.Picked: the `uint32_t` expression `min_verification - 1` would wrap for 0. It cannot be reached, because the count is at least 1 and must equal `min_verification`.
- Gpu.Contract.Record: at the quorum, `submit` first rewrites the request's status list and then erases the request. The model writes only the erasure, which is all that remains visible. It erases the request before paying rather than after; the tables are disjoint and the action is atomic, so the end state is the same.

### Behaviour of the code worth knowing

The model follows the code in each of these cases:

- **Check order.** `submit` checks the request hash first, then the caller's status entry, and only then whether the caller already holds a result row.
- **Match count.** The count starts at the first `byresult` entry with this hash and runs to the end of the index, so it covers every row, of any request, whose hash is at least this one (`Quorum.CountSpansRequests`).
- **Payees.** The payees besides the submitter are the first `min_verification - 1` workers of the request in `bytime` order from its timestamp on, whatever hash they submitted (`Quorum.PayeesQualify`).
- **Rows erased.** A settlement erases only the request's rows submitted at or after the request's timestamp (`Quorum.SettlementErases`).
- **Share.** The share divides one smallest unit by `k` and multiplies the reward by that, giving `R * floor(10^p / k) / 10^p` with the last division truncated toward zero, as `int128_t` division does; for a negative reward (nothing checks the sign) this rounds up, not down. At precision 0 and `k >= 2` it is 0 (`Assets.ZeroPrecisionPaysNothing`).
- **`dequeue`.** The escrowed reward goes to the caller; nothing compares the caller with the request's `user`.
- **`workbegin` cap.** The guard is `size <= max_workers`, so `max_workers + 1` entries are admitted (`Status.BeginCapOffByOne`).
- **`enqueue` checks.** Neither `min_verification` nor the reward's sign is checked. A request with `min_verification` 0 can never settle, because the count includes the caller's own row (`Settlement.Settles`); only `dequeue` releases its reward.
- **Debit errors.** `sub_balance` fails one way on a missing account and another on an overdraft.
- **`unregworker`.** The sweep from `byowner.find(account)` to the end erases the cards of every owner with a higher name value too (`Cards.SweepTakesHigherOwners`).
- **`remcard`.** The card is erased whoever owns it; its owner is not compared with the caller.
- **Request preimage.** The nonce, body and inputs are concatenated with no separator, so different requests can share a preimage (`Quorum.PreimageNotFieldSeparated`).
