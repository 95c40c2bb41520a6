# A model of the gas.js multi-wallet bot

`gas.js` is a Node script that runs a fixed routine for every private key
found in the environment, on an Arbitrum Sepolia test network. For each
wallet it shows the balances, claims six test-token faucets, swaps four
tokens through their routers and stakes six tokens in their staking
contracts. Then it shows the balances again. Every 24 hours it repeats
the whole pass.

This project models the decision logic of that routine in Dafny and
proves what it does. The chain, the faucets and the wallet library are
code the model cannot see, so they become oracles:

- **Credentials** (`credentials.dfy`). `getPrivateKeys` is a loop over
  `PRIVATE_KEY_1`, `PRIVATE_KEY_2`, …. It stops at the first variable
  that is missing or empty. It falls back to `PRIVATE_KEY` only when no
  numbered key exists. The loop is written as a method with invariants;
  the key list it must return is defined by an independent predicate,
  `IsKeyList`.
- **Call data** (`abi.dfy`). A swap or stake transaction carries a 4-byte
  method id written as hex text, followed by the hex text of one ABI
  `uint256` word: the amount as 32 bytes, big-endian, zero-left-padded.
  The Solidity Contract ABI Specification calls this a "function
  selector" followed by the "formal specification of the encoding" for
  `uint<M>`. The model builds the data the way the script builds it, as
  text: `methodId + encode(['uint256'], [amount]).slice(2)`. It proves
  that the text parses back to the selector bytes followed by the
  amount's word.
- **Configuration** (`config.dfy`). `globalConfig` is modelled as a value.
  Each object literal is an ordered key/value table in insertion order,
  which is the order `Object.keys` and `Object.entries` visit for keys
  that are not array indices.
- **Swap and stake** (`plans.dfy`). `swapToken` and `stakeToken` are pure
  functions. Each takes the configuration, the token name and the
  replies of the chain (`Chain`). It returns the boolean the script
  returns together with the ordered trace of chain calls it makes:
  balance read, allowance read, approval, send. A thrown call is a reply
  of the oracle. The `catch` that turns it into `false` is modelled.
- **One wallet and the batch** (`runner.dfy`). `runBot` is a sequence of
  steps: status, one claim per faucet endpoint, the gated swaps, one
  stake per stake contract, status. Each step is answered by one
  observation of the outside world. `runAllBots` runs the wallets in key
  order.

JavaScript details that the branches depend on are modelled explicitly:

- `!x` is true for `undefined` and `""` (`Base.Truthy`).
- `a || b` returns the first truthy operand (`Base.Or`).
- `undefined + "…"` renders as `"undefined…"` (`Base.Render`).
- A template literal prints an index in decimal (`Credentials.Decimal`).

Behaviour of the code that the model keeps, because the branches depend
on it:

- `swapToken` checks the router and the method id before it reads the
  balance (gas.js:120-132). An unconfigured token makes no chain call at
  all (`Plans.SwapSkipIff`).
- `stakeToken` never reads the allowance. It always approves the whole
  balance before staking (gas.js:187-193; `Plans.StakeIgnoresAllowance`,
  `Plans.StakeTransactions`).
- `checkWalletStatus` is not inside a `try` (gas.js:211-219, 244, 260).
  A failed read there propagates out of `runBot` and out of the loop of
  `runAllBots`, which ends the pass for the remaining keys. The same
  happens when `new Wallet` rejects a key (gas.js:89, 274). A run
  completes exactly when both status displays return
  (`Runner.RunBotCompletes`, `Runner.RunBotCompletesOnlyIf`); a pass runs
  every key to the end when every key is accepted and every status
  display returns (`Runner.BatchCompletes`).
- The ai16z swap is gated on the vnusd router, not its own
  (gas.js:250; `Runner.SwapGating`).
- A token without an address makes `new Contract(undefined, …)` fail, so
  the balance read throws and the call returns false (gas.js:99, 128,
  184). Call data that is not "0x"-prefixed hex, such as the
  "undefined…" text a missing `stake` method id produces, is refused by
  `sendTransaction` before anything is sent (gas.js:156-157, 196-197;
  `Plans.MissingStakeIdNeverStakes`). Neither happens under
  `globalConfig` (`Plans.GlobalSwapConfigured`, `Plans.GlobalTokensPresent`,
  `Plans.GlobalStakeSelector`).

## Model

| member | source | states |
|---|---|---|
| Base.Or | gas.js:179 | `a \|\| b` is one of its operands, and it is truthy exactly when `a` or `b` is; a truthy `a` wins |
| Base.TruthyRender | gas.js:196 | a truthy string concatenates as itself and is non-empty; a falsy one concatenates as "" or, when undefined, as "undefined" |
| Base.Lookup | gas.js:120-122 | a property access is `undefined` exactly when the key is not in the object; otherwise its value is that of an entry with that key |
| Base.LookupEntry | gas.js:36-41 | in an object literal (distinct keys), access by the key of an entry gives that entry's value |
| Base.KeysOf | gas.js:252 | `Object.keys`/`Object.entries` visit one key per entry, in insertion order (for keys that are not array indices); `Base.Lookup` finds exactly these keys |
| Credentials.DecimalInjective | gas.js:74 | distinct indices print as distinct decimal texts |
| Credentials.KeyNameInjective | gas.js:74 | distinct indices name distinct `PRIVATE_KEY_<i>` variables |
| Credentials.Decimal | gas.js:74 | the index prints as at least one decimal digit, only digits, no leading zero for a positive index; `Credentials.DecimalValue` shows the digits denote the index |
| Credentials.DecimalValue | gas.js:74 | the decimal text of an index is a run of digits whose value, read most significant digit first, is the index |
| Credentials.NumberedKeys | gas.js:72-78 | the loop returns the values of `PRIVATE_KEY_1..n` in index order, each present, and `PRIVATE_KEY_(n+1)` is missing or empty; it terminates |
| Credentials.NumberedPrefixGrows | gas.js:74-77 | pushing the next present key keeps the list a prefix of the numbered run |
| Credentials.GetPrivateKeys | gas.js:70-83 | the result is the numbered run when `PRIVATE_KEY_1` is set, otherwise `[PRIVATE_KEY]` when that is set, otherwise empty |
| Credentials.NumberedRunUnique | gas.js:73-78 | at most one list is a numbered run of a given environment |
| Credentials.KeyListUnique | gas.js:70-83 | the environment determines the key list |
| Credentials.GapBound | gas.js:75 | no key at or beyond the first missing or empty index is listed |
| Credentials.KeyListShape | gas.js:70-83 | the list is empty iff neither `PRIVATE_KEY_1` nor `PRIVATE_KEY` is set; it has at most one element without numbered keys; element k is `PRIVATE_KEY_(k+1)`; nothing past a gap |
| Credentials.SingleKeyNotNumbered | gas.js:79 | `PRIVATE_KEY` is never one of the numbered names |
| Credentials.SingleKeyIgnored | gas.js:79-81 | once `PRIVATE_KEY_1` is set, changing `PRIVATE_KEY` does not change the key list |
| Abi.WordLimitIsPow256 | gas.js:156 | 2^256 = 256^32: a `uint256` fits exactly one 32-byte word |
| Abi.Pow256Add | gas.js:156 | 256^(a+b) = 256^a · 256^b |
| Abi.ToBigEndian | gas.js:156 | n bytes, most significant first; `Abi.FromToBigEndian` and `Abi.ToFromBigEndian` show it is inverse to `Abi.FromBigEndian` below 256^n |
| Abi.FromBigEndian | gas.js:156 | the value of n big-endian bytes is below 256^n |
| Abi.FromToBigEndian | gas.js:156 | decoding the n-byte big-endian encoding of x < 256^n gives x back |
| Abi.ToFromBigEndian | gas.js:156 | encoding the value of a byte string at its own width gives the bytes back |
| Abi.LeadingZeros | gas.js:156 | when x fits in k bytes, all bytes before the last k of its n-byte encoding are zero |
| Abi.ZeroEncoding | gas.js:156 | zero encodes as all zero bytes |
| Abi.Word | gas.js:156 | the word of a `uint256` is 32 bytes that decode to it |
| Abi.EncodeUint256 | gas.js:156 | `encode(['uint256'], [x])` is 66 characters starting with "0x" |
| Abi.Calldata | gas.js:156 | the call data is the method id followed by 64 characters, the encoded amount with its `0x` dropped |
| Abi.CalldataDigits | gas.js:156 | the 64 characters after the method id are all hex digits |
| Abi.Hex | gas.js:156 | two lower-case hex digits per byte; `Abi.ParseHex` reads them back |
| Abi.ParseHexDigits | gas.js:156 | a parsed run of hex digits has two digits per byte |
| Abi.HexDigitValue | gas.js:156 | each lower-case hex digit reads back as its value |
| Abi.HexPair | gas.js:156 | two digits of a byte in front of parsable text add that byte in front |
| Abi.ParseHex | gas.js:156 | hex text parses back to its bytes |
| Abi.ParseHexAppend | gas.js:156 | parsing two runs of hex digits one after the other concatenates their bytes |
| Abi.ParseHexPrefix | gas.js:156 | if digits followed by a parsable run parse, the leading digits parse on their own |
| Abi.HexDataAppend | gas.js:196 | appending parsable hex digits leaves a text hex data exactly when it was |
| Abi.HexDigitsAppend | gas.js:196 | behind "0x", appending parsable digits keeps the text hex data exactly when it was |
| Abi.NoPrefixAppend | gas.js:196 | a text without the "0x" prefix does not gain one by appending hex digits |
| Abi.CalldataIsHex | gas.js:196-197 | the call data is data `sendTransaction` accepts exactly when the method id is "0x"-prefixed hex |
| Abi.EncodeUint256Decodes | gas.js:156 | the encoded word parses to the 32-byte word, which decodes to the amount |
| Abi.ParseHexDataAppend | gas.js:156 | hex data followed by parsable digits parses to the data's bytes followed by the digits' bytes |
| Abi.CalldataBytes | gas.js:156 | the call data parses to the selector's bytes followed by the amount's word |
| Abi.CalldataLayout | gas.js:156 | for a 4-byte selector the call data is 36 bytes: bytes 0..4 are the selector, 4..36 the word that decodes to the amount |
| Abi.CalldataInjective | gas.js:196 | under one selector, distinct amounts give distinct call data |
| Settings.GlobalTablesDistinct | gas.js:22-60 | every table of `globalConfig` has distinct keys |
| Settings.GlobalMethodIds | gas.js:50-55 | virtual, vnusd and ai16z share swap id 0xa6d67510, ath has 0x1bf6318b, staking has 0xa694fc3a |
| Settings.MethodIdBytes | gas.js:50-55 | "0x" followed by the lower-case hex of some bytes parses to those bytes |
| Settings.SwapSelectorBytes | gas.js:51 | the shared swap id is the selector a6 d6 75 10 |
| Settings.AthSwapSelectorBytes | gas.js:52 | the ath swap id is the selector 1b f6 31 8b |
| Settings.StakeSelectorBytes | gas.js:55 | the stake id is the selector a6 94 fc 3a |
| Plans.Txs | gas.js:142-162 | the transactions of a trace are no more than the trace and are all transactions |
| Plans.TxsAppend | gas.js:142-162 | the transactions of two traces, one after the other, are the transactions of each, in order |
| Plans.TxsOfReads | gas.js:128-137 | a trace of reads only contains no transaction |
| Plans.TxsOfTxs | gas.js:142-162 | a trace of transactions only is its own transaction list |
| Plans.TxsAfterReads | gas.js:128-162 | reads followed by transactions: the transactions are the tail |
| Plans.SwapToken | gas.js:117-175 | without a truthy router and method id: false and no chain call; otherwise the balance of the configured token is read first; true only if the token has an address, and the swap transaction confirmed; every approval precedes every send |
| Plans.SwapCall | gas.js:128-170 | the balance read comes first; true only if the token address is defined and the send confirmed; approvals precede sends |
| Plans.SwapAfterBalance | gas.js:134-162 | after a positive balance the allowance is read second; true only if the swap transaction confirmed; approvals precede sends |
| Plans.StakeTokenAddress | gas.js:179 | the override wins when truthy, the default `null` gives the configured address; the address is truthy exactly when the override or the configured one is, and undefined exactly when the override is falsy and the token is not configured |
| Plans.StakeToken | gas.js:177-209 | without a truthy stake contract: false and no chain call; otherwise the balance of the chosen token is read first; true only if that token has an address and the stake transaction confirmed; approvals precede sends |
| Plans.StakeCall | gas.js:184-200 | the balance read comes first; true only if the token address is defined and the send confirmed; approvals precede sends |
| Plans.StakeMethodId | gas.js:196 | the configured `stake` id when there is one; without one the text "undefined", which is not hex data |
| Plans.SwapSkipIff | gas.js:120-126 | `swapToken` makes no chain call exactly when the router or the `<name>Swap` method id is falsy, and then returns false |
| Plans.SwapZeroBalance | gas.js:128-132 | a zero balance gives false and no transaction |
| Plans.SwapTransactions | gas.js:128-162 | with positive balance b and allowance a: nothing without a token address; only the send when a ≥ b; approve(router, b) then the send when a < b and the approval confirmed; only the approval when it failed; the send is dropped when the method id is not hex |
| Plans.SwapCallTransactions | gas.js:128-162 | the same case split for the chain calls after the configuration check |
| Plans.SwapCallNoApproval | gas.js:140-162 | when the allowance covers the balance no approval is made, and the swap is the only transaction when its data is hex |
| Plans.SwapCallApproval | gas.js:140-162 | when the allowance is short the whole balance is approved to the router first, and the swap follows only after a confirmed approval and when its data is hex |
| Plans.SwapSucceedsIff | gas.js:117-175 | true iff configured, the token has an address, the balance read returns a positive amount, the allowance read returns, any needed approval confirms, the method id is hex and the swap confirms |
| Plans.SwapSendsBalance | gas.js:156-162 | a successful swap ends with a send to the router whose data parses to the method id's bytes and the balance's 32-byte word |
| Plans.StakeSkipIff | gas.js:181-182 | `stakeToken` makes no chain call exactly when the stake contract is falsy, and then returns false |
| Plans.StakeZeroBalance | gas.js:184-185 | a zero balance gives false and no transaction |
| Plans.StakeIgnoresAllowance | gas.js:187-193 | the allowance plays no part in staking |
| Plans.StakeTransactions | gas.js:184-198 | with a token address and a positive balance the whole balance is approved to the stake contract, for the override token if given, and the stake is sent after it unless the approval failed or the stake id is not hex; without an address nothing is sent |
| Plans.StakeCallTransactions | gas.js:184-198 | the same case split for the chain calls after the stake-contract check |
| Plans.StakeSucceedsIff | gas.js:177-209 | true iff there is a stake contract, the token has an address, the balance read returns a positive amount, the approval confirms, the stake id is hex and the stake confirms |
| Plans.StakeSendsBalance | gas.js:196-197 | a successful stake ends with a send to the stake contract whose data parses to the stake selector's bytes and the balance's word |
| Plans.MissingStakeIdNeverStakes | gas.js:196-197 | without a `stake` method id no stake transaction is ever sent and `stakeToken` returns false |
| Plans.GlobalStakeSelector | gas.js:196 | under `globalConfig` the stake method id is the selector a6 94 fc 3a |
| Plans.GlobalSwapConfigured | gas.js:36-55 | under `globalConfig` exactly virtual, ath, vnusd and ai16z have a truthy router and a truthy `<name>Swap` id |
| Plans.GlobalSwapEntry | gas.js:36-55 | a router entry with the `<name>Swap` id at the same position is configured |
| Plans.GlobalTokensPresent | gas.js:25-49 | every token `runBot` swaps or stakes under `globalConfig` has a token address |
| Runner.SwapSteps | gas.js:247-250 | the swap section holds only swaps |
| Runner.ClaimSteps | gas.js:231-239 | one claim per faucet endpoint, in endpoint order; `Runner.ClaimStepsMembers` says which claims occur, and `Runner.ClaimsAfterStatus` where they sit in a wallet's run |
| Runner.ClaimStepsMembers | gas.js:231-239 | a claim is made exactly for the (name, URL) pairs of the endpoint table |
| Runner.StakeSteps | gas.js:252-258 | one stake per stake-contract key, in key order; `Runner.StakeStepsMembers` says which stakes occur, and `Runner.StakesBeforeStatus` where they sit in a wallet's run |
| Runner.StakeStepsMembers | gas.js:252-258 | a stake is made exactly for the stake-contract keys, with the override token address exactly for vnusd |
| Runner.WorkSteps | gas.js:245-258 | no step between the two status displays is a status display |
| Runner.WalletSteps | gas.js:242-262 | a wallet's steps open and close with the status display |
| Runner.ExecStep | gas.js:242-262 | only a throwing status display throws; a claim or status step makes no transaction; a claim is ok exactly on HTTP 200; swaps and stakes are `swapToken`/`stakeToken` on that step's chain replies |
| Runner.RunSteps | gas.js:242-262 | steps run in order, each on its own observation; the run is complete when no status display throws; a short run ends at the throwing status display and nothing before it threw |
| Runner.RunBot | gas.js:242-262 | the run has at least the opening status outcome and at most one outcome per step; a short run ends with a thrown status display, and nothing before it threw |
| Runner.RunWallets | gas.js:272-277 | wallets run in key order, each on its own observations; every wallet but the last finished; a short pass ends at a wallet that did not finish |
| Runner.RunBatch | gas.js:265-277 | nothing runs exactly when the key list is empty; otherwise between one and all keys run, the k-th wallet with the k-th key; `Runner.BatchOrder` adds that every wallet runs under the given configuration |
| Runner.RunAllBots | gas.js:265-279 | nothing runs exactly when neither `PRIVATE_KEY_1` nor `PRIVATE_KEY` is set; the returned key list is the one `getPrivateKeys` must return, and the pass is the batch over it, under `globalConfig` and the script's faucet table |
| Runner.SwapGating | gas.js:247-250 | virtual, ath and vnusd are swapped iff their router is truthy, ai16z iff the vnusd router is; no other token is swapped |
| Runner.SwapStepsMembers | gas.js:247-250 | a swap is in the swap section iff its gate holds |
| Runner.SwapsOnlyFromSwapSteps | gas.js:245-258 | claims and stakes contribute no swap |
| Runner.StatusFirstAndLast | gas.js:242-262 | the status display is exactly the first and the last step |
| Runner.ClaimsAndStakes | gas.js:242-262 | the claims follow the first status, one per endpoint in endpoint order; the swaps follow them; the stakes precede the last status, one per stake-contract key in key order, vnusd with the override address |
| Runner.ClaimsAfterStatus | gas.js:244-245 | the k-th step after the first status display is the claim at the k-th endpoint |
| Runner.SwapsAfterClaims | gas.js:245-250 | the gated swaps come right after the last claim, in order |
| Runner.StakesBeforeStatus | gas.js:252-260 | the stakes come right before the second status display, one per stake-contract key in key order, vnusd with the override address |
| Runner.StepLayout | gas.js:242-262 | where claims, swaps and stakes sit in a bracketed run of steps |
| Runner.GlobalSwapSteps | gas.js:247-250 | under `globalConfig` all four swaps run: virtual, ath, vnusd, ai16z |
| Runner.AllSwaps | gas.js:247-250 | with truthy virtual, ath and vnusd routers the swaps are virtual, ath, vnusd, ai16z, in that order |
| Runner.GlobalStakeSteps | gas.js:252-258 | under `globalConfig` the stakes are ausd, usde, lvlusd, vusd, vnusd (override address), azUSD |
| Runner.GlobalClaimSteps | gas.js:223-239 | the six faucet claims, in literal order, with their exact URLs |
| Runner.GlobalWalletSteps | gas.js:242-262 | under `globalConfig` a wallet's run is status, the claims, four swaps, six stakes, status |
| Runner.RunBotCompletes | gas.js:242-262 | when both status displays return, every step is attempted whatever the claims, swaps and stakes do, and the run ends with the second status display |
| Runner.RunBotCompletesOnlyIf | gas.js:242-262 | a run in which no status display throws had both status displays return |
| Runner.ZeroBalanceRun | gas.js:242-262 | with every balance zero the run completes, all claims are made, and no transaction is sent |
| Runner.ZeroBalanceStep | gas.js:129-132 | a step whose balance read is zero makes no transaction |
| Runner.BatchOrder | gas.js:272-277 | wallets run in key order, each with its own position's observations; every one but the last finished |
| Runner.WalletFinishes | gas.js:274-275 | an accepted key whose two status displays return finishes its run |
| Runner.BatchCompletes | gas.js:272-277 | when every key is accepted and every status display returns, every key is run to the end |

## Left out

- Console output and colours are left out. So are the "Claimed" log, `formatStakingReport` and `sendReport`. `sendReport` only logs and returns true, so it cannot change a result.
- Delays (`delay`, `setTimeout`) are left out. Every call is awaited in sequence, so they change timing only, never the order of calls.
- `setInterval` and the 24-hour repetition are left out. One pass of `runAllBots` is modelled. The `.then`/`.catch` attached to it only log.
- The JSON-RPC provider and `new Wallet` are left out. Whether a key is accepted is the parameter `World.validKey`. Deriving the address from the key is not modelled.
- `getTokenBalance` is one balance reply. It calls `decimals`, then `balanceOf`, then `symbol`. A failure of `decimals` or `balanceOf` is the `Throws` reply. A failure of `symbol` is caught inside and only changes the display name.
- `checkWalletStatus` (ETH balance and every token balance) is one flag per status step: whether all of its reads returned. The values it prints are not modelled.
- The faucet POST is one HTTP reply per claim step: a status code or a thrown request error. The request body and the response data are not modelled.
- The `rpc` and `chainId` fields are carried in `Config`, but no modelled operation reads them.
- Base.KeysOf: keys are listed in insertion order. JavaScript lists array-index keys ("0", "1", …) first, in ascending numeric order; no object of the script has such a key, but lemmas over an arbitrary `Config` assume insertion order.
- Base.Lookup: a table with a repeated key answers with its first entry, while a JavaScript object literal keeps the last value written. The script's own tables have distinct keys (`Settings.GlobalTablesDistinct`), but lemmas over an arbitrary `Config` with a repeated key describe first-entry lookup.
- Property lookup sees only an object's own entries. Keys inherited from `Object.prototype` are not modelled; no token name here is one.
- An address that is present but not a valid address, in the configuration or as the override, is passed on to the chain's replies like any other, which may throw. Only an undefined token address and call data that is not hex are refused by the model itself.
- The boolean that `approve` returns is ignored by the script, and so by the model. "Confirmed" means `approve` and its `wait` returned.
- `Runner.ExecStep`: a claim's outcome records only whether the reply was HTTP 200, which is the only thing the script branches on. The model keeps no other detail of the reply.
- The step functions take the faucet table as a parameter. `RunAllBots` passes `FAUCETS`, the literal of `claimFaucets`. Most lemmas hold for every table.
