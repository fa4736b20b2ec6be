# ronin-restake: the event scan, the cooldown and the fee data, in Dafny

The repository is a script that claims and restakes AXS staking rewards on the Ronin chain.
Before it sends the claim it must know when the account last staked, and the chain does not
say so directly: the script reads the `Staked` logs of the account, and the JSON-RPC endpoint
refuses log queries over more than 500 blocks. The core modelled here is:

- **The scan** (`internalReadEvents` in `src/Restake-AXS.ts`). It starts `28 800 · days`
  blocks below the head (28 800 three-second blocks make a day). It steps back 500 blocks at
  a time until the block there is at least `days` whole days old. Then it queries the logs
  window by window up to the head and sorts the collected entries by block number.
  - Module `EventScan`: `RefineStartBlock` is the backward loop and `QueryWindows` the forward
    do-while, both as methods with loop invariants. `Windows` is the list of windows that
    the do-while queries, and `Collected` the concatenation of their results. `SortByBlock`
    is the stable sort by block number. `ScanEvents` puts the three steps together.
  - The source computes the end of the first window once, from the start block before the
    backward steps. After `k` steps the first window therefore spans `500 · (k + 1)` blocks.
    For `k > 0` that is more than the 500 the endpoint accepts. The model keeps this as
    written (`FirstWindowSpan`).
- **The key check** (lines 101-102). The key string loses two characters, is cut into pairs,
  and each pair is parsed as hexadecimal. The resulting buffer must hold 32 bytes. This is
  module `PrivateKey`.
- **The cooldown** (lines 44-61). The last entry of the sorted list is taken as the last claim.
  A claim is sent when `floor((now − date) / 86 400 000) ≥ 1`. Otherwise the user is told to
  wait until that date plus 24 hours. An empty list makes line 46 read element −1 and the run
  ends with a TypeError. This is module `Cooldown`.
- **The run** (`RestakeRewards`, `ReadEvents` and the assertions of `internalReadEvents`). The
  assertions are checked in the source's order, then come the scan (one day back) and the
  decision. This is module `Restake`.
- **The fee data** (`getFeeData` in `src/WrappedJsonProvider.ts`). When the latest block has a
  base fee, the priority fee is the gas price, or 1.5 gwei when the gas-price query failed.
  The fee cap is twice the base fee plus the priority fee. Otherwise the three EIP-1559 fields
  are null. This is module `FeeData`.

The node and the libraries are inputs; nothing calls a network:
- `ts : int -> int` gives block times in milliseconds. In `Restake` it is the block timestamp
  in seconds times 1000, which is taken to be what `fromBlockchainTimestamp` computes.
- `query : (int, int) -> seq<Event>` is `queryFilter` over a block range.
- The chain height, whether the contract answers (`isValidAPIKey`), ethers' address check and
  the wallet's address derivation are parameters too.
- `addHours(24)` is taken as adding 86 400 000 ms.
- JavaScript's `Math.floor(x / 86400000)` is Dafny's `x / 86400000`. Dafny divides
  Euclidean-style, which rounds down for a positive divisor, negative `x` included.

Facts about the code that the model keeps as written:
- The code reads only `Staked` logs; it reads no claim logs.
- The cooldown looks only at the last `Staked` entry of the sorted list.
- The first window is wider than 500 blocks, as described above.
- The do-while goes on while the next start is below the head, so a window starting at the head is not queried.
- An empty event list crashes at line 46; no claim is sent.
- The fee data are computed from the latest block and one gas-price query; nothing else is consulted, and a rejected transaction is not retried.

## Model

| member | source | states |
|---|---|---|
| `EventScan.AgeInDays` | src/Restake-AXS.ts:127-128 | the age in whole days is the floor of the millisecond difference over 86 400 000, also for a negative difference |
| `EventScan.OldEnough` | src/Restake-AXS.ts:127-129 | the loop's exit test holds iff at least 86 400 000 · days ms have passed |
| `EventScan.RefineStartBlock` | src/Restake-AXS.ts:124-134 | the result is the initial block minus 500·k; its block is at least `days` whole days old, and every earlier candidate was not |
| `EventScan.RefinementIsTight` | src/Restake-AXS.ts:124-134 | after k > 0 steps, the block 500 above the result is younger than `days` days |
| `EventScan.Windows` | src/Restake-AXS.ts:137-142 | at least one window is queried (do-while), and the first is exactly the given start..end |
| `EventScan.WindowsContiguous` | src/Restake-AXS.ts:140-141 | each later window starts one block after the previous end and spans exactly 500 blocks |
| `EventScan.WindowsOrdered` | src/Restake-AXS.ts:140-141 | every window has start ≤ end, none starts below the first start, and each ends before every later one starts |
| `EventScan.WindowsReachHead` | src/Restake-AXS.ts:137-142 | every window after the first starts below the head; after every window but the last the next start is below the head; after the last it is not, so the last end is ≥ head − 1 |
| `EventScan.WindowsCover` | src/Restake-AXS.ts:137-142 | every block from the first start to the last window's end is in some window |
| `EventScan.EveryBlockQueriedOnce` | src/Restake-AXS.ts:136-142 | every block from the first start to head − 1 lies in exactly one queried window |
| `EventScan.Collected` | src/Restake-AXS.ts:139 | the accumulator starts with the first window's batch, in the order the node returned it |
| `EventScan.CollectedMembers` | src/Restake-AXS.ts:139 | an entry is in the accumulator iff one of the windows' queries returned it |
| `EventScan.NoEventFetchedTwice` | src/Restake-AXS.ts:137-142 | if the node keeps to the queried range, no entry is returned for two different windows |
| `EventScan.QueryWindows` | src/Restake-AXS.ts:136-142 | the accumulator is the in-order concatenation of the query results of exactly the windows of `Windows` |
| `EventScan.Insert` | src/Restake-AXS.ts:143 | inserting into a sorted list keeps it sorted and adds exactly the one entry |
| `EventScan.InsertAtBlock` | src/Restake-AXS.ts:143 | the inserted entry goes in front of the entries of its own block, and other blocks are unchanged |
| `EventScan.SortByBlock` | src/Restake-AXS.ts:143 | the result is sorted by block number, is a permutation of the input, and keeps the fetch order within each block (stable) |
| `EventScan.StableSortUnique` | src/Restake-AXS.ts:143 | two sorted lists with the same entries in the same order at every block are equal |
| `EventScan.SortByBlockIsStableSort` | src/Restake-AXS.ts:143 | any sorted list that keeps each block's entries in input order is the result of SortByBlock |
| `EventScan.SortByBlockIdempotent` | src/Restake-AXS.ts:143 | sorting an already sorted list returns it unchanged |
| `EventScan.ScanEvents` | src/Restake-AXS.ts:115-144 | the start is the first old-enough candidate, and the result is the stable sort of the logs of the windows from that start to the head, with the first window ending at the end fixed before refinement |
| `EventScan.FirstWindowSpan` | src/Restake-AXS.ts:119-120 | the first window runs from head − 28 800·days − 500·k to head − 28 800·days + 499, so it spans 500·(k+1) blocks |
| `PrivateKey.HexDigitValue` | src/Restake-AXS.ts:101 | a hexadecimal digit has a value in [0, 16) |
| `PrivateKey.HexDigitPlace` | src/Restake-AXS.ts:101 | a digit's value is its place in `0123456789abcdef` or in `0123456789ABCDEF`, so both cases read the same |
| `PrivateKey.Body` | src/Restake-AXS.ts:101 | for a key of two or more characters the result is what follows the first two; a shorter key gives the empty string |
| `PrivateKey.Chunks` | src/Restake-AXS.ts:101 | the string is cut into ⌈n/2⌉ pieces; all have two characters except possibly a one-character last piece |
| `PrivateKey.FlattenChunks` | src/Restake-AXS.ts:101 | joining the pieces gives back the string |
| `PrivateKey.ChunksOfHex` | src/Restake-AXS.ts:101 | the pieces of a string of hex digits are one or two hex digits each |
| `PrivateKey.ChunkAt` | src/Restake-AXS.ts:101 | piece i is the slice of the string from 2i, of two characters or one at an odd end |
| `PrivateKey.ParseHex` | src/Restake-AXS.ts:101 | one or two hex digits parse to a value in [0, 256), and one digit to a value below 16 |
| `PrivateKey.ParseHexIsNumeral` | src/Restake-AXS.ts:101 | the parsed value of a chunk is its value as a base-16 numeral, most significant digit first |
| `PrivateKey.ParseAll` | src/Restake-AXS.ts:101 | the map keeps the length and parses each piece |
| `PrivateKey.BufferFrom` | src/Restake-AXS.ts:101 | the buffer keeps the length and stores each value modulo 256, and a value in [0, 256) unchanged |
| `PrivateKey.KeyBytes` | src/Restake-AXS.ts:101 | the buffer holds half as many bytes as `Body(key)` has characters, rounded up, which is ⌈(length − 2)/2⌉ for keys of two or more characters |
| `PrivateKey.KeyBytesAt` | src/Restake-AXS.ts:101 | byte i is the parsed value of the i-th pair of digits after the two-character prefix |
| `PrivateKey.DecodeKey` | src/Restake-AXS.ts:101-102 | the key is accepted iff 64 or 63 hex digits follow the prefix; then it yields 32 bytes, otherwise the wrong buffer length is reported |
| `PrivateKey.DecodeHexKey` | src/Restake-AXS.ts:101-102 | a prefix of two one-code-unit characters followed by the hex text of 32 bytes decodes to exactly those bytes |
| `PrivateKey.DecodeOddHexKey` | src/Restake-AXS.ts:101-102 | a prefix followed by the hex text of 31 bytes and one more digit decodes to those 31 bytes and the digit's value as the 32nd |
| `Cooldown.ClaimDecision` | src/Restake-AXS.ts:44-61 | an empty list is the line-46 crash; otherwise the last entry's block date is the last claim; a claim is sent iff at least 86 400 000 ms have passed; when waiting, the next instant is that date plus 24 h and still in the future |
| `Cooldown.LastIsHighest` | src/Restake-AXS.ts:45-46 | in a sorted list the last entry has the highest block number |
| `Cooldown.SendClaimIffAllStakesOld` | src/Restake-AXS.ts:44-55 | for a sorted list with monotonic block times, a claim is sent iff every Staked entry is at least a day old |
| `Cooldown.DecisionOnSortedScan` | src/Restake-AXS.ts:43-55 | with monotonic block times, on the sorted scan result a claim is sent iff every fetched entry is at least a day old, whatever order the node returned them in |
| `Cooldown.SortedLastBlocksAgree` | src/Restake-AXS.ts:45-46 | two sorted lists with the same entries have the same last block number |
| `Cooldown.SortedDecisionsAgree` | src/Restake-AXS.ts:44-61 | on sorted lists with the same entries the whole decision, dates included, is the same |
| `Cooldown.DecisionIgnoresFetchOrder` | src/Restake-AXS.ts:43-61 | the whole decision on the sorted scan, dates included, is the same for any order of the same fetched entries |
| `Cooldown.CooldownScenario` | src/Restake-AXS.ts:44-60 | a stake at T allows a claim at T + 25 h and asks to wait until T + 24 h at T + 23 h |
| `Restake.ReadPreflight` | src/Restake-AXS.ts:101-112 | the run passes the checks iff the key decodes to 32 bytes, the contract address is valid, the wallet address is non-empty, the API key is set and the contract answers; each check that fails after the earlier ones pass is the one reported, and a reported failure is always such a check; an unset contract address is never reported here |
| `Restake.InternalReadEvents` | src/Restake-AXS.ts:100-145 | a failed check is returned as that failure; otherwise the result is the stable sort of the Staked logs of the scanned windows, from the first old-enough start |
| `Restake.RestakeRewards` | src/Restake-AXS.ts:38-62 | an unset contract address aborts first; then the read checks; otherwise the scan starts at the first old-enough candidate and the decision is the cooldown rule on the one-day scan, measured at the claim instant |
| `Restake.RunClaimsIffEveryFetchedStakeIsOld` | src/Restake-AXS.ts:43-55 | with monotonic timestamps, the run crashes iff no entry was fetched, and otherwise claims iff every fetched Staked entry is at least a day old |
| `FeeData.CaughtGasPrice` | src/WrappedJsonProvider.ts:13-15 | a rejected gas-price query becomes null, and a price is kept as it is |
| `FeeData.BaseFee` | src/WrappedJsonProvider.ts:20 | the guard passes iff there is a block and it has a base fee, a zero base fee included, and then yields that fee |
| `FeeData.GetFeeData` | src/WrappedJsonProvider.ts:10-27 | gasPrice is returned as queried (null on failure); with a base fee present, the priority fee is the gas price or 1.5 gwei, and the fee cap is 2·base fee + priority fee; without one, the three EIP-1559 fields are null |
| `FeeData.FeeCapBounds` | src/WrappedJsonProvider.ts:20-23 | for non-negative amounts the fee cap is at least the priority fee and at least twice the base fee |

## Left out

- src/cktx.ts: it reads a command-line argument, fetches one transaction and prints it, so it has no logic to model.
- Network and provider calls are inputs, not modelled code: `getBlockNumber`, `getBlock`, `queryFilter`, `getGasPrice`, `contract.deployed`. So are the async/await structure and the possibility of a call failing. The run is one sequence of steps.
- Sending the `restakeRewards()` transaction (lines 63-68) and its outcome: the model ends at the `SendClaim` decision.
- Date formatting and the wait-time display (lines 57, 59-60): only for output.
- `getProvider`/`getSigner` object construction and the `process.env` reads: the environment is the `Config` value. The `new ethers.Wallet` of `getSigner` throwing on a bad key is not modelled.
- `isValidAddr` and `isValidAPIKey` are boolean inputs, because their behaviour lives in ethers and on the node. Errors that `isValidAddr` rethrows are not modelled.
- `Wallet.fromPrivateKey` address derivation (secp256k1/keccak) is the input `addressOf`. Its exception on a key outside the curve order is not modelled.
- A `getBlock` that returns null is not modelled, and neither is a negative block number, which ethers reads as an offset below the head. `ts` and `query` are arbitrary total functions there, and the window claims speak of the block numbers the code computes. JavaScript number precision is not modelled either: block numbers and times are unbounded integers, and real values are far below 2^53.
- PrivateKey.DecodeKey: restricted to keys whose characters after the prefix are hexadecimal digits, because `parseInt` on other chunks (NaN, sign, whitespace or partial parses) is not modelled.
- EventScan.RefineStartBlock: requires that some candidate 500·j blocks further back is old enough. Without that, the loop has no candidate to stop at, and what the node then does with the numbers it is given is not part of this model.
- EventScan.ScanEvents: only Staked logs are scanned, as in the code; the code reads no Claimed logs.
- PrivateKey.Body: strings are sequences of Unicode scalar values, while JavaScript's `substring` counts UTF-16 code units. A key whose first two characters include one outside the Basic Multilingual Plane loses a different prefix in the source than in the model. `DecodeHexKey` and `DecodeOddHexKey` therefore require a prefix of one-code-unit characters.
- `fromBlockchainTimestamp` is taken as seconds to milliseconds, and `addHours(24)` as exactly 24·3 600 000 ms, with no daylight-saving shift. The library code is not part of this model.
