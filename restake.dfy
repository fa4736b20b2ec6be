/** One run of the restaking script (src/Restake-AXS.ts: RestakeRewards, ReadEvents and
    the checks at the top of internalReadEvents), as a sequence of steps.

    The node, the clock and the libraries whose code is not modelled are inputs: the
    chain's height, block timestamps and Staked logs, whether the contract answers
    (isValidAPIKey), ethers' address check, and the wallet's address derivation. */
module Restake {
  import opened Wrappers
  import opened EventScan
  import opened PrivateKey
  import opened Cooldown

  /** The environment variables the script reads. */
  datatype Config = Config(privateKey: string, apiKey: string, contractAddr: string)

  /** What the run learns from the node. */
  datatype Chain = Chain(
    blockNumber: int,                       // provider.getBlockNumber()
    blockTimestamp: int -> int,             // provider.getBlock(n).timestamp, in seconds
    stakedLogs: (int, int) -> seq<Event>,   // queryFilter(Staked(MY_ADDR), s, e)
    contractDeployed: bool)                 // contract.deployed() resolves

  /** Library calls whose code the model does not contain. */
  datatype Libraries = Libraries(
    isValidAddr: string -> bool,            // ethers.utils.getAddress accepts it
    addressOf: seq<Byte> -> string)         // Wallet.fromPrivateKey(buffer).getAddressString()

  /** The assertions that stop the run before any event is read. */
  datatype Failure =
    | ContractAddrNotSet                    // line 39
    | KeyNotThirtyTwoBytes(length: nat)     // line 102
    | ContractAddrInvalid                   // line 103
    | AddressEmpty                          // line 107
    | ApiKeyNotSet                          // line 20, reached through getSigner at line 109
    | ApiKeyInvalid                         // line 112

  datatype Outcome = Aborted(failure: Failure) | Decided(decision: Decision)

  /** fromBlockchainTimestamp: block timestamps are seconds, dates are milliseconds. */
  function FromBlockchainTimestamp(seconds: int): int {
    seconds * 1000
  }

  /** The date of each block, in milliseconds. */
  function BlockDates(chain: Chain): int -> int {
    n => FromBlockchainTimestamp(chain.blockTimestamp(n))
  }

  /** The checks of lines 101-112 in their order; the first that fails stops the run.
      The private key is not empty once it decodes to 32 bytes, so of getProvider's
      assertions only the one on the API key can fail there. */
  function ReadPreflight(config: Config, chain: Chain, libs: Libraries): (r: Option<Failure>)
    requires AllHex(Body(config.privateKey))
    ensures r.None? <==>
      && DecodeKey(config.privateKey).Ok?
      && libs.isValidAddr(config.contractAddr)
      && libs.addressOf(DecodeKey(config.privateKey).value) != ""
      && config.apiKey != ""
      && chain.contractDeployed
    // the contract address is checked before, in RestakeRewards
    ensures r != Some(ContractAddrNotSet)
    // each check that fails after the earlier ones pass is the one reported
    ensures DecodeKey(config.privateKey).Err? ==> r == Some(KeyNotThirtyTwoBytes(DecodeKey(config.privateKey).error))
    ensures DecodeKey(config.privateKey).Ok? && !libs.isValidAddr(config.contractAddr) ==> r == Some(ContractAddrInvalid)
    ensures (DecodeKey(config.privateKey).Ok? && libs.isValidAddr(config.contractAddr)
             && libs.addressOf(DecodeKey(config.privateKey).value) == "") ==> r == Some(AddressEmpty)
    ensures (DecodeKey(config.privateKey).Ok? && libs.isValidAddr(config.contractAddr)
             && libs.addressOf(DecodeKey(config.privateKey).value) != "" && config.apiKey == "") ==> r == Some(ApiKeyNotSet)
    ensures (DecodeKey(config.privateKey).Ok? && libs.isValidAddr(config.contractAddr)
             && libs.addressOf(DecodeKey(config.privateKey).value) != "" && config.apiKey != ""
             && !chain.contractDeployed) ==> r == Some(ApiKeyInvalid)
    // and a reported failure names a check that failed after the earlier ones passed
    ensures r.Some? && r.value.KeyNotThirtyTwoBytes? ==> DecodeKey(config.privateKey).Err?
    ensures r == Some(ContractAddrInvalid) ==> DecodeKey(config.privateKey).Ok? && !libs.isValidAddr(config.contractAddr)
    ensures r == Some(AddressEmpty) ==>
      DecodeKey(config.privateKey).Ok? && libs.isValidAddr(config.contractAddr)
      && libs.addressOf(DecodeKey(config.privateKey).value) == ""
    ensures r == Some(ApiKeyNotSet) ==>
      DecodeKey(config.privateKey).Ok? && libs.isValidAddr(config.contractAddr)
      && libs.addressOf(DecodeKey(config.privateKey).value) != "" && config.apiKey == ""
    ensures r == Some(ApiKeyInvalid) ==>
      DecodeKey(config.privateKey).Ok? && libs.isValidAddr(config.contractAddr)
      && libs.addressOf(DecodeKey(config.privateKey).value) != "" && config.apiKey != ""
      && !chain.contractDeployed
  {
    match DecodeKey(config.privateKey)
    case Err(length) => Some(KeyNotThirtyTwoBytes(length))
    case Ok(buffer) =>
      if !libs.isValidAddr(config.contractAddr) then Some(ContractAddrInvalid)
      else if libs.addressOf(buffer) == "" then Some(AddressEmpty)
      else if config.apiKey == "" then Some(ApiKeyNotSet)
      else if !chain.contractDeployed then Some(ApiKeyInvalid)
      else None
  }

  /** internalReadEvents(days): the checks, then the scan of the Staked logs from
      `days` days back. `now` is the instant of line 121. */
  method InternalReadEvents(config: Config, days: int, now: int, chain: Chain, libs: Libraries)
    returns (r: Result<seq<Event>, Failure>, ghost k: nat)
    requires AllHex(Body(config.privateKey))
    requires ReadPreflight(config, chain, libs).None? ==>
      SomeProbeOldEnough(InitialStart(chain.blockNumber, days), days, now, BlockDates(chain))
    ensures ReadPreflight(config, chain, libs).Some? ==> r == Err(ReadPreflight(config, chain, libs).value)
    ensures ReadPreflight(config, chain, libs).None? ==>
      && r.Ok?
      && OldEnough(now, BlockDates(chain)(Probe(InitialStart(chain.blockNumber, days), k)), days)
      && (forall j: nat :: j < k ==> !OldEnough(now, BlockDates(chain)(Probe(InitialStart(chain.blockNumber, days), j)), days))
      && r.value == SortByBlock(Collected(chain.stakedLogs, ScanWindows(chain.blockNumber, days, k)))
  {
    var failure := ReadPreflight(config, chain, libs);
    if failure.Some? {
      return Err(failure.value), 0;
    }
    var events;
    events, k := ScanEvents(days, chain.blockNumber, now, BlockDates(chain), chain.stakedLogs);
    r := Ok(events);
  }

  /** RestakeRewards: check the contract address, read the Staked events of the last
      day (ReadEvents), then decide on the claim. `scanNow` is the instant the scan
      measures block ages from, `claimNow` the later one of line 51. */
  method RestakeRewards(config: Config, scanNow: int, claimNow: int, chain: Chain, libs: Libraries)
    returns (outcome: Outcome, ghost k: nat)
    requires config.contractAddr != "" ==> AllHex(Body(config.privateKey))
    requires config.contractAddr != "" && ReadPreflight(config, chain, libs).None? ==>
      SomeProbeOldEnough(InitialStart(chain.blockNumber, 1), 1, scanNow, BlockDates(chain))
    ensures config.contractAddr == "" ==> outcome == Aborted(ContractAddrNotSet)
    ensures config.contractAddr != "" && ReadPreflight(config, chain, libs).Some? ==>
      outcome == Aborted(ReadPreflight(config, chain, libs).value)
    ensures config.contractAddr != "" && ReadPreflight(config, chain, libs).None? ==>
      && OldEnough(scanNow, BlockDates(chain)(Probe(InitialStart(chain.blockNumber, 1), k)), 1)
      && (forall j: nat :: j < k ==> !OldEnough(scanNow, BlockDates(chain)(Probe(InitialStart(chain.blockNumber, 1), j)), 1))
      && outcome == Decided(ClaimDecision(
           SortByBlock(Collected(chain.stakedLogs, ScanWindows(chain.blockNumber, 1, k))), BlockDates(chain), claimNow))
  {
    if config.contractAddr == "" {
      return Aborted(ContractAddrNotSet), 0;
    }
    var read;
    read, k := InternalReadEvents(config, 1, scanNow, chain, libs);
    match read
    case Err(failure) =>
      outcome := Aborted(failure);
    case Ok(stakedEvents) =>
      outcome := Decided(ClaimDecision(stakedEvents, BlockDates(chain), claimNow));
  }

  /** Block dates inherit monotonicity from the block timestamps. */
  lemma BlockDatesMonotonic(chain: Chain)
    requires Monotonic(chain.blockTimestamp)
    ensures Monotonic(BlockDates(chain))
  {
    forall a, b | a <= b ensures BlockDates(chain)(a) <= BlockDates(chain)(b) {
      assert chain.blockTimestamp(a) <= chain.blockTimestamp(b);
    }
  }

  /** When the run gets as far as the decision and block timestamps never decrease, a
      claim is sent exactly when every Staked event fetched from the scanned windows is
      at least a day old at `claimNow`; no fetched event means the TypeError of line 46. */
  lemma RunClaimsIffEveryFetchedStakeIsOld(chain: Chain, k: nat, claimNow: int)
    requires Monotonic(chain.blockTimestamp)
    ensures var fetched := Collected(chain.stakedLogs, ScanWindows(chain.blockNumber, 1, k));
      var d := ClaimDecision(SortByBlock(fetched), BlockDates(chain), claimNow);
      && (d.NoStakedEvent? <==> fetched == [])
      && (fetched != [] ==>
            (d.SendClaim? <==> forall e :: e in fetched ==> claimNow - BlockDates(chain)(e.blockNumber) >= MsPerDay))
  {
    var fetched := Collected(chain.stakedLogs, ScanWindows(chain.blockNumber, 1, k));
    BlockDatesMonotonic(chain);
    if fetched != [] {
      DecisionOnSortedScan(fetched, BlockDates(chain), claimNow);
    } else {
      assert SortByBlock(fetched) == [];
    }
    if SortByBlock(fetched) == [] {
      assert multiset(fetched) == multiset{};
    }
  }
}
