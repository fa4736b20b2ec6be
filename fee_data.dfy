/** Fee data of the wrapped JSON-RPC provider (src/WrappedJsonProvider.ts, getFeeData).

    Amounts are in wei and unbounded, as ethers' BigNumber is. The two provider calls,
    getBlock("latest") and getGasPrice(), are inputs: the latest block (absent when the
    provider returns none) and the reply of the gas-price query. */
module FeeData {
  import opened Wrappers

  /** The one field of the latest block that getFeeData reads. A chain without
      the EIP-1559 fee market has no base fee. */
  datatype Block = Block(baseFeePerGas: Option<int>)

  /** Outcome of getGasPrice(): a price, or a rejected promise. */
  datatype GasPriceReply = Price(wei: int) | Rejected

  /** The record getFeeData returns; `None` is `null`. */
  datatype FeeData = FeeData(
    lastBaseFeePerGas: Option<int>,
    maxFeePerGas: Option<int>,
    maxPriorityFeePerGas: Option<int>,
    gasPrice: Option<int>)

  /** Priority fee used when the gas-price query yields null: 1.5 gwei. */
  const DefaultPriorityFee: int := 1_500_000_000

  /** A failed getGasPrice() is caught and becomes null. */
  function CaughtGasPrice(reply: GasPriceReply): (r: Option<int>)
    ensures r.Some? <==> reply.Price?
    ensures r.Some? ==> r.value == reply.wei
  {
    match reply
    case Price(wei) => Some(wei)
    case Rejected => None
  }

  /** The guard `block && block.baseFeePerGas`: a zero BigNumber is an object and
      therefore truthy, so only an absent block or an absent field fails it. */
  function BaseFee(block: Option<Block>): (r: Option<int>)
    ensures r.Some? <==> block.Some? && block.value.baseFeePerGas.Some?
    ensures r.Some? ==> r == block.value.baseFeePerGas
  {
    match block
    case None => None
    case Some(b) => b.baseFeePerGas
  }

  function GetFeeData(block: Option<Block>, reply: GasPriceReply): (r: FeeData)
    // the gas price is passed through in every case, a failed query as null
    ensures r.gasPrice == CaughtGasPrice(reply)
    // the three EIP-1559 fields are present exactly when the block has a base fee
    ensures r.lastBaseFeePerGas == BaseFee(block)
    ensures r.maxFeePerGas.Some? <==> BaseFee(block).Some?
    ensures r.maxPriorityFeePerGas.Some? <==> BaseFee(block).Some?
    // the priority fee is the gas price when there is one, 1.5 gwei otherwise
    ensures BaseFee(block).Some? && reply.Price? ==> r.maxPriorityFeePerGas == Some(reply.wei)
    ensures BaseFee(block).Some? && reply.Rejected? ==> r.maxPriorityFeePerGas == Some(DefaultPriorityFee)
    // the fee cap leaves room for the base fee to double
    ensures BaseFee(block).Some? ==>
      r.maxFeePerGas.value == 2 * BaseFee(block).value + r.maxPriorityFeePerGas.value
  {
    var gasPrice := CaughtGasPrice(reply);
    match BaseFee(block)
    case None => FeeData(None, None, None, gasPrice)
    case Some(baseFee) =>
      var maxPriorityFeePerGas := if gasPrice.Some? then gasPrice.value else DefaultPriorityFee;
      FeeData(Some(baseFee), Some(baseFee * 2 + maxPriorityFeePerGas), Some(maxPriorityFeePerGas), gasPrice)
  }

  /** With non-negative amounts the fee cap bounds both of its parts from above. */
  lemma FeeCapBounds(block: Option<Block>, reply: GasPriceReply)
    requires BaseFee(block).Some? && BaseFee(block).value >= 0
    requires reply.Price? ==> reply.wei >= 0
    ensures var r := GetFeeData(block, reply);
      && r.maxFeePerGas.value >= r.maxPriorityFeePerGas.value
      && r.maxFeePerGas.value >= 2 * r.lastBaseFeePerGas.value
      && r.maxPriorityFeePerGas.value >= 0
  {
  }
}
