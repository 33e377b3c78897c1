/** The ETH to BTC swap-rate calculator (src/swap/swap.service.ts). It reads a
    live BTC/USD quote and the stored ETH/USD price and combines them in closed
    form; nothing is written anywhere. */
module SwapService {
  import opened Common

  /** `feePercentage`: a percentage, divided by 100 where it is used. */
  const FeePercentage: real := 0.03

  const ServiceUnavailable: int := 503
  const BadGateway: int := 502

  datatype HttpError = HttpError(message: string, status: int)

  datatype Fee = Fee(eth: real, dollar: real)

  datatype SwapRate = SwapRate(btcAmount: real, fee: Fee)

  /** `if (!btcRate)`: the quote is usable when it is present (not `undefined`) and not 0. */
  predicate Usable(btcQuote: Option<real>)
  {
    btcQuote.Some? && btcQuote.value != 0.0
  }

  /** `findOne({ where: { symbol: "ETH" } })` has no `order`: the database may return
      any ETH row. This model takes the first one in storage order. */
  function EthRow(rows: seq<PriceRow>): (o: Option<PriceRow>)
    ensures o.None? <==> forall i :: 0 <= i < |rows| ==> rows[i].symbol != "ETH"
    ensures o.Some? ==> o.value.symbol == "ETH" &&
                        exists k :: 0 <= k < |rows| && rows[k] == o.value &&
                                    forall j :: 0 <= j < k ==> rows[j].symbol != "ETH"
  {
    if rows == [] then None
    else if rows[0].symbol == "ETH" then Some(rows[0])
    else
      var rest := EthRow(rows[1..]);
      assert forall i :: 1 <= i < |rows| ==> rows[i] == rows[1..][i - 1];
      if rest.Some? then
        var k :| 0 <= k < |rows[1..]| && rows[1..][k] == rest.value &&
                 forall j :: 0 <= j < k ==> rows[1..][j].symbol != "ETH";
        assert rows[k + 1] == rest.value;
        rest
      else rest
  }

  /** The price `convertEthToDollar` multiplies by: `tokenPrice?.price || 0`. */
  function EthUsdPrice(rows: seq<PriceRow>): real
  {
    match EthRow(rows)
    case None => 0.0
    case Some(row) => row.price
  }

  /** `convertEthToDollar(amount)`: the amount times the stored ETH price; a failing
      repository turns into BAD_GATEWAY. */
  function ConvertEthToDollar(amount: real, rows: seq<PriceRow>, store: StoreOutcome): (r: Result<real, HttpError>)
    ensures store.StoreError? <==> r.Failure?
    ensures r.Failure? ==> r.error == HttpError("Failed to fetch ETH to USD rate", BadGateway)
    ensures r.Success? ==> (EthRow(rows).None? ==> r.value == 0.0)
    ensures r.Success? && EthRow(rows).Some? ==> r.value == amount * EthRow(rows).value.price
  {
    if store.StoreError? then Failure(HttpError("Failed to fetch ETH to USD rate", BadGateway))
    else Success(amount * EthUsdPrice(rows))
  }

  /** `getSwapRate(ethAmount)`, as written. `btcQuote` is what the market-data
      service answers for "BTC" (`None` for `undefined`); `store` is how the two
      ETH-price lookups behave (both read the same row, so one outcome covers both). */
  function GetSwapRate(ethAmount: real, btcQuote: Option<real>, rows: seq<PriceRow>, store: StoreOutcome): (r: Result<SwapRate, HttpError>)
    ensures !Usable(btcQuote) ==> r == Failure(HttpError("Could not retrieve exchange rate", ServiceUnavailable))
    ensures Usable(btcQuote) && store.StoreError? ==> r == Failure(HttpError("Failed to fetch ETH to USD rate", BadGateway))
    ensures Usable(btcQuote) && store.StoreOk? ==>
              && r.Success?
              // the amount enters twice: btcAmount = a^2 * p / q
              && r.value.btcAmount * btcQuote.value == ethAmount * ethAmount * EthUsdPrice(rows)
              // 0.03 percent of the amount, whatever the prices are
              && r.value.fee.eth == 0.0003 * ethAmount
              && r.value.fee.dollar == r.value.fee.eth * EthUsdPrice(rows)
  {
    if !Usable(btcQuote) then Failure(HttpError("Could not retrieve exchange rate", ServiceUnavailable))
    else
      var btcRate := btcQuote.value;
      match ConvertEthToDollar(ethAmount, rows, store)
      case Failure(e) => Failure(e)
      case Success(ethAmountInDollar) =>
        var btcAmount := ethAmount * (ethAmountInDollar / btcRate);
        var feeInEth := ethAmount * (FeePercentage / 100.0);
        match ConvertEthToDollar(feeInEth, rows, store)
        case Failure(e) => Failure(e)
        case Success(feeInDollar) =>
          assert btcAmount * btcRate == ethAmount * ethAmountInDollar;
          Success(SwapRate(btcAmount, Fee(feeInEth, feeInDollar)))
  }

  /** The rate the calculator evidently means: the dollar value of the amount
      divided by the BTC price, so the amount enters once. */
  function CorrectedSwapRate(ethAmount: real, btcQuote: Option<real>, rows: seq<PriceRow>, store: StoreOutcome): (r: Result<SwapRate, HttpError>)
    ensures !Usable(btcQuote) ==> r == Failure(HttpError("Could not retrieve exchange rate", ServiceUnavailable))
    ensures Usable(btcQuote) && store.StoreError? ==> r == Failure(HttpError("Failed to fetch ETH to USD rate", BadGateway))
    ensures Usable(btcQuote) && store.StoreOk? ==>
              && r.Success?
              // the BTC received is worth, in dollars, what the ETH given is worth
              && r.value.btcAmount * btcQuote.value == ethAmount * EthUsdPrice(rows)
              && r.value.fee.eth == 0.0003 * ethAmount
              && r.value.fee.dollar == r.value.fee.eth * EthUsdPrice(rows)
  {
    if !Usable(btcQuote) then Failure(HttpError("Could not retrieve exchange rate", ServiceUnavailable))
    else
      var btcRate := btcQuote.value;
      match ConvertEthToDollar(ethAmount, rows, store)
      case Failure(e) => Failure(e)
      case Success(ethAmountInDollar) =>
        var btcAmount := ethAmountInDollar / btcRate;
        var feeInEth := ethAmount * (FeePercentage / 100.0);
        match ConvertEthToDollar(feeInEth, rows, store)
        case Failure(e) => Failure(e)
        case Success(feeInDollar) => Success(SwapRate(btcAmount, Fee(feeInEth, feeInDollar)))
  }

  /** A failed BTC quote fails the request before the price table is consulted:
      the answer is the same whatever the table holds and however the store behaves. */
  lemma UnusableQuoteIgnoresStore(ethAmount: real, btcQuote: Option<real>,
                                  rows1: seq<PriceRow>, store1: StoreOutcome,
                                  rows2: seq<PriceRow>, store2: StoreOutcome)
    requires !Usable(btcQuote)
    ensures GetSwapRate(ethAmount, btcQuote, rows1, store1) == GetSwapRate(ethAmount, btcQuote, rows2, store2)
    ensures GetSwapRate(ethAmount, btcQuote, rows1, store1).Failure?
  {
  }

  /** Only the chosen ETH row's price matters, not how recent that row is. */
  lemma OnlyEthPriceMatters(ethAmount: real, btcQuote: Option<real>, rows1: seq<PriceRow>, rows2: seq<PriceRow>, store: StoreOutcome)
    requires EthUsdPrice(rows1) == EthUsdPrice(rows2)
    ensures GetSwapRate(ethAmount, btcQuote, rows1, store) == GetSwapRate(ethAmount, btcQuote, rows2, store)
  {
    if Usable(btcQuote) && store.StoreOk? {
      var feeInEth := ethAmount * (FeePercentage / 100.0);
      ConversionOnlyUsesPrice(ethAmount, rows1, rows2, store);
      ConversionOnlyUsesPrice(feeInEth, rows1, rows2, store);
      var d1 := ConvertEthToDollar(ethAmount, rows1, store).value;
      var f1 := ConvertEthToDollar(feeInEth, rows1, store).value;
      var r1, r2 := GetSwapRate(ethAmount, btcQuote, rows1, store), GetSwapRate(ethAmount, btcQuote, rows2, store);
      assert r1.value.btcAmount == ethAmount * (d1 / btcQuote.value) == r2.value.btcAmount;
      assert r1.value.fee.eth == feeInEth == r2.value.fee.eth;
      assert r1.value.fee.dollar == f1 == r2.value.fee.dollar;
    }
  }

  lemma ConversionOnlyUsesPrice(amount: real, rows1: seq<PriceRow>, rows2: seq<PriceRow>, store: StoreOutcome)
    requires EthUsdPrice(rows1) == EthUsdPrice(rows2)
    ensures ConvertEthToDollar(amount, rows1, store) == ConvertEthToDollar(amount, rows2, store)
  {
    if store.StoreOk? {
      assert ConvertEthToDollar(amount, rows1, store).value == amount * EthUsdPrice(rows1);
    }
  }

  /** With no ETH row stored the price is taken as 0: no error, a zero BTC amount
      and a zero dollar fee, while the ETH fee is unchanged. */
  lemma NoEthRowDegradesToZero(ethAmount: real, btcQuote: Option<real>, rows: seq<PriceRow>)
    requires Usable(btcQuote)
    requires forall i :: 0 <= i < |rows| ==> rows[i].symbol != "ETH"
    ensures GetSwapRate(ethAmount, btcQuote, rows, StoreOk)
            == Success(SwapRate(0.0, Fee(0.0003 * ethAmount, 0.0)))
  {
  }

  /** The worked example a = 2, ETH at 3000, BTC at 60000: the written code returns
      0.2 BTC where the dollar-equivalent amount is 0.1 BTC; both report a fee of
      0.0006 ETH, worth 1.8 dollars. */
  lemma SquaredAmountExample(rows: seq<PriceRow>)
    requires EthRow(rows).Some? && EthRow(rows).value.price == 3000.0
    ensures GetSwapRate(2.0, Some(60000.0), rows, StoreOk) == Success(SwapRate(0.2, Fee(0.0006, 1.8)))
    ensures CorrectedSwapRate(2.0, Some(60000.0), rows, StoreOk) == Success(SwapRate(0.1, Fee(0.0006, 1.8)))
  {
  }
}
