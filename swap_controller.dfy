/** The boundary check of `GET /swap/rate` (src/swap/swap.controller.ts). */
module SwapController {
  import opened Common
  import opened SwapService

  const BadRequest: int := 400

  /** `getSwapRate(ethAmount)`: `parsed` is what `parseFloat` made of the query
      string, `None` for NaN. A NaN or non-positive amount is rejected; any other
      amount is handed to the service unchanged. */
  function GetSwapRateEndpoint(parsed: Option<real>, btcQuote: Option<real>, rows: seq<PriceRow>, store: StoreOutcome): (r: Result<SwapRate, HttpError>)
    ensures (parsed.None? || parsed.value <= 0.0) <==> r == Failure(HttpError("Invalid ETH amount", BadRequest))
    ensures parsed.Some? && parsed.value > 0.0 ==> r == GetSwapRate(parsed.value, btcQuote, rows, store)
  {
    if parsed.None? || parsed.value <= 0.0 then Failure(HttpError("Invalid ETH amount", BadRequest))
    else GetSwapRate(parsed.value, btcQuote, rows, store)
  }

  /** A rejected amount never reaches the service: the reply does not depend on
      the quote, the table or the store. */
  lemma RejectionMakesNoLookup(parsed: Option<real>, q1: Option<real>, rows1: seq<PriceRow>, s1: StoreOutcome,
                               q2: Option<real>, rows2: seq<PriceRow>, s2: StoreOutcome)
    requires parsed.None? || parsed.value <= 0.0
    ensures GetSwapRateEndpoint(parsed, q1, rows1, s1) == GetSwapRateEndpoint(parsed, q2, rows2, s2)
  {
  }
}
