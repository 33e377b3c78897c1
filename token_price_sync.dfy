/** The price ingestion tick (src/crons/token-price-sync.cron.ts). Each tick,
    guarded by a running flag, asks the market-data service for every supported
    token in list order and appends one price row per answer; the first token
    whose answer cannot be stored ends the tick. */
module TokenPriceSync {
  import opened Common

  /** The `quote.USD` part of a market-data answer. */
  datatype UsdQuote = UsdQuote(price: real, percentChange1h: real, percentChange24h: real)

  /** A market-data answer for one token. */
  datatype TokenQuote = TokenQuote(symbol: string, name: string, usd: UsdQuote)

  /** The row saved for an answer at tick time `now`. */
  function RowOf(q: TokenQuote, now: int): PriceRow
  {
    PriceRow(
      chain := q.name,
      symbol := q.symbol,
      price := q.usd.price,
      percentChange1h := q.usd.percentChange1h,
      percentChange24h := q.usd.percentChange24h,
      timestamp := now)
  }

  /** The rows one started tick saves, given the outcome of each token's step in
      list order. `Some(q)` is a step that stores the row for answer `q`. `None` is
      a step that throws: the service returned `undefined` (reading `.symbol`
      throws) or its error value 0 (the insert of a row without chain or price
      fails), or the step's `findOne` or `save` itself throws. Such a step ends
      the tick. */
  function Ingested(answers: seq<Option<TokenQuote>>, now: int): (saved: seq<PriceRow>)
    ensures |saved| <= |answers|
    ensures forall k :: 0 <= k < |saved| ==> answers[k].Some? && saved[k] == RowOf(answers[k].value, now)
    ensures |saved| < |answers| ==> answers[|saved|].None?
  {
    if answers == [] || answers[0].None? then []
    else
      var rest := Ingested(answers[1..], now);
      assert forall k :: 1 <= k < |answers| ==> answers[k] == answers[1..][k - 1];
      [RowOf(answers[0].value, now)] + rest
  }

  /** Splitting the answers after a stretch of storable ones splits the saved rows. */
  lemma {:induction false} IngestedSplit(answers: seq<Option<TokenQuote>>, k: nat, now: int)
    requires k <= |answers|
    requires forall j :: 0 <= j < k ==> answers[j].Some?
    ensures Ingested(answers, now) == Ingested(answers[..k], now) + Ingested(answers[k..], now)
  {
    if k > 0 {
      assert answers[0].Some?;
      assert answers[1..][..k - 1] == answers[..k][1..];
      assert answers[1..][k - 1..] == answers[k..];
      IngestedSplit(answers[1..], k - 1, now);
    }
  }

  /** A tick in which every answer is storable saves exactly one row per token. */
  lemma AllAnswersStored(answers: seq<Option<TokenQuote>>, now: int)
    requires forall k :: 0 <= k < |answers| ==> answers[k].Some?
    ensures |Ingested(answers, now)| == |answers|
  {
  }

  class TokenPriceSyncCron {
    var isCronRunning: bool
    const prices: PriceTable

    constructor (prices: PriceTable)
      ensures !isCronRunning && this.prices == prices
    {
      isCronRunning := false;
      this.prices := prices;
    }

    /** The callback the five-minute `CronJob` runs. `tokens` is the supported-token
        list and `answers[k]` the outcome of the step for `tokens[k]`, as `Ingested`
        reads it.
        A tick arriving while another is in flight reads and saves nothing. A tick
        that starts appends `Ingested(answers, now)` and nothing else (the existing
        rows are neither changed nor consulted), swallows the error that ends it
        early, and clears the flag. */
    method OnTick(tokens: seq<string>, answers: seq<Option<TokenQuote>>, now: int)
      requires |answers| == |tokens|
      modifies this, prices
      ensures old(isCronRunning) ==> isCronRunning && prices.rows == old(prices.rows)
      ensures !old(isCronRunning) ==> !isCronRunning && prices.rows == old(prices.rows) + Ingested(answers, now)
    {
      if !isCronRunning {
        isCronRunning := true;
        var failed := SyncAll(tokens, answers, now);
        // a failure is only logged
        isCronRunning := false;
      }
    }

    /** The `try` block of the tick: one save per token until an answer cannot be
        stored; `failed` says whether an error ended it. */
    method SyncAll(tokens: seq<string>, answers: seq<Option<TokenQuote>>, now: int) returns (failed: bool)
      requires |answers| == |tokens|
      modifies prices
      ensures prices.rows == old(prices.rows) + Ingested(answers, now)
      ensures failed <==> |Ingested(answers, now)| < |tokens|
    {
      ghost var start := prices.rows;
      failed := false;
      var k := 0;
      while k < |tokens|
        invariant 0 <= k <= |tokens|
        invariant forall j :: 0 <= j < k ==> answers[j].Some?
        invariant prices.rows == start + Ingested(answers[..k], now)
      {
        var currentPrice := answers[k];
        // `findOne({ where: { symbol: token } })`: its result is never used
        if currentPrice.None? {
          failed := true;
          break;
        }
        prices.Save(RowOf(currentPrice.value, now));
        StepIngested(answers, k, now);
        k := k + 1;
      }
      IngestedSplit(answers, k, now);
      assert k < |answers| ==> answers[k..][0].None?;
      assert k == |answers| ==> answers[..k] == answers;
    }
  }

  /** One more storable answer adds its row at the end. */
  lemma StepIngested(answers: seq<Option<TokenQuote>>, k: nat, now: int)
    requires k < |answers|
    requires forall j :: 0 <= j <= k ==> answers[j].Some?
    ensures Ingested(answers[..k + 1], now) == Ingested(answers[..k], now) + [RowOf(answers[k].value, now)]
  {
    assert answers[..k + 1][..k] == answers[..k];
    IngestedSplit(answers[..k + 1], k, now);
    assert answers[..k + 1][k..] == [answers[k]];
  }
}
