/** Alert subscriptions (src/price-alert/price-alert.service.ts): registering an
    alert for a (chain, email) pair, and the ten-minute job that mails every
    subscriber the newest price of its chain. */
module PriceAlerts {
  import opened Common

  const BadRequest: int := 400
  const Ok: int := 200

  /** One row of the `alert` table; `isTriggered` defaults to false and nothing sets it. */
  datatype AlertRow = AlertRow(id: nat, chain: string, targetPrice: real, email: string, isTriggered: bool)

  predicate SameKey(a: AlertRow, chain: string, email: string)
  {
    a.chain == chain && a.email == email
  }

  predicate HasAlert(rows: seq<AlertRow>, chain: string, email: string)
  {
    exists i :: 0 <= i < |rows| && SameKey(rows[i], chain, email)
  }

  /** The invariant registration is meant to keep: at most one alert per (chain, email). */
  predicate UniqueKeys(rows: seq<AlertRow>)
  {
    forall i, j :: 0 <= i < j < |rows| ==> !SameKey(rows[j], rows[i].chain, rows[i].email)
  }

  /** `findOne({ where: { chain, email } })`. */
  function FindAlert(rows: seq<AlertRow>, chain: string, email: string): (o: Option<AlertRow>)
    ensures o.None? <==> !HasAlert(rows, chain, email)
    ensures o.Some? ==> o.value in rows && SameKey(o.value, chain, email)
  {
    if rows == [] then None
    else if SameKey(rows[0], chain, email) then Some(rows[0])
    else
      assert forall i :: 1 <= i < |rows| ==> rows[i] == rows[1..][i - 1];
      FindAlert(rows[1..], chain, email)
  }

  /** Appending an alert whose key is not yet present keeps the keys unique. */
  lemma InsertKeepsKeysUnique(rows: seq<AlertRow>, row: AlertRow)
    requires UniqueKeys(rows)
    requires !HasAlert(rows, row.chain, row.email)
    ensures UniqueKeys(rows + [row])
  {
    var rows' := rows + [row];
    forall i, j | 0 <= i < j < |rows'|
      ensures !SameKey(rows'[j], rows'[i].chain, rows'[i].email)
    {
      if j == |rows| {
        assert !SameKey(rows[i], row.chain, row.email);
      }
    }
  }

  /** The reply of `setPriceAlert`. */
  datatype SetAlertReply =
    | AlreadyExists(chain: string)       // "Price alert already exists for <chain>."
    | AlertSet(chain: string, price: real)  // "Price alert set for <chain> at <price> USD."
  {
    function Status(): int
    {
      if AlreadyExists? then BadRequest else Ok
    }
  }

  /** The message of the error `setPriceAlert` rethrows. */
  function SetAlertFailure(chain: string, reason: string): string
  {
    "Failed to set price alert for " + chain + ": " + reason
  }

  /** The mail `sendAlertEmail(email, chain, price)` sends. */
  function TargetEmail(email: string, chain: string, price: real): Email
  {
    Email(email, "Price Alert: " + chain + " has reached the target price", TargetMessage(chain, price))
  }

  /** `findOne({ where: { chain }, order: { timestamp: "DESC" } })`. */
  function LatestPrice(prices: seq<PriceRow>, chain: string): Option<PriceRow>
  {
    Newest(prices, chain, None)
  }

  /** The mails one run of `checkPriceAlerts` sends: one per alert in table order,
      with the newest price of its chain and no comparison with `targetPrice`,
      until the first alert whose chain has no price row (reading `.price` of
      nothing throws, and the single `try` around the loop ends the run). */
  function TargetAlerts(alerts: seq<AlertRow>, prices: seq<PriceRow>): (out: seq<Email>)
    ensures |out| <= |alerts|
    ensures forall k :: 0 <= k < |out| ==>
              LatestPrice(prices, alerts[k].chain).Some? &&
              out[k] == TargetEmail(alerts[k].email, alerts[k].chain, LatestPrice(prices, alerts[k].chain).value.price)
    ensures |out| < |alerts| ==> LatestPrice(prices, alerts[|out|].chain).None?
  {
    if alerts == [] then []
    else
      match LatestPrice(prices, alerts[0].chain)
      case None => []
      case Some(latest) =>
        assert forall k :: 1 <= k < |alerts| ==> alerts[k] == alerts[1..][k - 1];
        [TargetEmail(alerts[0].email, alerts[0].chain, latest.price)] + TargetAlerts(alerts[1..], prices)
  }

  /** `e` is the mail alert `a` receives: its chain has a price, and the mail
      carries the newest one. */
  predicate MailedFor(e: Email, a: AlertRow, prices: seq<PriceRow>)
  {
    LatestPrice(prices, a.chain).Some? && e == TargetEmail(a.email, a.chain, LatestPrice(prices, a.chain).value.price)
  }

  /** Mails sent one per alert, in order, until the list ends or an alert's chain
      has no price, are exactly `TargetAlerts`. */
  lemma TargetAlertsFromMails(sent: seq<Email>, before: seq<Email>, alerts: seq<AlertRow>, prices: seq<PriceRow>, k: nat)
    requires k <= |alerts| && |sent| == |before| + k && sent[..|before|] == before
    requires forall j :: 0 <= j < k ==> MailedFor(sent[|before| + j], alerts[j], prices)
    requires k < |alerts| ==> LatestPrice(prices, alerts[k].chain).None?
    ensures sent == before + TargetAlerts(alerts, prices)
  {
    var out := TargetAlerts(alerts, prices);
    assert |out| == k;
    assert sent == before + out;
  }

  /** An alert whose chain has no price ends the run there: neither it nor any later
      alert is mailed. */
  lemma StopsAtFirstMissingPrice(alerts: seq<AlertRow>, prices: seq<PriceRow>, k: nat)
    requires k < |alerts| && LatestPrice(prices, alerts[k].chain).None?
    ensures |TargetAlerts(alerts, prices)| <= k
  {
  }

  /** The alert table: rows in storage order and the next generated id. */
  class AlertTable {
    var rows: seq<AlertRow>
    var nextId: nat

    constructor ()
      ensures rows == [] && nextId == 1
    {
      rows := [];
      nextId := 1;
    }

    /** `save({ chain, targetPrice, email })`: the id is generated and `isTriggered`
        takes its default. */
    method Save(chain: string, targetPrice: real, email: string) returns (row: AlertRow)
      modifies this
      ensures row == AlertRow(old(nextId), chain, targetPrice, email, false)
      ensures rows == old(rows) + [row] && nextId == old(nextId) + 1
    {
      row := AlertRow(nextId, chain, targetPrice, email, false);
      rows := rows + [row];
      nextId := nextId + 1;
    }
  }

  class PriceAlertService {
    const alerts: AlertTable
    const prices: PriceTable
    const mailer: Outbox

    constructor (alerts: AlertTable, prices: PriceTable, mailer: Outbox)
      ensures this.alerts == alerts && this.prices == prices && this.mailer == mailer
    {
      this.alerts := alerts;
      this.prices := prices;
      this.mailer := mailer;
    }

    /** `setPriceAlert(chain, price, email)`: check, then insert. `store` says whether
        the repository throws; it then rethrows with the chain in the message and
        nothing is inserted. */
    method SetPriceAlert(chain: string, price: real, email: string, store: StoreOutcome)
      returns (r: Result<SetAlertReply, string>)
      modifies alerts
      ensures store.StoreError? ==>
                r == Failure(SetAlertFailure(chain, store.reason)) && alerts.rows == old(alerts.rows)
      ensures store.StoreOk? && HasAlert(old(alerts.rows), chain, email) ==>
                r == Success(AlreadyExists(chain)) && r.value.Status() == BadRequest &&
                alerts.rows == old(alerts.rows)
      ensures store.StoreOk? && !HasAlert(old(alerts.rows), chain, email) ==>
                r == Success(AlertSet(chain, price)) && r.value.Status() == Ok &&
                alerts.rows == old(alerts.rows) + [AlertRow(old(alerts.nextId), chain, price, email, false)]
      ensures UniqueKeys(old(alerts.rows)) ==> UniqueKeys(alerts.rows)
    {
      if store.StoreError? {
        return Failure(SetAlertFailure(chain, store.reason));
      }
      var existingAlert := FindAlert(alerts.rows, chain, email);
      if existingAlert.Some? {
        return Success(AlreadyExists(chain));
      }
      ghost var before := alerts.rows;
      var saved := alerts.Save(chain, price, email);
      if UniqueKeys(before) {
        InsertKeepsKeysUnique(before, saved);
      }
      return Success(AlertSet(chain, price));
    }

    /** `checkPriceAlerts()`: writes to neither table, only to the outbox, and never
        throws. `listFails` says whether `find()` throws; `failAt` is the index of
        the first alert whose price lookup throws. Either error is caught and logged
        by the `try` around the loop, and the mails already sent stay sent. */
    method CheckPriceAlerts(listFails: bool, failAt: Option<nat>)
      modifies mailer
      ensures listFails ==> mailer.sent == old(mailer.sent)
      ensures !listFails ==>
                mailer.sent == old(mailer.sent) + TargetAlerts(Processed(alerts.rows, failAt), prices.rows)
    {
      if listFails {
        return;
      }
      MailAlerts(alerts.rows, failAt);
    }

    /** The `for` loop of `checkPriceAlerts` over the alerts `find()` returned. */
    method MailAlerts(priceAlerts: seq<AlertRow>, failAt: Option<nat>)
      modifies mailer
      ensures mailer.sent == old(mailer.sent) + TargetAlerts(Processed(priceAlerts, failAt), prices.rows)
    {
      ghost var handled := Processed(priceAlerts, failAt);
      ghost var before := mailer.sent;
      var k := 0;
      while k < |priceAlerts|
        invariant 0 <= k <= |handled|
        invariant |mailer.sent| == |before| + k && mailer.sent[..|before|] == before
        invariant forall j :: 0 <= j < k ==> MailedFor(mailer.sent[|before| + j], handled[j], prices.rows)
      {
        if failAt == Some(k) {
          // the lookup throws; the error is logged and the run ends
          break;
        }
        var alert := priceAlerts[k];
        assert alert == handled[k];
        var latestPrice := LatestPrice(prices.rows, alert.chain);
        if latestPrice.None? {
          // `latestPrice.price` throws; the error is logged and the run ends
          break;
        }
        SendAlertEmail(alert.email, alert.chain, latestPrice.value.price);
        k := k + 1;
      }
      TargetAlertsFromMails(mailer.sent, before, handled, prices.rows, k);
    }

    /** `sendAlertEmail(email, chain, price)`. */
    method SendAlertEmail(email: string, chain: string, price: real)
      modifies mailer
      ensures mailer.sent == old(mailer.sent) + [TargetEmail(email, chain, price)]
    {
      var subject := "Price Alert: " + chain + " has reached the target price";
      mailer.SendEmail(email, subject, TargetMessage(chain, price));
    }
  }
}
