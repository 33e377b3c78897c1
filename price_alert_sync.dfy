/** The hourly movement detector (src/crons/price-alert-sync.cron.ts). Each tick,
    guarded by a running flag, scans every stored price row, looks up the newest
    row of the same chain from the last hour, and mails a fixed address when the
    percent change from that row to the scanned row is at least 3. */
module PriceAlertSync {
  import opened Common

  const AlertAddress: string := "hyperhire_assignment@hyperhire.in"

  const OneHourMs: int := 60 * 60 * 1000

  /** `calculatePercentChange(oldPrice, newPrice)`; JavaScript's division by zero is
      not a real division, so the zero divisor is handled by `Triggers`. */
  function PercentChange(oldPrice: real, newPrice: real): (r: real)
    requires oldPrice != 0.0
    ensures r * oldPrice == (newPrice - oldPrice) * 100.0
  {
    (newPrice - oldPrice) / oldPrice * 100.0
  }

  /** Whether `percentChange >= 3` holds as JavaScript evaluates it. For a zero
      reference price the quotient is +Infinity when the new price is positive,
      and -Infinity or NaN (both failing the comparison) otherwise. */
  predicate Triggers(oldPrice: real, newPrice: real)
  {
    if oldPrice != 0.0 then PercentChange(oldPrice, newPrice) >= 3.0
    else newPrice > 0.0
  }

  /** For a positive reference price the rule is "the new price is at least 103%
      of the reference price". */
  lemma TriggersAtThreePercent(oldPrice: real, newPrice: real)
    requires oldPrice > 0.0
    ensures Triggers(oldPrice, newPrice) <==> newPrice >= oldPrice * 1.03
  {
    var r := PercentChange(oldPrice, newPrice);
    assert r * oldPrice == (newPrice - oldPrice) * 100.0;
    if r >= 3.0 {
      assert r * oldPrice >= 3.0 * oldPrice;
    } else {
      assert r * oldPrice < 3.0 * oldPrice;
    }
  }

  /** With a zero reference price the rule fires exactly when the new price is
      positive: only +Infinity passes `>= 3`. */
  lemma ZeroReferenceTriggers(newPrice: real)
    ensures Triggers(0.0, newPrice) <==> newPrice > 0.0
  {
  }

  /** The comparison is inclusive: a move from 100 to 103 alerts, to 102.99 does not. */
  lemma ThresholdIsInclusive()
    ensures Triggers(100.0, 103.0)
    ensures !Triggers(100.0, 102.99)
  {
    TriggersAtThreePercent(100.0, 103.0);
    TriggersAtThreePercent(100.0, 102.99);
  }

  /** The row that `checkPriceIncreases` compares against: the newest row of the
      chain whose timestamp is strictly later than one hour before `now`. */
  function ReferenceRow(table: seq<PriceRow>, chain: string, now: int): Option<PriceRow>
  {
    Newest(table, chain, Some(now - OneHourMs))
  }

  /** Whether scanning `row` sends a mail: a reference row exists, and it is passed
      as the OLD price while the scanned row is the NEW one. */
  predicate Fires(table: seq<PriceRow>, row: PriceRow, now: int)
  {
    var reference := ReferenceRow(table, row.chain, now);
    reference.Some? && Triggers(reference.value.price, row.price)
  }

  /** The mail `sendAlert(chain, price)` sends. */
  function AlertEmail(chain: string, price: real): Email
  {
    Email(AlertAddress, "Price Alert: " + chain + " Price Increased", MovementMessage(chain, price))
  }

  /** The mails sent while scanning the rows `scan`, in scan order, against `table`. */
  function MovementAlerts(table: seq<PriceRow>, scan: seq<PriceRow>, now: int): (out: seq<Email>)
    ensures |out| <= |scan|
  {
    if scan == [] then []
    else
      var last := scan[|scan| - 1];
      MovementAlerts(table, scan[..|scan| - 1], now)
      + (if Fires(table, last, now) then [AlertEmail(last.chain, last.price)] else [])
  }

  /** `e` is the mail of some scanned row that fires. */
  predicate MailOfFiringRow(table: seq<PriceRow>, scan: seq<PriceRow>, e: Email, now: int)
  {
    exists i :: 0 <= i < |scan| && Fires(table, scan[i], now) && e == AlertEmail(scan[i].chain, scan[i].price)
  }

  /** Every mail goes to the fixed address and stands for a scanned row that fires,
      carrying that row's chain and price. */
  lemma {:induction false} MovementAlertsSound(table: seq<PriceRow>, scan: seq<PriceRow>, now: int)
    ensures forall e :: e in MovementAlerts(table, scan, now) ==> e.to == AlertAddress && MailOfFiringRow(table, scan, e, now)
  {
    if scan != [] {
      var init, last := scan[..|scan| - 1], scan[|scan| - 1];
      var prior, out := MovementAlerts(table, init, now), MovementAlerts(table, scan, now);
      MovementAlertsSound(table, init, now);
      assert out == prior + (if Fires(table, last, now) then [AlertEmail(last.chain, last.price)] else []);
      forall e | e in out
        ensures e.to == AlertAddress && MailOfFiringRow(table, scan, e, now)
      {
        if e in prior {
          var i :| 0 <= i < |init| && Fires(table, init[i], now) && e == AlertEmail(init[i].chain, init[i].price);
          assert scan[i] == init[i];
        } else {
          assert Fires(table, scan[|scan| - 1], now) && e == AlertEmail(last.chain, last.price);
        }
      }
    }
  }

  /** A scanned row that fires produces exactly one mail at its place in the scan:
      the mails for `s + [row]` are those for `s` followed by the one for `row`. */
  lemma MovementAlertsAppend(table: seq<PriceRow>, s: seq<PriceRow>, row: PriceRow, now: int)
    ensures MovementAlerts(table, s + [row], now) ==
            MovementAlerts(table, s, now) + (if Fires(table, row, now) then [AlertEmail(row.chain, row.price)] else [])
  {
    assert (s + [row])[..|s|] == s;
  }

  /** A chain with no row in the last hour gets no mail at all. */
  lemma {:induction false} NoRecentRowNoAlert(table: seq<PriceRow>, scan: seq<PriceRow>, chain: string, now: int)
    requires forall i :: 0 <= i < |table| ==> table[i].chain == chain ==> table[i].timestamp <= now - OneHourMs
    ensures forall e :: e in MovementAlerts(table, scan, now) ==> e.text.chain != chain
  {
    var out := MovementAlerts(table, scan, now);
    MovementAlertsSound(table, scan, now);
    forall e | e in out
      ensures e.text.chain != chain
    {
      var i :| 0 <= i < |scan| && Fires(table, scan[i], now) && e == AlertEmail(scan[i].chain, scan[i].price);
    }
  }

  /** The reference row never fires against itself, nor does any row of equal price. */
  lemma EqualPriceNeverFires(oldPrice: real)
    ensures !Triggers(oldPrice, oldPrice)
  {
    if oldPrice != 0.0 {
      assert PercentChange(oldPrice, oldPrice) * oldPrice == 0.0;
    }
  }

  /** Because the newest row is the OLD price, a fall alerts: 103 two hours ago and
      100 ten minutes ago send "Price Increased" with price 103. */
  lemma FallingPriceAlerts(now: int)
    ensures var older := PriceRow("X", "X", 103.0, 0.0, 0.0, now - 2 * OneHourMs);
            var newer := PriceRow("X", "X", 100.0, 0.0, 0.0, now - 10 * 60 * 1000);
            MovementAlerts([older, newer], [older, newer], now) == [AlertEmail("X", 103.0)]
  {
    var older := PriceRow("X", "X", 103.0, 0.0, 0.0, now - 2 * OneHourMs);
    var newer := PriceRow("X", "X", 100.0, 0.0, 0.0, now - 10 * 60 * 1000);
    var table := [older, newer];
    assert ReferenceRow(table, "X", now) == Some(newer);
    TriggersAtThreePercent(100.0, 103.0);
    EqualPriceNeverFires(100.0);
    assert Fires(table, older, now);
    assert !Fires(table, newer, now);
    MovementAlertsAppend(table, [older], newer, now);
    MovementAlertsAppend(table, [], older, now);
    assert [older] == [] + [older];
  }

  class AlertSyncCron {
    var isCronRunning: bool
    const prices: PriceTable
    const mailer: Outbox

    constructor (prices: PriceTable, mailer: Outbox)
      ensures !isCronRunning && this.prices == prices && this.mailer == mailer
    {
      isCronRunning := false;
      this.prices := prices;
      this.mailer := mailer;
    }

    /** The callback the hourly `CronJob` runs. A tick arriving while another is
        still in flight does nothing; a tick that starts always clears the flag
        again, and an error thrown by the scan is caught here. `listFails` says
        whether `find()` throws; `failAt` is the index of the first row whose
        reference lookup throws. */
    method OnTick(now: int, listFails: bool, failAt: Option<nat>)
      modifies this, mailer
      ensures old(isCronRunning) ==> isCronRunning && mailer.sent == old(mailer.sent)
      ensures !old(isCronRunning) && listFails ==> !isCronRunning && mailer.sent == old(mailer.sent)
      ensures !old(isCronRunning) && !listFails ==>
                !isCronRunning &&
                mailer.sent == old(mailer.sent) + MovementAlerts(prices.rows, Processed(prices.rows, failAt), now)
    {
      if !isCronRunning {
        isCronRunning := true;
        var failed := CheckPriceIncreases(now, listFails, failAt);
        // a failure is only logged
        isCronRunning := false;
      }
    }

    /** `checkPriceIncreases()`: one lookup and at most one mail per stored row,
        in storage order. `failed` says whether an error escaped. */
    method CheckPriceIncreases(now: int, listFails: bool, failAt: Option<nat>) returns (failed: bool)
      modifies mailer
      ensures failed <==> listFails || (failAt.Some? && failAt.value < |prices.rows|)
      ensures listFails ==> mailer.sent == old(mailer.sent)
      ensures !listFails ==> mailer.sent == old(mailer.sent) + MovementAlerts(prices.rows, Processed(prices.rows, failAt), now)
    {
      if listFails {
        // `find()` throws before any row is read
        return true;
      }
      failed := ScanRows(prices.rows, now, failAt);
    }

    /** The `for` loop of `checkPriceIncreases` over the rows `find()` returned. */
    method ScanRows(rows: seq<PriceRow>, now: int, failAt: Option<nat>) returns (failed: bool)
      modifies mailer
      ensures failed <==> failAt.Some? && failAt.value < |rows|
      ensures mailer.sent == old(mailer.sent) + MovementAlerts(rows, Processed(rows, failAt), now)
    {
      var i := 0;
      failed := false;
      while i < |rows|
        invariant 0 <= i <= |rows|
        invariant !failed
        invariant failAt.Some? ==> i <= failAt.value
        invariant mailer.sent == old(mailer.sent) + MovementAlerts(rows, rows[..i], now)
      {
        if failAt == Some(i) {
          failed := true;
          break;
        }
        var price := rows[i];
        CheckRow(rows, price, now);
        assert rows[..i + 1] == rows[..i] + [price];
        MovementAlertsAppend(rows, rows[..i], price, now);
        i := i + 1;
      }
      if failed {
        assert Processed(rows, failAt) == rows[..i];
      } else {
        assert rows[..i] == rows == Processed(rows, failAt);
      }
    }

    /** The body of the scan for one stored row: its reference lookup and, when the
        rule fires, its mail. */
    method CheckRow(table: seq<PriceRow>, price: PriceRow, now: int)
      modifies mailer
      ensures mailer.sent == old(mailer.sent) + (if Fires(table, price, now) then [AlertEmail(price.chain, price.price)] else [])
    {
      var oneHourAgo := now - OneHourMs;
      var priceOneHourAgo := Newest(table, price.chain, Some(oneHourAgo));
      if priceOneHourAgo.Some? {
        if Triggers(priceOneHourAgo.value.price, price.price) {
          SendAlert(price.chain, price.price);
        }
      }
    }

    /** `sendAlert(chain, price)`: one mail to the fixed address. */
    method SendAlert(chain: string, price: real)
      modifies mailer
      ensures mailer.sent == old(mailer.sent) + [AlertEmail(chain, price)]
    {
      var subject := "Price Alert: " + chain + " Price Increased";
      mailer.SendEmail(AlertAddress, subject, MovementMessage(chain, price));
    }
  }
}
